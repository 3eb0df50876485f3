/** What the scanners make of printed attributes, values and lists. */
module Literals {
  import opened Collections
  import opened Options
  import opened Strings
  import opened Scanner
  import opened Conditions
  import opened Parser

  /** No word in `a` is a joining word, when it is read after a word character or not. */
  predicate JoinFree(h: Host, afterWord: bool, a: string)
    decreases |a|
  {
    if a == "" then true
    else if IsLetter(h, a[0]) && !afterWord then
      var w := Word(h, a);
      !IsJoinWord(w) && JoinFree(h, true, a[|w|..])
    else JoinFree(h, IsWordRune(h, a[0]), a[1..])
  }

  lemma {:induction false} GlueGlue(a: string, b: string, p: Option<Pieces>)
    ensures Glue(a, Glue(b, p)) == Glue(a + b, p)
  {
    if p.Some? && p.value.raw != [] {
      assert a + (b + p.value.raw[0]) == a + b + p.value.raw[0];
    }
  }

  lemma {:induction false} GlueEmpty(p: Option<Pieces>)
    requires p.Some? ==> p.value.raw != []
    ensures Glue("", p) == p
  {
    if p.Some? {
      assert "" + p.value.raw[0] == p.value.raw[0];
      assert [p.value.raw[0]] + p.value.raw[1..] == p.value.raw;
    }
  }

  /** Whether a word character came before matters only to a letter. */
  lemma {:induction false} AfterWordIrrelevant(h: Host, afterWord: bool, depth: nat, s: string)
    requires s == "" || !IsWordRune(h, s[0])
    ensures PiecesFrom(h, afterWord, Plain, depth, s) == PiecesFrom(h, false, Plain, depth, s)
  {
  }

  lemma {:induction false} WordThen(h: Host, w: string, tail: string, rest: string)
    requires forall i | 0 <= i < |w| :: IsWordRune(h, w[i])
    requires tail + rest == "" || !IsWordRune(h, (tail + rest)[0])
    ensures Word(h, w + tail + rest) == w
    ensures (w + tail + rest)[|w|..] == tail + rest
  {
    assert w + tail + rest == w + (tail + rest);
    WordLongest(h, w, tail + rest);
  }

  lemma {:induction false} WordExtends(h: Host, a: string, rest: string)
    requires a != "" && IsWordRune(h, a[0])
    requires rest == "" || !IsWordRune(h, rest[0])
    ensures Word(h, a + rest) == Word(h, a) != ""
    ensures (a + rest)[|Word(h, a)|..] == a[|Word(h, a)|..] + rest
  {
    WordIsPrefix(h, a);
    WordThen(h, Word(h, a), a[|Word(h, a)|..], rest);
  }

  /** At the start of a word outside parentheses. */
  lemma {:induction false} PiecesWordStep(h: Host, a: string, rest: string)
    requires a != "" && IsLetter(h, a[0])
    requires rest == "" || !IsWordRune(h, rest[0])
    ensures var w := Word(h, a);
            var more := PiecesFrom(h, true, Plain, 0, a[|w|..] + rest);
            && w != "" && a == w + a[|w|..]
            && PiecesFrom(h, false, Plain, 0, a + rest) ==
               if !IsJoinWord(w) then Glue(w, more)
               else if more == None then None
               else Some(Pieces([""] + more.value.raw, [w] + more.value.words))
  {
    hide ToLower;
    WordExtends(h, a, rest);
    WordIsPrefix(h, a);
  }

  /** At any other bare character outside parentheses. */
  lemma {:induction false} PiecesBareStep(h: Host, afterWord: bool, a: string, rest: string)
    requires a != "" && IsBare(a) && !(IsLetter(h, a[0]) && !afterWord)
    ensures PiecesFrom(h, afterWord, Plain, 0, a + rest)
         == Glue([a[0]], PiecesFrom(h, IsWordRune(h, a[0]), Plain, 0, a[1..] + rest))
  {
    hide Word, ToLower;
    assert (a + rest)[1..] == a[1..] + rest;
  }

  lemma {:induction false} PiecesBare(h: Host, afterWord: bool, a: string, rest: string)
    requires IsBare(a) && JoinFree(h, afterWord, a)
    requires rest == "" || !IsWordRune(h, rest[0])
    ensures PiecesFrom(h, afterWord, Plain, 0, a + rest) == Glue(a, PiecesFrom(h, false, Plain, 0, rest))
    decreases |a|
  {
    hide PiecesFrom, Glue, ToLower, Word;
    var tail := PiecesFrom(h, false, Plain, 0, rest);
    if a == "" {
      assert a + rest == rest;
      AfterWordIrrelevant(h, afterWord, 0, rest);
      GlueEmpty(tail);
    } else if IsLetter(h, a[0]) && !afterWord {
      var w := Word(h, a);
      PiecesWordStep(h, a, rest);
      PiecesBare(h, true, a[|w|..], rest);
      GlueGlue(w, a[|w|..], tail);
    } else {
      PiecesBareStep(h, afterWord, a, rest);
      PiecesBare(h, IsWordRune(h, a[0]), a[1..], rest);
      GlueGlue([a[0]], a[1..], tail);
      assert [a[0]] + a[1..] == a;
    }
  }

  predicate CutAfterBare(p: Option<Pieces>) {
    p.Some? ==> |p.value.words| >= 1 && |p.value.raw| >= 1 && IsBare(p.value.raw[0])
  }

  lemma {:induction false} CutGlue(head: string, p: Option<Pieces>)
    requires IsBare(head) && CutAfterBare(p)
    ensures CutAfterBare(Glue(head, p))
  {
  }

  /** A joining word inside a bare text leaves a bare first piece. */
  lemma {:induction false} PiecesBareCut(h: Host, afterWord: bool, a: string, rest: string)
    requires IsBare(a) && !JoinFree(h, afterWord, a)
    requires rest == "" || !IsWordRune(h, rest[0])
    ensures CutAfterBare(PiecesFrom(h, afterWord, Plain, 0, a + rest))
    decreases |a|
  {
    hide PiecesFrom, Glue, ToLower, Word;
    if IsLetter(h, a[0]) && !afterWord {
      var w := Word(h, a);
      PiecesWordStep(h, a, rest);
      if !IsJoinWord(w) {
        PiecesBareCut(h, true, a[|w|..], rest);
        assert forall i | 0 <= i < |w| :: w[i] == a[i];
        CutGlue(w, PiecesFrom(h, true, Plain, 0, a[|w|..] + rest));
      }
    } else {
      PiecesBareStep(h, afterWord, a, rest);
      PiecesBareCut(h, IsWordRune(h, a[0]), a[1..], rest);
      CutGlue([a[0]], PiecesFrom(h, IsWordRune(h, a[0]), Plain, 0, a[1..] + rest));
    }
  }

  lemma {:induction false} PiecesQuoted(h: Host, afterWord: bool, m: Mode, depth: nat, a: string, rest: string)
    requires StaysQuoted(m, a) && (rest == "" || !IsWordRune(h, rest[0]))
    requires ModeAfter(m, a) == Plain
    ensures PiecesFrom(h, afterWord, m, depth, a + rest) == Glue(a, PiecesFrom(h, false, Plain, depth, rest))
    decreases |a|
  {
    if a == "" {
      assert a + rest == rest;
      AfterWordIrrelevant(h, afterWord, depth, rest);
      GlueEmpty(PiecesFrom(h, false, Plain, depth, rest));
    } else {
      assert (a + rest)[1..] == a[1..] + rest;
      PiecesQuoted(h, IsWordRune(h, a[0]), NextMode(m, a[0]), depth, a[1..], rest);
      GlueGlue([a[0]], a[1..], PiecesFrom(h, false, Plain, depth, rest));
      assert [a[0]] + a[1..] == a;
    }
  }

  lemma {:induction false} NestStepDeeper(m: Mode, depth: nat, c: char)
    requires Nest(Nested(m, depth), c).Nested?
    ensures var st := Nest(Nested(m, depth), c);
            Nest(Nested(m, depth + 1), c) == Nested(st.mode, st.depth + 1)
  {
  }

  /** Inside parentheses every balanced text is passed over whole, whatever words it holds. */
  lemma {:induction false} PiecesNested(h: Host, afterWord: bool, m: Mode, depth: nat, a: string, rest: string)
    requires NestAll(Nested(m, depth), a) == OUTSIDE
    requires rest != "" && rest[0] == ')'
    ensures PiecesFrom(h, afterWord, m, depth + 1, a + rest) == Glue(a, PiecesFrom(h, false, Plain, 1, rest))
    decreases |a|
  {
    hide Glue, PiecesFrom, IsWordRune, Nest;
    var tail := PiecesFrom(h, false, Plain, 1, rest);
    if a == "" {
      assert a + rest == rest;
      PiecesCloseAny(h, afterWord, rest);
      GlueEmpty(tail);
    } else {
      assert (a + rest)[1..] == a[1..] + rest;
      PiecesStep(h, afterWord, m, depth + 1, a + rest);
      var st := Nest(Nested(m, depth), a[0]);
      if st == Unbalanced {
        NestUnbalanced(a[1..]);
      }
      NestStepDeeper(m, depth, a[0]);
      PiecesNested(h, IsWordRune(h, a[0]), st.mode, st.depth, a[1..], rest);
      GlueGlue([a[0]], a[1..], tail);
      assert [a[0]] + a[1..] == a;
    }
  }

  lemma {:induction false} PiecesCloseAny(h: Host, afterWord: bool, rest: string)
    requires rest != "" && rest[0] == ')'
    ensures PiecesFrom(h, afterWord, Plain, 1, rest) == PiecesFrom(h, false, Plain, 1, rest)
  {
    hide Word, ToLower;
  }

  // ---------------------------------------------------------------- scalars

  /** A text every scanner passes over as one unquoted unit. */
  predicate IsBareword(h: Host, s: string) {
    s != "" && IsBare(s) && JoinFree(h, false, s)
  }

  lemma {:induction false} NotJoinWord(w: string, missing: char)
    requires missing == 'n' || missing == 'd'
    requires forall i | 0 <= i < |w| :: Lower(w[i]) != 'r' && Lower(w[i]) != missing
    ensures !IsJoinWord(w)
  {
    var l := ToLower(w);
    if |w| == 2 {
      assert l[1] == Lower(w[1]);
    } else if |w| == 3 {
      assert l[1] == Lower(w[1]) && l[2] == Lower(w[2]);
    }
  }

  /** `and` cannot be spelt without n and d, nor `or` without r. */
  lemma {:induction false} NoJoinLetters(h: Host, afterWord: bool, s: string, missing: char)
    requires missing == 'n' || missing == 'd'
    requires forall i | 0 <= i < |s| :: Lower(s[i]) != 'r' && Lower(s[i]) != missing
    ensures JoinFree(h, afterWord, s)
    decreases |s|
  {
    if s != "" {
      if IsLetter(h, s[0]) && !afterWord {
        var w := Word(h, s);
        WordIsPrefix(h, s);
        assert forall i | 0 <= i < |w| :: w[i] == s[i];
        NotJoinWord(w, missing);
        NoJoinLetters(h, true, s[|w|..], missing);
      } else {
        NoJoinLetters(h, IsWordRune(h, s[0]), s[1..], missing);
      }
    }
  }

  lemma {:induction false} BoolWordIsBare(h: Host, w: string)
    requires w == "true" || w == "false"
    ensures IsBareword(h, w)
  {
    hide ToLower;
    assert ToLower(w)[0] == Lower(w[0]) == w[0];
    LetterWord(h, w);
  }

  /** A text of letters is one word. */
  lemma {:induction false} LetterWord(h: Host, w: string)
    requires w != "" && forall i | 0 <= i < |w| :: 'a' <= w[i] <= 'z'
    ensures JoinFree(h, false, w) == !IsJoinWord(w)
  {
    hide ToLower;
    assert w + "" == w;
    WordLongest(h, w, "");
    assert w[|w|..] == "";
  }

  predicate IsBareChar(c: char) {
    !IsSpace(c) && !IsQuote(c) && c != '[' && c != ']' && c != '(' && c != ')'
  }

  predicate NonFiniteLetter(c: char) {
    c == 'i' || c == 'n' || c == 'f' || c == 't' || c == 'y' || c == 'a'
  }

  lemma {:induction false} NonFiniteLetters(word: string, k: nat)
    requires (word == "inf" || word == "infinity" || word == "nan") && k < |word|
    ensures NonFiniteLetter(word[k])
  {
  }

  lemma {:induction false} LoweredLetter(c: char)
    requires NonFiniteLetter(Lower(c))
    ensures IsBareChar(c)
  {
  }

  lemma {:induction false} NonFiniteChars(v: string, i: nat)
    requires IsNonFinite(v) && i < |v|
    ensures IsBareChar(v[i]) && Lower(v[i]) != 'r' && Lower(v[i]) != 'd'
  {
    hide ToLower, IsBareChar, NonFiniteLetter;
    var signed := v[0] == '+' || v[0] == '-';
    if signed && i == 0 {
      SignIsBare(v[0]);
    } else {
      var body := if signed then v[1..] else v;
      var k := if signed then i - 1 else i;
      NonFiniteLetters(ToLower(body), k);
      assert v[i] == body[k];
      LoweredLetter(v[i]);
      NotRorD(Lower(v[i]));
    }
  }

  lemma {:induction false} SignIsBare(c: char)
    requires c == '+' || c == '-'
    ensures IsBareChar(c) && Lower(c) == c
  {
  }

  lemma {:induction false} NotRorD(c: char)
    requires NonFiniteLetter(c)
    ensures c != 'r' && c != 'd'
  {
  }

  lemma {:induction false} FloatRuneChars(c: char)
    requires FloatRune(c)
    ensures IsBareChar(c) && Lower(c) != 'r' && Lower(c) != 'n'
  {
  }

  lemma {:induction false} FloatIsBare(h: Host, v: string)
    requires IsFloat(h, v)
    ensures IsBareword(h, v)
  {
    var nonFinite := IsNonFinite(v);
    forall i | 0 <= i < |v|
      ensures IsBareChar(v[i]) && Lower(v[i]) != 'r' && Lower(v[i]) != (if nonFinite then 'd' else 'n')
    {
      if nonFinite {
        NonFiniteChars(v, i);
      } else {
        FloatRuneChars(v[i]);
      }
    }
    NoJoinLetters(h, false, v, if nonFinite then 'd' else 'n');
  }

  /** A printed value is its normal form, either quoted or bare. */
  lemma {:induction false} FormatCases(h: Host, v: string, op: Operator)
    ensures var lit := FormatValue(h, v, op);
            (lit == Quote(Norm(v))) || (lit == Norm(v) && IsBareword(h, lit))
  {
    var t := Trim(v);
    if IsBoolWord(t) {
      BoolWordIsBare(h, ToLower(t));
    } else if IsNumeric(op) && IsFloat(h, t) {
      FloatIsBare(h, t);
    }
  }

  /** Reading a printed value back gives its normal form. */
  lemma {:induction false} UnquoteFormat(h: Host, v: string, op: Operator)
    ensures Unquote(FormatValue(h, v, op)) == Norm(v)
  {
    FormatCases(h, v, op);
    UnquoteQuote(Norm(v));
  }

  lemma {:induction false} FormatTrimmed(h: Host, v: string, op: Operator)
    ensures var lit := FormatValue(h, v, op);
            lit != "" && Trimmed(lit) && lit[0] != '(' && lit[|lit| - 1] != ')'
  {
    FormatCases(h, v, op);
  }

  lemma {:induction false} TokensFormat(h: Host, v: string, op: Operator, current: string, depth: int, rest: string)
    ensures var lit := FormatValue(h, v, op);
            TokensFrom(current, Plain, depth, lit + rest) == TokensFrom(current + lit, Plain, depth, rest)
  {
    FormatCases(h, v, op);
    var lit := FormatValue(h, v, op);
    if lit == Quote(Norm(v)) {
      QuoteIsOpaque(Norm(v));
      assert (lit + rest)[1..] == lit[1..] + rest;
      TokensQuoted(current + "\"", Quoted('"', false), depth, lit[1..], rest);
      assert current + "\"" + lit[1..] == current + lit;
    } else {
      TokensBare(current, depth, lit, rest);
    }
  }

  lemma {:induction false} NestFormat(h: Host, v: string, op: Operator, depth: nat)
    ensures NestAll(Nested(Plain, depth), FormatValue(h, v, op)) == Nested(Plain, depth)
  {
    FormatCases(h, v, op);
    var lit := FormatValue(h, v, op);
    if lit == Quote(Norm(v)) {
      QuoteIsOpaque(Norm(v));
      NestQuoted(Quoted('"', false), depth, lit[1..]);
    } else {
      NestBare(depth, lit);
    }
  }

  lemma {:induction false} PiecesOpenQuote(h: Host, s: string)
    ensures PiecesFrom(h, false, Plain, 0, "\"" + s) == Glue("\"", PiecesFrom(h, false, Quoted('"', false), 0, s))
  {
    TakeDrop("\"", s);
  }

  /** A character that is no letter, quote, parenthesis or other word character just goes into the piece. */
  lemma {:induction false} PiecesOther(h: Host, c: char, s: string)
    requires !IsWordRune(h, c) && !IsQuote(c) && c != '(' && c != ')'
    ensures PiecesFrom(h, false, Plain, 0, [c] + s) == Glue([c], PiecesFrom(h, false, Plain, 0, s))
  {
    TakeDrop([c], s);
  }

  lemma {:induction false} PiecesQuote(h: Host, v: string, rest: string)
    requires rest == "" || !IsWordRune(h, rest[0])
    ensures PiecesFrom(h, false, Plain, 0, Quote(v) + rest) == Glue(Quote(v), PiecesFrom(h, false, Plain, 0, rest))
  {
    hide PiecesFrom, Escape, StaysQuoted, ModeAfter;
    var body := Escape(v) + "\"";
    QuoteIsOpaque(v);
    Concat3("\"", Escape(v), "\"");
    TakeDrop("\"", body);
    Concat3("\"", body, rest);
    PiecesOpenQuote(h, body + rest);
    PiecesQuoted(h, false, Quoted('"', false), 0, body, rest);
    GlueGlue("\"", body, PiecesFrom(h, false, Plain, 0, rest));
  }

  lemma {:induction false} PiecesFormat(h: Host, v: string, op: Operator, rest: string)
    requires rest == "" || !IsWordRune(h, rest[0])
    ensures var lit := FormatValue(h, v, op);
            PiecesFrom(h, false, Plain, 0, lit + rest) == Glue(lit, PiecesFrom(h, false, Plain, 0, rest))
  {
    FormatCases(h, v, op);
    if FormatValue(h, v, op) == Quote(Norm(v)) {
      PiecesQuote(h, Norm(v), rest);
    } else {
      PiecesBare(h, false, FormatValue(h, v, op), rest);
    }
  }

  lemma {:induction false} ContainsEscape(v: string, c: char)
    requires c != '\\' && c != '"'
    ensures Contains(Escape(v), c) == Contains(v, c)
  {
    if v != "" {
      ContainsEscape(v[1..], c);
      ContainsCons(v[0], v[1..], c);
      assert [v[0]] + v[1..] == v;
      if v[0] == '\\' || v[0] == '"' {
        ContainsCons(v[0], Escape(v[1..]), c);
        ContainsCons('\\', [v[0]] + Escape(v[1..]), c);
        assert ['\\'] + ([v[0]] + Escape(v[1..])) == Escape(v);
      } else {
        ContainsCons(v[0], Escape(v[1..]), c);
      }
    }
  }

  lemma {:induction false} ContainsCons(a: char, s: string, c: char)
    ensures Contains([a] + s, c) == (a == c || Contains(s, c))
  {
    if a == c {
      assert ([a] + s)[0] == c;
    }
    if Contains(s, c) {
      var i :| 0 <= i < |s| && s[i] == c;
      assert ([a] + s)[i + 1] == c;
    }
  }

  lemma {:induction false} ContainsConcat(a: string, b: string, c: char)
    ensures Contains(a + b, c) == (Contains(a, c) || Contains(b, c))
  {
    if Contains(a, c) {
      var i :| 0 <= i < |a| && a[i] == c;
      assert (a + b)[i] == c;
    }
    if Contains(b, c) {
      var i :| 0 <= i < |b| && b[i] == c;
      assert (a + b)[|a| + i] == c;
    }
    if Contains(a + b, c) {
      var i :| 0 <= i < |a + b| && (a + b)[i] == c;
      assert if i < |a| then a[i] == c else b[i - |a|] == c;
    }
  }

  /** Printing a value adds no character but quotes and backslashes. */
  lemma {:induction false} ContainsFormat(h: Host, v: string, op: Operator, c: char)
    requires c != '\\' && c != '"'
    ensures Contains(FormatValue(h, v, op), c) == Contains(Norm(v), c)
  {
    FormatCases(h, v, op);
    ContainsEscape(Norm(v), c);
    ContainsConcat("\"", Escape(Norm(v)), c);
    ContainsConcat("\"" + Escape(Norm(v)), "\"", c);
  }

  lemma {:induction false} HasParensFormat(h: Host, v: string, op: Operator)
    ensures HasParens(FormatValue(h, v, op)) == HasParens(Norm(v))
  {
    ContainsFormat(h, v, op, '(');
    ContainsFormat(h, v, op, ')');
  }

  lemma {:induction false} HasParensConcat(a: string, b: string)
    ensures HasParens(a + b) == (HasParens(a) || HasParens(b))
  {
    ContainsConcat(a, b, '(');
    ContainsConcat(a, b, ')');
  }

  predicate IsKeyLetter(c: char) {
    c == 'q' || c == 'n' || c == 'o' || c == 'w' || c == 'g' || c == 'l' || c == 'r'
  }

  lemma {:induction false} OperatorKeys(v: string)
    requires LookupOperator(v).Some?
    ensures |v| == 2 || (|v| == 5 && Lower(v[0]) == 'n')
    ensures 'a' <= Lower(v[0]) <= 'z'
    ensures IsKeyLetter(Lower(v[0])) || IsKeyLetter(Lower(v[1]))
  {
    var l := ToLower(v);
    assert |l| >= 2 && l[0] == Lower(v[0]) && l[1] == Lower(v[1]);
  }

  lemma {:induction false} FloatNotOperator(h: Host, v: string)
    requires IsFloat(h, v)
    ensures LookupOperator(v) == None
  {
    if LookupOperator(v).Some? {
      OperatorKeys(v);
      if IsNonFinite(v) {
        assert false;
      } else {
        FloatRuneChars(v[0]);
        FloatRuneChars(v[1]);
        assert false;
      }
    }
  }

  /** No printed value reads as an operator. */
  lemma {:induction false} FormatNotOperator(h: Host, v: string, op: Operator)
    ensures LookupOperator(FormatValue(h, v, op)) == None
  {
    var lit := FormatValue(h, v, op);
    var t := Trim(v);
    if !IsBoolWord(t) && IsNumeric(op) && IsFloat(h, t) {
      FloatNotOperator(h, t);
    } else if LookupOperator(lit).Some? {
      OperatorKeys(lit);
      assert false;
    }
  }

  lemma {:induction false} ToLowerTwice(s: string)
    ensures ToLower(ToLower(s)) == ToLower(s)
  {
    hide ToLower;
    var l := ToLower(s);
    assert forall i | 0 <= i < |l| :: ToLower(l)[i] == l[i];
  }

  lemma {:induction false} NormTwice(v: string)
    ensures Norm(Norm(v)) == Norm(v)
    ensures Trimmed(Norm(v))
  {
    hide TrimLeft, TrimRight, Trim;
    var t := Trim(v);
    if IsBoolWord(t) {
      ToLowerTwice(t);
    }
  }

  /** What a value prints as, by the normal form of its trimmed text. */
  lemma {:induction false} FormatTrimmedBy(h: Host, v: string, op: Operator)
    ensures FormatValue(h, v, op) ==
            if IsBoolWord(Trim(v)) then Norm(v)
            else if IsNumeric(op) && IsFloat(h, Trim(v)) then Trim(v)
            else Quote(Trim(v))
  {
    hide Trim, ToLower, IsFloat, Quote;
  }

  lemma {:induction false} NormTrimmed(v: string)
    ensures Trim(Norm(v)) == Norm(v)
    ensures IsBoolWord(Norm(v)) == IsBoolWord(Trim(v))
    ensures !IsBoolWord(Trim(v)) ==> Norm(v) == Trim(v)
  {
    hide Trim, ToLower;
    NormTwice(v);
    TrimOfTrimmed(Norm(v));
    ToLowerTwice(Trim(v));
  }

  lemma {:induction false} TrimOfTrimmed(s: string)
    requires Trimmed(s)
    ensures Trim(s) == s
  {
    hide TrimLeft, TrimRight;
  }

  lemma {:induction false} FormatNorm(h: Host, v: string, op: Operator)
    ensures FormatValue(h, Norm(v), op) == FormatValue(h, v, op)
  {
    hide Trim, IsBoolWord, IsFloat, Quote, FormatValue, Norm;
    FormatTrimmedBy(h, v, op);
    FormatTrimmedBy(h, Norm(v), op);
    NormTrimmed(v);
    NormTwice(v);
  }

  lemma {:induction false} LowerKey(op: Operator)
    ensures ToLower(Key(op)) == Key(op)
  {
    hide ToLower;
    var key := Key(op);
    assert forall i | 0 <= i < |key| :: 'a' <= key[i] <= 'z';
    assert forall i | 0 <= i < |key| :: ToLower(key)[i] == key[i];
  }

  lemma {:induction false} LookupKey(op: Operator)
    ensures LookupOperator(Key(op)) == Some(op)
  {
    hide ToLower;
    LowerKey(op);
  }

  // ---------------------------------------------------------------- lists

  /** Items as `splitList` makes them: trimmed, not blank, without commas. */
  predicate AreItems(items: seq<string>) {
    forall i | 0 <= i < |items| :: items[i] != "" && Trimmed(items[i]) && !Contains(items[i], ',')
  }

  function NormAll(items: seq<string>): (r: seq<string>)
    ensures |r| == |items|
    ensures forall i | 0 <= i < |items| :: r[i] == Norm(items[i])
  {
    if items == [] then []
    else
      var rest := NormAll(items[1..]);
      assert forall i | 0 < i < |items| :: items[i] == items[1..][i - 1] && ([Norm(items[0])] + rest)[i] == rest[i - 1];
      [Norm(items[0])] + rest
  }

  predicate AnyHasParens(items: seq<string>) {
    exists i | 0 <= i < |items| :: HasParens(items[i])
  }

  lemma {:induction false} ContainsTrim(s: string, c: char)
    requires Contains(Trim(s), c)
    ensures Contains(s, c)
  {
    var left, right := TrimSplits(s);
    ContainsConcat(left, Trim(s), c);
    ContainsConcat(left + Trim(s), right, c);
  }

  lemma {:induction false} TrimNonEmptyItems(fields: seq<string>)
    requires forall i | 0 <= i < |fields| :: !Contains(fields[i], ',')
    ensures AreItems(TrimNonEmpty(fields))
  {
    if fields != [] {
      TrimNonEmptyItems(fields[1..]);
      if Contains(Trim(fields[0]), ',') {
        ContainsTrim(fields[0], ',');
      }
    }
  }

  lemma {:induction false} SplitListItems(raw: string)
    ensures AreItems(SplitList(raw))
  {
    SplitFields(raw, ',');
    TrimNonEmptyItems(Split(raw, ','));
  }

  /** The text between the brackets of a list. */
  function Listing(h: Host, items: seq<string>): string {
    Join(FormatItems(h, items), ", ")
  }

  lemma {:induction false} ListingStep(h: Host, items: seq<string>)
    requires items != []
    ensures Listing(h, items) ==
            FormatValue(h, items[0], Eq) + (if |items| == 1 then "" else ", " + Listing(h, items[1..]))
  {
    assert FormatItems(h, items)[1..] == FormatItems(h, items[1..]);
    if |items| == 1 {
      assert FormatItems(h, items[1..]) == [];
    } else {
      assert |FormatItems(h, items[1..])| >= 1;
    }
  }

  lemma {:induction false} TokensListing(h: Host, items: seq<string>, current: string, rest: string)
    ensures TokensFrom(current, Plain, 1, Listing(h, items) + rest)
         == TokensFrom(current + Listing(h, items), Plain, 1, rest)
    decreases |items|
  {
    var text := Listing(h, items);
    if items == [] {
      assert text + rest == rest && current + text == current;
    } else {
      var lit := FormatValue(h, items[0], Eq);
      ListingStep(h, items);
      if |items| == 1 {
        assert text == lit;
        TokensFormat(h, items[0], Eq, current, 1, rest);
      } else {
        var more := Listing(h, items[1..]);
        Concat4(lit, ", ", more, rest);
        TokensFormat(h, items[0], Eq, current, 1, ", " + (more + rest));
        TokensCommaSpace(current + lit, more + rest);
        TokensListing(h, items[1..], current + lit + ", ", rest);
        Concat4(current, lit, ", ", more);
      }
    }
  }

  lemma {:induction false} TokensCommaSpace(current: string, rest: string)
    ensures TokensFrom(current, Plain, 1, ", " + rest) == TokensFrom(current + ", ", Plain, 1, rest)
  {
    var s := ", " + rest;
    assert s[1..] == " " + rest && s[1..][1..] == rest;
    assert current + [','] + [' '] == current + ", ";
  }

  /** A printed list is one token. */
  lemma {:induction false} TokensList(h: Host, items: seq<string>, current: string, rest: string)
    ensures TokensFrom(current, Plain, 0, ListText(h, items) + rest)
         == TokensFrom(current + ListText(h, items), Plain, 0, rest)
  {
    var text := Listing(h, items);
    Concat4("[", text, "]", rest);
    TokensListing(h, items, current + "[", "]" + rest);
    Concat4(current, "[", text, "]");
    Concat3("[", text, "]");
    TakeDrop("[", text + ("]" + rest));
    TakeDrop("]", rest);
  }

  lemma {:induction false} NestComma(depth: nat)
    ensures NestAll(Nested(Plain, depth), ", ") == Nested(Plain, depth)
  {
    assert ", "[1..] == " ";
  }

  lemma {:induction false} NestListing(h: Host, items: seq<string>, depth: nat)
    ensures NestAll(Nested(Plain, depth), Listing(h, items)) == Nested(Plain, depth)
    decreases |items|
  {
    hide FormatValue;
    if items != [] {
      var st := Nested(Plain, depth);
      var lit := FormatValue(h, items[0], Eq);
      ListingStep(h, items);
      NestFormat(h, items[0], Eq, depth);
      if |items| == 1 {
        assert Listing(h, items) == lit;
      } else {
        var more := Listing(h, items[1..]);
        NestListing(h, items[1..], depth);
        NestConcat(st, lit, ", " + more);
        NestConcat(st, ", ", more);
        NestComma(depth);
        assert Listing(h, items) == lit + (", " + more);
      }
    }
  }

  lemma {:induction false} NestList(h: Host, items: seq<string>, depth: nat)
    ensures NestAll(Nested(Plain, depth), ListText(h, items)) == Nested(Plain, depth)
  {
    var st := Nested(Plain, depth);
    NestListing(h, items, depth);
    NestConcat(st, "[", Listing(h, items));
    NestConcat(st, "[" + Listing(h, items), "]");
    assert NestAll(st, "[") == st && NestAll(st, "]") == st;
  }

  lemma {:induction false} PiecesListing(h: Host, items: seq<string>, rest: string)
    requires rest == "" || !IsWordRune(h, rest[0])
    ensures PiecesFrom(h, false, Plain, 0, Listing(h, items) + rest)
         == Glue(Listing(h, items), PiecesFrom(h, false, Plain, 0, rest))
    decreases |items|
  {
    var text := Listing(h, items);
    var tail := PiecesFrom(h, false, Plain, 0, rest);
    if items == [] {
      assert text + rest == rest;
      GlueEmpty(tail);
    } else {
      var lit := FormatValue(h, items[0], Eq);
      ListingStep(h, items);
      if |items| == 1 {
        assert text == lit;
        PiecesFormat(h, items[0], Eq, rest);
      } else {
        var more := Listing(h, items[1..]);
        Concat4(lit, ", ", more, rest);
        PiecesFormat(h, items[0], Eq, ", " + (more + rest));
        PiecesListing(h, items[1..], rest);
        PiecesCommaSpace(h, more + rest);
        GlueGlue(", ", more, tail);
        GlueGlue(lit, ", " + more, tail);
      }
    }
  }

  lemma {:induction false} PiecesCommaSpace(h: Host, rest: string)
    ensures PiecesFrom(h, false, Plain, 0, ", " + rest) == Glue(", ", PiecesFrom(h, false, Plain, 0, rest))
  {
    hide PiecesFrom;
    PiecesOther(h, ',', " " + rest);
    PiecesOther(h, ' ', rest);
    Concat3(",", " ", rest);
    assert "," + " " == ", ";
    GlueGlue(",", " ", PiecesFrom(h, false, Plain, 0, rest));
  }

  lemma {:induction false} PiecesList(h: Host, items: seq<string>, rest: string)
    requires rest == "" || !IsWordRune(h, rest[0])
    ensures PiecesFrom(h, false, Plain, 0, ListText(h, items) + rest)
         == Glue(ListText(h, items), PiecesFrom(h, false, Plain, 0, rest))
  {
    hide PiecesFrom, Join, FormatItems;
    var text := Listing(h, items);
    var tail := PiecesFrom(h, false, Plain, 0, rest);
    Concat4("[", text, "]", rest);
    Concat3("[", text, "]");
    assert ("]" + rest)[0] == ']';
    PiecesOther(h, '[', text + ("]" + rest));
    PiecesOther(h, ']', rest);
    PiecesListing(h, items, "]" + rest);
    GlueGlue(text, "]", tail);
    GlueGlue("[", text + "]", tail);
  }

  lemma {:induction false} AnyHasParensCons(head: string, rest: seq<string>)
    ensures AnyHasParens([head] + rest) == (HasParens(head) || AnyHasParens(rest))
  {
    if HasParens(head) {
      assert ([head] + rest)[0] == head;
    }
    if AnyHasParens(rest) {
      var i :| 0 <= i < |rest| && HasParens(rest[i]);
      assert ([head] + rest)[i + 1] == rest[i];
    }
  }

  lemma {:induction false} NoListing(h: Host)
    ensures Listing(h, []) == "" && !HasParens("") && !HasParens(", ") && !AnyHasParens([])
  {
  }

  lemma {:induction false} HasParensListing(h: Host, items: seq<string>)
    ensures HasParens(Listing(h, items)) == AnyHasParens(NormAll(items))
    decreases |items|
  {
    hide FormatValue, Norm, Listing, HasParens, AnyHasParens;
    var norms := NormAll(items);
    NoListing(h);
    if items != [] {
      ListingStep(h, items);
      HasParensFormat(h, items[0], Eq);
      HasParensListing(h, items[1..]);
      assert norms == [Norm(items[0])] + NormAll(items[1..]);
      AnyHasParensCons(Norm(items[0]), NormAll(items[1..]));
      if |items| > 1 {
        var lit, more := FormatValue(h, items[0], Eq), Listing(h, items[1..]);
        HasParensConcat(lit, ", " + more);
        HasParensConcat(", ", more);
      } else {
        var lit := FormatValue(h, items[0], Eq);
        assert items[1..] == [] && lit + "" == lit;
      }
    }
  }

  lemma {:induction false} HasParensList(h: Host, items: seq<string>)
    ensures HasParens(ListText(h, items)) == AnyHasParens(NormAll(items))
  {
    HasParensListing(h, items);
    HasParensConcat("[", Listing(h, items));
    HasParensConcat("[" + Listing(h, items), "]");
  }

  lemma {:induction false} NormItem(item: string)
    requires item != "" && Trimmed(item) && !Contains(item, ',')
    ensures Norm(item) != "" && Trimmed(Norm(item)) && !Contains(Norm(item), ',')
  {
    NormTwice(item);
    if IsBoolWord(item) {
      assert Norm(item) == "true" || Norm(item) == "false";
    }
  }

  /** The first field of a split, whether or not a space stands in front of it. */
  lemma {:induction false} FirstField(pad: string, field: string, tail: string)
    requires pad == "" || pad == " "
    requires field != "" && Trimmed(field) && !Contains(field, ',')
    ensures Trim(pad + field) == field
    ensures Split(pad + field, ',') == [pad + field]
    ensures Split(pad + field + "," + tail, ',') == [pad + field] + Split(tail, ',')
  {
    TrimPadded(pad, field, "");
    assert pad + field + "" == pad + field;
    ContainsConcat(pad, field, ',');
    SplitOne(pad + field, ',');
    SplitPrefix(pad + field, ',', tail);
  }

  lemma {:induction false} UnquoteItemsCons(field: string, rest: seq<string>)
    requires Trim(field) != ""
    ensures UnquoteItems([field]) == [Unquote(Trim(field))]
    ensures UnquoteItems([field] + rest) == [Unquote(Trim(field))] + UnquoteItems(rest)
  {
    assert ([field] + rest)[1..] == rest;
    assert [field][1..] == [];
  }

  lemma {:induction false} TrimNonEmptyCons(field: string, rest: seq<string>)
    requires Trim(field) != ""
    ensures TrimNonEmpty([field]) == [Trim(field)]
    ensures TrimNonEmpty([field] + rest) == [Trim(field)] + TrimNonEmpty(rest)
  {
    assert ([field] + rest)[1..] == rest;
    assert [field][1..] == [];
  }

  lemma {:induction false} NormAllCons(items: seq<string>)
    requires items != []
    ensures NormAll(items) == [Norm(items[0])] + NormAll(items[1..])
    ensures |items| == 1 ==> NormAll(items) == [Norm(items[0])]
  {
  }

  lemma {:induction false} ListingRest(h: Host, items: seq<string>, pad: string)
    requires |items| > 1
    ensures pad + Listing(h, items) == pad + FormatValue(h, items[0], Eq) + "," + (" " + Listing(h, items[1..]))
  {
    hide FormatValue, Listing;
    var lit, more := FormatValue(h, items[0], Eq), Listing(h, items[1..]);
    ListingStep(h, items);
    Concat4(pad, lit, ",", " " + more);
    Concat3(",", " ", more);
  }

  lemma {:induction false} UnquoteListing(h: Host, items: seq<string>, pad: string)
    requires AreItems(items) && items != []
    requires pad == "" || pad == " "
    ensures UnquoteItems(Split(pad + Listing(h, items), ',')) == NormAll(items)
    decreases |items|
  {
    hide Unquote, FormatValue, Norm, Trim, Listing, Split, Contains, UnquoteItems, NormAll;
    var lit := FormatValue(h, items[0], Eq);
    FormatTrimmed(h, items[0], Eq);
    UnquoteFormat(h, items[0], Eq);
    NormItem(items[0]);
    ContainsFormat(h, items[0], Eq, ',');
    NormAllCons(items);
    if |items| == 1 {
      ListingStep(h, items);
      assert lit + "" == lit;
      FirstField(pad, lit, "");
      UnquoteItemsCons(pad + lit, []);
    } else {
      var tail := " " + Listing(h, items[1..]);
      ListingRest(h, items, pad);
      FirstField(pad, lit, tail);
      UnquoteItemsCons(pad + lit, Split(tail, ','));
      UnquoteListing(h, items[1..], " ");
    }
  }

  lemma {:induction false} Bracketed(s: string)
    ensures var text := "[" + s + "]"; TrimSuffix(TrimPrefix(Trim(text), '['), ']') == s
  {
    var text := "[" + s + "]";
    assert text[0] == '[' && text[|text| - 1] == ']';
    assert text[1..] == s + "]";
    assert (s + "]")[..|s|] == s;
  }

  /** Reading a printed list back gives its items, in normal form and in order. */
  lemma {:induction false} UnformatListText(h: Host, items: seq<string>)
    requires AreItems(items)
    ensures UnformatList(ListText(h, items)) == Join(NormAll(items), ", ")
  {
    Bracketed(Listing(h, items));
    if items != [] {
      UnquoteListing(h, items, "");
      assert "" + Listing(h, items) == Listing(h, items);
    } else {
      assert Listing(h, items) == "" && Split("", ',') == [""];
      assert UnquoteItems([""]) == UnquoteItems([""][1..]) == [];
    }
  }

  lemma {:induction false} JoinStep(items: seq<string>)
    requires items != []
    ensures Join(items, ", ") == items[0] + (if |items| == 1 then "" else ", " + Join(items[1..], ", "))
  {
  }

  lemma {:induction false} SplitJoined(items: seq<string>, pad: string)
    requires AreItems(items) && items != []
    requires pad == "" || pad == " "
    ensures TrimNonEmpty(Split(pad + Join(items, ", "), ',')) == items
    decreases |items|
  {
    JoinStep(items);
    assert [items[0]] + items[1..] == items;
    if |items| == 1 {
      FirstField(pad, items[0], "");
      TrimNonEmptyCons(pad + items[0], []);
    } else {
      var more := Join(items[1..], ", ");
      Concat4(pad, items[0], ",", " " + more);
      Concat3(",", " ", more);
      Concat3(items[0], ",", " " + more);
      assert "," + " " == ", ";
      FirstField(pad, items[0], " " + more);
      TrimNonEmptyCons(pad + items[0], Split(" " + more, ','));
      SplitJoined(items[1..], " ");
    }
  }

  /** Joining items with commas and splitting the result gives the items back. */
  lemma {:induction false} SplitListJoin(items: seq<string>)
    requires AreItems(items)
    ensures SplitList(Join(items, ", ")) == items
  {
    if items == [] {
      assert TrimNonEmpty([""]) == [];
    } else {
      SplitJoined(items, "");
      assert "" + Join(items, ", ") == Join(items, ", ");
    }
  }

  lemma {:induction false} NormAllItems(items: seq<string>)
    requires AreItems(items)
    ensures AreItems(NormAll(items)) && NormAll(NormAll(items)) == NormAll(items)
  {
    forall i | 0 <= i < |items|
      ensures Norm(Norm(items[i])) == Norm(items[i])
      ensures Norm(items[i]) != "" && Trimmed(Norm(items[i])) && !Contains(Norm(items[i]), ',')
    {
      NormTwice(items[i]);
      NormItem(items[i]);
    }
  }
}
