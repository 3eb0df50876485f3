/** How every printed query reads back: the prediction, and its proof for leaves and for token counts. */
module Reading {
  import opened Collections
  import opened Options
  import opened Strings
  import opened Scanner
  import opened Conditions
  import opened Parser
  import opened Literals
  import opened Queries

  /** A leaf whose text has a parenthesis in it, outside of its own pair. */
  predicate Exposed(q: Query) {
    match q
    case Test(_, _, arg) => HasParens(Norm(arg))
    case OneOf(_, items) => AnyHasParens(NormAll(items))
    case _ => false
  }

  function LeafCondition(q: Query): Condition
    requires IsLeafQuery(q)
  {
    match q
    case Test(attr, op, arg) => Leaf(attr, Key(op), Norm(arg))
    case Present(attr) => Leaf(attr, "pr", "")
    case OneOf(attr, items) => Leaf(attr, "in", Join(NormAll(items), ", "))
  }

  /** How a query reads back, told from its structure alone:
      - a leaf whose attribute holds a joining word is unreadable, and one with an exposed parenthesis makes the
        parser run for ever;
      - the negation of a list leaf reads as one `notin` leaf;
      - any other negation is what `Negate` makes of its operand, and never ends when that is unreadable;
      - a chain reads part by part, up to the first that fails. */
  function Reread(h: Host, q: Query): Parsed
    decreases q, 1
  {
    match q
    case Negation(OneOf(attr, items)) => Read(Leaf(attr, "notin", Join(NormAll(items), ", ")))
    case Negation(query) =>
      (match Reread(h, query)
       case Read(c) => Read(Negate(c))
       case _ => Stuck)
    case Chain(join, parts) =>
      (match RereadAll(h, parts)
       case Failed(why) => why
       case ReadAll(cs) => Read(Group(join, cs)))
    case _ =>
      if !JoinFree(h, false, q.attr) then Unreadable
      else if Exposed(q) then Stuck
      else Read(LeafCondition(q))
  }

  function RereadAll(h: Host, qs: seq<Query>): ParsedAll
    decreases qs, 0
  {
    if qs == [] then ReadAll([]) else
    match Reread(h, qs[0])
    case Unreadable => Failed(Unreadable)
    case Stuck => Failed(Stuck)
    case Read(c) =>
      match RereadAll(h, qs[1..])
      case Failed(why) => Failed(why)
      case ReadAll(cs) => ReadAll([c] + cs)
  }

  // ---------------------------------------------------------------- leaves

  lemma {:induction false} TokensSpace(current: string, rest: string)
    requires current != ""
    ensures TokensFrom(current, Plain, 0, " " + rest) == [current] + Tokens(rest)
  {
    TakeDrop(" ", rest);
  }

  /** A bare word, a space and the rest: the word is one token. */
  lemma {:induction false} TokensWord(word: string, rest: string)
    requires word != "" && IsBare(word)
    ensures Tokens(word + " " + rest) == [word] + Tokens(rest)
  {
    Concat3(word, " ", rest);
    TokensBare("", 0, word, " " + rest);
    assert "" + word == word;
    TokensSpace(word, rest);
  }

  lemma {:induction false} TokensOne(h: Host, s: string)
    requires TokensFrom("", Plain, 0, s + "") == TokensFrom("" + s, Plain, 0, "") && s != ""
    ensures Tokens(s) == [s]
  {
    assert s + "" == s && "" + s == s;
  }

  lemma {:induction false} TokensPair(word: string, arg: string)
    requires word != "" && IsBare(word) && Tokens(arg) == [arg]
    ensures Tokens(word + " " + arg) == [word, arg]
  {
    TokensWord(word, arg);
  }

  lemma {:induction false} TokensLiteral(h: Host, op: Operator, arg: string)
    ensures Tokens(FormatValue(h, arg, op)) == [FormatValue(h, arg, op)]
  {
    TokensFormat(h, arg, op, "", 0, "");
    FormatTrimmed(h, arg, op);
    TokensOne(h, FormatValue(h, arg, op));
  }

  lemma {:induction false} TokensTest(h: Host, op: Operator, arg: string)
    ensures Tokens(Key(op) + " " + FormatValue(h, arg, op)) == [Key(op), FormatValue(h, arg, op)]
  {
    hide TokensFrom, Tokens, FormatValue;
    TokensLiteral(h, op, arg);
    TokensPair(Key(op), FormatValue(h, arg, op));
  }

  lemma {:induction false} TokensIn(h: Host, items: seq<string>)
    ensures Tokens("in " + ListText(h, items)) == ["in", ListText(h, items)]
  {
    TokensList(h, items, "", "");
    TokensOne(h, ListText(h, items));
    TokensPair("in", ListText(h, items));
    assert "in" + " " == "in ";
  }

  lemma {:induction false} TokensPr()
    ensures Tokens("pr") == ["pr"]
  {
    TokensBare("", 0, "pr", "");
    assert "pr" + "" == "pr" && "" + "pr" == "pr";
  }

  lemma {:induction false} TokensTail(h: Host, q: Query)
    requires IsLeafQuery(q)
    ensures Tokens(Tail(h, q)) == match q
      case Test(_, op, arg) => [Key(op), FormatValue(h, arg, op)]
      case Present(_) => ["pr"]
      case OneOf(_, items) => ["in", ListText(h, items)]
  {
    match q {
      case Test(_, op, arg) => TokensTest(h, op, arg);
      case Present(_) => TokensPr();
      case OneOf(_, items) => TokensIn(h, items);
    }
  }

  lemma {:induction false} KeyIsBareword(h: Host, key: string)
    requires IsBare(key) && 2 <= |key| && 'a' <= key[0] <= 'z' && key[0] != 'a' && key[0] != 'o'
    requires forall i | 0 <= i < |key| :: IsWordRune(h, key[i])
    ensures IsBareword(h, key)
  {
    assert key + "" == key;
    WordLongest(h, key, "");
    assert key[|key|..] == "";
    assert ToLower(key)[0] == key[0];
  }

  lemma {:induction false} PiecesSpace(h: Host, rest: string)
    ensures PiecesFrom(h, false, Plain, 0, " " + rest) == Glue(" ", PiecesFrom(h, false, Plain, 0, rest))
  {
    TakeDrop(" ", rest);
  }

  lemma {:induction false} PiecesWord(h: Host, word: string, rest: string)
    requires IsBare(word) && JoinFree(h, false, word)
    ensures PiecesFrom(h, false, Plain, 0, word + " " + rest)
         == Glue(word + " ", PiecesFrom(h, false, Plain, 0, rest))
  {
    Concat3(word, " ", rest);
    PiecesBare(h, false, word, " " + rest);
    PiecesSpace(h, rest);
    GlueGlue(word, " ", PiecesFrom(h, false, Plain, 0, rest));
  }

  lemma {:induction false} PiecesNothing(h: Host)
    ensures PiecesFrom(h, false, Plain, 0, "") == Some(Pieces([""], []))
  {
  }

  lemma {:induction false} WholePiece(s: string)
    ensures Glue(s, Some(Pieces([""], []))) == Some(Pieces([s], []))
  {
    assert s + "" == s && [""][1..] == [] && [s] + [] == [s];
  }

  lemma {:induction false} PiecesPair(h: Host, word: string, arg: string)
    requires IsBare(word) && JoinFree(h, false, word)
    requires PiecesFrom(h, false, Plain, 0, arg) == Some(Pieces([arg], []))
    ensures PiecesFrom(h, false, Plain, 0, word + " " + arg) == Some(Pieces([word + " " + arg], []))
  {
    PiecesWord(h, word, arg);
    assert [arg][1..] == [] && [word + " " + arg] + [] == [word + " " + arg];
  }

  lemma {:induction false} KeyBareword(h: Host, op: Operator)
    ensures IsBareword(h, Key(op))
  {
    KeyIsBareword(h, Key(op));
  }

  lemma {:induction false} PiecesTest(h: Host, op: Operator, arg: string)
    ensures var t := Key(op) + " " + FormatValue(h, arg, op);
            PiecesFrom(h, false, Plain, 0, t) == Some(Pieces([t], []))
  {
    hide PiecesFrom, FormatValue, JoinFree, Key;
    var lit := FormatValue(h, arg, op);
    KeyBareword(h, op);
    PiecesFormat(h, arg, op, "");
    PiecesNothing(h);
    WholePiece(lit);
    assert lit + "" == lit;
    PiecesPair(h, Key(op), lit);
  }

  lemma {:induction false} PiecesIn(h: Host, items: seq<string>)
    ensures var t := "in " + ListText(h, items);
            PiecesFrom(h, false, Plain, 0, t) == Some(Pieces([t], []))
  {
    var list := ListText(h, items);
    KeyIsBareword(h, "in");
    PiecesList(h, items, "");
    WholePiece(list);
    assert list + "" == list && "in" + " " == "in ";
    PiecesPair(h, "in", list);
  }

  lemma {:induction false} PiecesPr(h: Host)
    ensures PiecesFrom(h, false, Plain, 0, "pr") == Some(Pieces(["pr"], []))
  {
    KeyIsBareword(h, "pr");
    PiecesBare(h, false, "pr", "");
    WholePiece("pr");
    assert "pr" + "" == "pr";
  }

  /** A leaf after its attribute is a single piece. */
  lemma {:induction false} PiecesTail(h: Host, q: Query)
    requires IsLeafQuery(q)
    ensures PiecesFrom(h, false, Plain, 0, Tail(h, q)) == Some(Pieces([Tail(h, q)], []))
  {
    match q {
      case Test(_, op, arg) => PiecesTest(h, op, arg);
      case Present(_) => PiecesPr(h);
      case OneOf(_, items) => PiecesIn(h, items);
    }
  }

  lemma {:induction false} HasParensBare(s: string)
    requires IsBare(s)
    ensures !HasParens(s)
  {
  }

  lemma {:induction false} ExposedTail(h: Host, q: Query)
    requires IsLeafQuery(q)
    ensures HasParens(Tail(h, q)) == Exposed(q)
  {
    hide FormatValue, Norm, ListText, NormAll, AnyHasParens;
    match q {
      case Test(_, op, arg) =>
        HasParensBare(Key(op));
        HasParensFormat(h, arg, op);
        HasParensConcat(Key(op), " ");
        HasParensConcat(Key(op) + " ", FormatValue(h, arg, op));
      case Present(_) =>
      case OneOf(_, items) =>
        HasParensList(h, items);
        HasParensConcat("in ", ListText(h, items));
    }
  }

  lemma {:induction false} SingleGroup(h: Host, s: string)
    requires PiecesFrom(h, false, Plain, 0, s) == Some(Pieces([s], []))
    requires s != "" && Trimmed(s)
    ensures SplitTopLevel(h, s) == Some(TopLevel([s], []))
  {
    assert TrimAll([s])[0] == s;
  }

  /** On a text that is its own single group, `parseExpr` comes down to `parseLeaf`. */
  lemma {:induction false} ParseSingle(h: Host, s: string)
    requires StripOuter(Trim(s)) == s && s != "" && Trimmed(s)
    requires PiecesFrom(h, false, Plain, 0, s) == Some(Pieces([s], []))
    requires ParseNegated(h, s) == Unreadable
    ensures ParseExpr(h, s) == if HasParens(s) then Stuck else ReadTokens(Tokens(s))
  {
    SingleGroup(h, s);
  }

  lemma {:induction false} TailTokens(h: Host, q: Query)
    requires IsLeafQuery(q)
    ensures var tokens := Tokens(Tail(h, q)); ReadTokens(tokens) == Unreadable && !IsInList(tokens)
  {
    TokensTail(h, q);
    match q {
      case Test(_, op, arg) => FormatNotOperator(h, arg, op);
      case Present(_) =>
      case OneOf(_, items) =>
        var list := ListText(h, items);
        if LookupOperator(list).Some? {
          OperatorKeys(list);
          assert false;
        }
    }
  }

  /** What follows the attribute `not` never reads as a condition by itself. */
  lemma {:induction false} ParseTail(h: Host, q: Query)
    requires IsLeafQuery(q) && WellFormed(q)
    ensures ParseExpr(h, Tail(h, q)) == if Exposed(q) then Stuck else Unreadable
  {
    var t := Tail(h, q);
    TailEnds(h, q);
    PiecesTail(h, q);
    TailTokens(h, q);
    ExposedTail(h, q);
    assert StripOuter(Trim(t)) == t;
    ParseSingle(h, t);
  }

  lemma {:induction false} NotPrefix(h: Host, attr: string, tail: string)
    requires IsAttribute(attr) && StartsWithNot(attr + " " + tail)
    ensures (attr + " " + tail)[3..] == " " + tail
  {
    var s := attr + " " + tail;
    var n := |attr|;
    assert s[n] == ' ';
    if n < 3 {
      assert false;
    } else if n > 3 {
      assert false;
    }
  }

  /** An attribute may be called `not`: the parser tries a negation first, and falls back to the leaf. */
  lemma {:induction false} ParseNegatedLeaf(h: Host, q: Query)
    requires IsLeafQuery(q) && WellFormed(q)
    ensures ParseNegated(h, Body(h, q)) == Unreadable || (Exposed(q) && ParseNegated(h, Body(h, q)) == Stuck)
  {
    hide TokensFrom, Tokens, FormatValue, PiecesFrom, Tail;
    var b, t := Body(h, q), Tail(h, q);
    if StartsWithNot(b) {
      NotPrefix(h, q.attr, t);
      TailEnds(h, q);
      TrimPadded(" ", t, "");
      assert " " + t + "" == " " + t;
      assert StripOuter(t) == t;
      ParseTail(h, q);
      TailTokens(h, q);
    }
  }

  lemma {:induction false} ReadThree(attr: string, op: Operator, arg: string)
    requires Arity(op) != 0
    ensures ReadTokens([attr, Key(op), arg])
         == Read(Leaf(attr, Key(op), if Arity(op) == 2 then UnformatList(arg) else Unquote(arg)))
  {
    LookupKey(op);
  }

  lemma {:induction false} ReadTest(h: Host, attr: string, op: Operator, arg: string)
    requires IsAttribute(attr) && Arity(op) == 1
    ensures ReadTokens(Tokens(attr + " " + (Key(op) + " " + FormatValue(h, arg, op))))
         == Read(Leaf(attr, Key(op), Norm(arg)))
  {
    var lit := FormatValue(h, arg, op);
    TokensWord(attr, Key(op) + " " + lit);
    TokensTest(h, op, arg);
    ReadThree(attr, op, lit);
    UnquoteFormat(h, arg, op);
    assert [attr] + [Key(op), lit] == [attr, Key(op), lit];
  }

  lemma {:induction false} ReadIn(h: Host, attr: string, items: seq<string>)
    requires IsAttribute(attr) && AreItems(items)
    ensures ReadTokens(Tokens(attr + " " + ("in " + ListText(h, items))))
         == Read(Leaf(attr, "in", Join(NormAll(items), ", ")))
  {
    var list := ListText(h, items);
    TokensWord(attr, "in " + list);
    TokensIn(h, items);
    ReadThree(attr, In, list);
    UnformatListText(h, items);
    assert [attr] + ["in", list] == [attr, "in", list];
  }

  lemma {:induction false} ReadTwo(attr: string)
    ensures ReadTokens([attr, "pr"]) == Read(Leaf(attr, "pr", ""))
  {
    hide LookupOperator, UnformatList, Unquote;
    assert Key(Pr) == "pr";
    LookupKey(Pr);
  }

  lemma {:induction false} ReadPr(attr: string)
    requires IsAttribute(attr)
    ensures ReadTokens(Tokens(attr + " " + "pr")) == Read(Leaf(attr, "pr", ""))
  {
    TokensWord(attr, "pr");
    TokensPr();
    ReadTwo(attr);
    assert [attr] + ["pr"] == [attr, "pr"];
  }

  lemma {:induction false} ReadLeaf(h: Host, q: Query)
    requires IsLeafQuery(q) && WellFormed(q)
    ensures ReadTokens(Tokens(Body(h, q))) == Read(LeafCondition(q))
  {
    match q {
      case Test(attr, op, arg) => ReadTest(h, attr, op, arg);
      case Present(attr) => ReadPr(attr);
      case OneOf(attr, items) => ReadIn(h, attr, items);
    }
  }

  lemma {:induction false} ParseBare(h: Host, s: string)
    requires IsBare(s)
    ensures ParseExpr(h, s) == Unreadable
    decreases |s|
  {
    assert StripOuter(Trim(s)) == s;
    assert !StartsWithNot(s);
    BareTokens(s);
    var split := SplitTopLevel(h, s);
    if split.Some? {
      var groups := split.value.groups;
      SplitShorter(h, s);
      BareGroup(h, s);
      if |groups| == 1 {
        BareTokens(groups[0]);
      } else {
        ParseBare(h, groups[0]);
        assert ParseAll(h, groups, |s|) == Failed(Unreadable);
      }
    }
  }

  lemma {:induction false} BareTokens(s: string)
    requires IsBare(s)
    ensures |Tokens(s)| <= 1 && !HasParens(s)
  {
    TokensBare("", 0, s, "");
    assert s + "" == s;
  }

  lemma {:induction false} BareGroup(h: Host, s: string)
    requires IsBare(s) && SplitTopLevel(h, s).Some?
    ensures IsBare(SplitTopLevel(h, s).value.groups[0])
    ensures var g := SplitTopLevel(h, s).value.groups[0]; StripOuter(Trim(g)) == g
  {
    assert s + "" == s;
    var p := PiecesFrom(h, false, Plain, 0, s);
    if JoinFree(h, false, s) {
      PiecesBare(h, false, s, "");
      WholePiece(s);
    } else {
      PiecesBareCut(h, false, s, "");
    }
    assert IsBare(p.value.raw[0]);
    assert Trim(p.value.raw[0]) == p.value.raw[0];
  }

  /** A leaf whose attribute holds a joining word is cut there, and its first piece is no condition. */
  lemma {:induction false} ParseCutLeaf(h: Host, q: Query)
    requires IsLeafQuery(q) && WellFormed(q) && !JoinFree(h, false, q.attr)
    ensures ParseNegated(h, Body(h, q)) == Unreadable ==> ParseExpr(h, Body(h, q)) == Unreadable
  {
    hide FormatValue, Tail, TokensFrom, NestAll, StripOuter;
    var b := Body(h, q);
    StripPrinted(h, q);
    Concat3(q.attr, " ", Tail(h, q));
    PiecesBareCut(h, false, q.attr, " " + Tail(h, q));
    var p := PiecesFrom(h, false, Plain, 0, b);
    if p.Some? {
      var g := Trim(p.value.raw[0]);
      assert g == p.value.raw[0];
      ParseBare(h, g);
      SplitShorter(h, b);
    }
  }

  lemma {:induction false} PiecesLeafBody(h: Host, q: Query)
    requires IsLeafQuery(q) && WellFormed(q) && JoinFree(h, false, q.attr)
    ensures PiecesFrom(h, false, Plain, 0, Body(h, q)) == Some(Pieces([Body(h, q)], []))
  {
    PiecesTail(h, q);
    PiecesPair(h, q.attr, Tail(h, q));
  }

  lemma {:induction false} ExposedBody(h: Host, q: Query)
    requires IsLeafQuery(q) && WellFormed(q)
    ensures HasParens(Body(h, q)) == Exposed(q)
  {
    ExposedTail(h, q);
    HasParensBare(q.attr);
    HasParensConcat(q.attr, " ");
    HasParensConcat(q.attr + " ", Tail(h, q));
  }

  /** `parseExpr` looks only at what is left when spaces and outer parentheses are gone. */
  lemma {:induction false} ParseStripped(h: Host, s: string, t: string)
    requires StripOuter(Trim(s)) == t && StripOuter(Trim(t)) == t
    ensures ParseExpr(h, s) == ParseExpr(h, t)
  {
    hide Trim, StripOuter, ParseNegated, SplitTopLevel, ParseLeaf, ParseAll;
  }

  lemma {:induction false} ParseLeafBody(h: Host, q: Query)
    requires IsLeafQuery(q) && WellFormed(q)
    ensures ParseExpr(h, Body(h, q)) == Reread(h, q)
  {
    var b := Body(h, q);
    StripPrinted(h, q);
    BodyEnds(h, q);
    ParseNegatedLeaf(h, q);
    if !JoinFree(h, false, q.attr) {
      if ParseNegated(h, b) == Unreadable {
        ParseCutLeaf(h, q);
      } else {
        NotIsJoinFree(h, q);
        assert false;
      }
    } else if ParseNegated(h, b) == Unreadable {
      PiecesLeafBody(h, q);
      ParseSingle(h, b);
      ExposedBody(h, q);
      ReadLeaf(h, q);
    }
  }

  lemma {:induction false} NotHasNoJoinLetters(s: string)
    requires |s| == 3 && StartsWithNot(s + " ")
    ensures forall i | 0 <= i < |s| :: Lower(s[i]) != 'r' && Lower(s[i]) != 'd'
  {
  }

  /** The word `not` is not a joining word. */
  lemma {:induction false} NotIsJoinFree(h: Host, q: Query)
    requires IsLeafQuery(q) && WellFormed(q) && StartsWithNot(Body(h, q))
    ensures JoinFree(h, false, q.attr)
  {
    hide Tail, IsBare, JoinFree, Lower;
    var attr, tail := q.attr, Tail(h, q);
    NotPrefix(h, attr, tail);
    assert (attr + " " + tail)[|attr|..] == " " + tail;
    assert |attr| == 3;
    assert (attr + " " + tail)[..3] == attr;
    NotHasNoJoinLetters(attr);
    NoJoinLetters(h, false, attr, 'd');
  }

  // ---------------------------------------------------------------- how many tokens

  lemma {:induction false} FirstToken(current: string, m: Mode, depth: int, s: string)
    requires current != ""
    ensures var tokens := TokensFrom(current, m, depth, s);
            |tokens| >= 1 && tokens[0] != "" && tokens[0][0] == current[0]
    decreases |s|
  {
    if s != "" {
      var c := s[0];
      if m == Plain && !IsQuote(c) && c != '[' && c != ']' && IsSpace(c) && depth == 0 {
      } else {
        var d := if m != Plain then depth else if c == '[' then depth + 1 else if c == ']' then depth - 1 else depth;
        FirstToken(current + [c], NextMode(m, c), d, s[1..]);
      }
    }
  }

  lemma {:induction false} TokensOpen(current: string, body: string, rest: string)
    ensures TokensFrom(current, Plain, 0, "(" + body + ")" + rest)
         == TokensFrom(current + "(", Plain, 0, body + (")" + rest))
  {
    var s := "(" + body + ")" + rest;
    assert s[1..] == body + (")" + rest);
  }

  lemma {:induction false} TokensClose(current: string, rest: string)
    ensures TokensFrom(current, Plain, 0, ")" + rest) == TokensFrom(current + ")", Plain, 0, rest)
  {
    TakeDrop(")", rest);
  }

  lemma {:induction false} TokensWordThen(word: string, arg: string, rest: string)
    requires word != "" && IsBare(word)
    requires TokensFrom("", Plain, 0, arg + rest) == TokensFrom("" + arg, Plain, 0, rest)
    ensures Tokens(word + " " + arg + rest) == [word] + TokensFrom(arg, Plain, 0, rest)
  {
    Concat3(word + " ", arg, rest);
    TokensWord(word, arg + rest);
    assert "" + arg == arg;
  }

  lemma {:induction false} KeyIsBare(op: Operator)
    ensures Key(op) != "" && IsBare(Key(op))
  {
  }

  lemma {:induction false} JoinIsBare(join: string)
    requires join == "and" || join == "or"
    ensures join != "" && IsBare(join)
  {
  }

  lemma {:induction false} TokensAcrossTest(h: Host, op: Operator, arg: string, rest: string)
    ensures var lit := FormatValue(h, arg, op);
            Tokens(Key(op) + " " + lit + rest) == [Key(op)] + TokensFrom(lit, Plain, 0, rest)
  {
    KeyIsBare(op);
    TokensFormat(h, arg, op, "", 0, rest);
    TokensWordThen(Key(op), FormatValue(h, arg, op), rest);
  }

  lemma {:induction false} TokensAcrossIn(h: Host, items: seq<string>, rest: string)
    ensures var list := ListText(h, items);
            Tokens("in " + list + rest) == ["in"] + TokensFrom(list, Plain, 0, rest)
  {
    var list := ListText(h, items);
    Concat3("in ", list, rest);
    assert "in" + " " == "in ";
    TokensWord("in", list + rest);
    TokensList(h, items, "", rest);
    assert "" + list == list;
  }

  lemma {:induction false} TokensAcrossTail(h: Host, q: Query, rest: string) returns (ts: seq<string>, last: string)
    requires IsLeafQuery(q)
    ensures Tokens(Tail(h, q) + rest) == ts + TokensFrom(last, Plain, 0, rest)
    ensures last != ""
  {
    match q {
      case Test(_, op, arg) =>
        TokensAcrossTest(h, op, arg, rest);
        FormatTrimmed(h, arg, op);
        ts, last := [Key(op)], FormatValue(h, arg, op);
      case Present(_) =>
        TokensBare("", 0, "pr", rest);
        assert "" + "pr" == "pr";
        ts, last := [], "pr";
      case OneOf(_, items) =>
        TokensAcrossIn(h, items, rest);
        ts, last := ["in"], ListText(h, items);
    }
  }

  /** A printed leaf ends at least one token and leaves another one open. */
  lemma {:induction false} TokensAcrossLeaf(h: Host, q: Query, current: string,
                                            rest: string) returns (ts: seq<string>, last: string)
    requires IsLeafQuery(q) && WellFormed(q)
    ensures TokensFrom(current, Plain, 0, Body(h, q) + rest) == ts + TokensFrom(last, Plain, 0, rest)
    ensures |ts| >= 1 && last != ""
  {
    var attr, tail := q.attr, Tail(h, q);
    Concat4(attr, " ", tail, rest);
    TokensBare(current, 0, attr, " " + (tail + rest));
    TokensSpace(current + attr, tail + rest);
    var more, final := TokensAcrossTail(h, q, rest);
    ts, last := [current + attr] + more, final;
    Concat3([current + attr], more, TokensFrom(last, Plain, 0, rest));
  }

  lemma {:induction false} TokensAcross(h: Host, q: Query, current: string, rest: string)
    returns (ts: seq<string>, last: string)
    requires WellFormed(q)
    ensures TokensFrom(current, Plain, 0, Text(h, q) + rest) == ts + TokensFrom(last, Plain, 0, rest)
    ensures |ts| >= 1 && last != ""
    decreases q, 1
  {
    var body := Body(h, q);
    TokensOpen(current, body, rest);
    var inner: string;
    match q {
      case Negation(query) =>
        ts, inner := TokensAcrossNegation(h, query, current + "(", ")" + rest);
      case Chain(join, parts) =>
        ts, inner := TokensAcrossChain(h, join, parts, current + "(", ")" + rest);
      case _ =>
        ts, inner := TokensAcrossLeaf(h, q, current + "(", ")" + rest);
    }
    TokensClose(inner, rest);
    last := inner + ")";
  }

  lemma {:induction false} TokensAcrossNegation(h: Host, q: Query, current: string, rest: string)
    returns (ts: seq<string>, last: string)
    requires WellFormed(q)
    ensures TokensFrom(current, Plain, 0, "not " + Text(h, q) + rest) == ts + TokensFrom(last, Plain, 0, rest)
    ensures |ts| >= 2 && last != ""
    decreases q, 2
  {
    var text := Text(h, q);
    Concat4("not", " ", text, rest);
    assert "not" + " " == "not ";
    TokensBare(current, 0, "not", " " + (text + rest));
    TokensSpace(current + "not", text + rest);
    var more, final := TokensAcross(h, q, "", rest);
    ts, last := [current + "not"] + more, final;
    Concat3([current + "not"], more, TokensFrom(last, Plain, 0, rest));
  }

  lemma {:induction false} TokensAcrossChain(h: Host, join: string, parts: seq<Query>, current: string, rest: string)
    returns (ts: seq<string>, last: string)
    requires (join == "and" || join == "or") && parts != []
    requires forall i | 0 <= i < |parts| :: WellFormed(parts[i])
    ensures TokensFrom(current, Plain, 0, Join(Texts(h, parts), " " + join + " ") + rest)
         == ts + TokensFrom(last, Plain, 0, rest)
    ensures |ts| >= 3 * |parts| - 2 && last != ""
    decreases parts, 2
  {
    var text := Text(h, parts[0]);
    ChainStep(h, join, parts);
    if |parts| == 1 {
      ts, last := TokensAcross(h, parts[0], current, rest);
    } else {
      var more := Join(Texts(h, parts[1..]), " " + join + " ");
      var first, open := TokensAcross(h, parts[0], current, " " + (join + " " + (more + rest)));
      JoinIsBare(join);
      TokensChainStep(current, text, join, more, rest, first, open);
      var others, final := TokensAcrossChain(h, join, parts[1..], "", rest);
      ts, last := first + [open, join] + others, final;
      Regroup(first, open, join, others, TokensFrom(last, Plain, 0, rest));
    }
  }

  lemma {:induction false} TokensChainStep(current: string, text: string, join: string, more: string, rest: string,
                        first: seq<string>, open: string)
    requires open != "" && join != "" && IsBare(join)
    requires var follow := " " + (join + " " + (more + rest));
             TokensFrom(current, Plain, 0, text + follow) == first + TokensFrom(open, Plain, 0, follow)
    ensures TokensFrom(current, Plain, 0, text + (" " + join + " ") + more + rest)
         == first + ([open] + ([join] + Tokens(more + rest)))
  {
    ChainRest(text, join, more, rest);
    TokensSpace(open, join + " " + (more + rest));
    TokensWord(join, more + rest);
  }

  lemma {:induction false} Regroup(first: seq<string>, open: string, join: string, others: seq<string>,
                                   tail: seq<string>)
    ensures first + ([open] + ([join] + (others + tail))) == first + [open, join] + others + tail
  {
  }

  lemma {:induction false} ChainRest(text: string, join: string, more: string, rest: string)
    ensures text + (" " + join + " ") + more + rest == text + (" " + (join + " " + (more + rest)))
  {
    assert " " + join + " " + more + rest == " " + (join + " " + (more + rest));
    Concat4(text, " " + join + " ", more, rest);
    Concat3(" " + join + " ", more, rest);
    Concat3(" ", join + " ", more + rest);
    Concat3(" ", join, " ");
  }

  lemma {:induction false} NegationSecondToken(h: Host, q: Query)
    ensures var tokens := Tokens("not " + Text(h, q)); |tokens| >= 2 && tokens[1] != "" && tokens[1][0] == '('
  {
    hide Body, NestAll;
    var body := Body(h, q);
    assert "not" + " " == "not ";
    TokensWord("not", Text(h, q));
    assert Text(h, q) == "(" + body + ")" + "";
    TokensOpen("", body, "");
    assert "" + "(" == "(";
    FirstToken("(", Plain, 0, body + (")" + ""));
  }

  /** Only a list leaf reads as `x in [...]`. */
  lemma {:induction false} NotAnInList(h: Host, q: Query)
    requires WellFormed(q) && !q.OneOf?
    ensures !IsInList(Tokens(Body(h, q)))
  {
    hide TokensFrom, FormatValue, Join, Texts, Text;
    match q {
      case Test(attr, op, arg) =>
        TokensWord(attr, Tail(h, q));
        TokensTest(h, op, arg);
        assert Tokens(Body(h, q))[1] == Key(op);
        LowerKey(op);
      case Present(attr) =>
        TokensWord(attr, "pr");
        TokensPr();
      case Negation(query) =>
        NegationSecondToken(h, query);
        assert ToLower(Tokens(Body(h, q))[1])[0] == '(';
      case Chain(join, parts) =>
        var ts, last := TokensAcrossChain(h, join, parts, "", "");
        assert Body(h, q) + "" == Body(h, q);
    }
  }
}
