/** What `splitTopLevel` and `stripOuterParens` do to any text, and their loops. */
module Splitting {
  import opened Collections
  import opened Options
  import opened Strings
  import opened Scanner
  import opened Conditions
  import opened Parser

  /** Pieces and joining words put back in order. */
  function Weave(raw: seq<string>, words: seq<string>): string
    requires |raw| == |words| + 1
  {
    if words == [] then raw[0] else raw[0] + words[0] + Weave(raw[1..], words[1..])
  }

  lemma {:induction false} WeaveGlue(head: string, raw: seq<string>, words: seq<string>)
    requires |raw| == |words| + 1
    ensures Weave([head + raw[0]] + raw[1..], words) == head + Weave(raw, words)
  {
    var glued := [head + raw[0]] + raw[1..];
    if words != [] {
      assert glued[1..] == raw[1..];
      Concat4(head, raw[0], words[0], Weave(raw[1..], words[1..]));
      Concat3(raw[0], words[0], Weave(raw[1..], words[1..]));
      Concat3(head + raw[0], words[0], Weave(raw[1..], words[1..]));
    }
  }

  /** Every word is a joining word, and every piece closes all the parentheses it opens. */
  predicate CleanCuts(st: Nesting, raw: seq<string>, words: seq<string>) {
    && |raw| == |words| + 1
    && Closed(NestAll(st, raw[0]))
    && (forall i | 1 <= i < |raw| :: Balanced(raw[i]))
    && (forall i | 0 <= i < |words| :: IsJoinWord(words[i]))
  }

  lemma {:induction false} NestWord(h: Host, depth: nat, s: string)
    requires IsWordRunes(h, s)
    ensures NestAll(Nested(Plain, depth), s) == Nested(Plain, depth)
  {
    NestBare(depth, s);
  }

  predicate IsWordRunes(h: Host, s: string) {
    forall i | 0 <= i < |s| :: IsWordRune(h, s[i])
  }

  lemma {:induction false} CleanGlue(st: Nesting, head: string, p: Option<Pieces>)
    requires p.Some? && CleanCuts(NestAll(st, head), p.value.raw, p.value.words)
    ensures var g := Glue(head, p);
            g.Some? && CleanCuts(st, g.value.raw, g.value.words)
            && Weave(g.value.raw, g.value.words) == head + Weave(p.value.raw, p.value.words)
  {
    NestConcat(st, head, p.value.raw[0]);
    WeaveGlue(head, p.value.raw, p.value.words);
  }

  /** Cutting loses nothing, and only cuts where every parenthesis is closed. */
  lemma {:induction false} PiecesClean(h: Host, afterWord: bool, m: Mode, depth: nat, s: string)
    ensures var p := PiecesFrom(h, afterWord, m, depth, s);
            p.Some? ==>
              && CleanCuts(Nested(m, depth), p.value.raw, p.value.words)
              && Weave(p.value.raw, p.value.words) == s
    decreases |s|
  {
    if s == "" {
      assert Balanced("");
    } else if AtWord(h, afterWord, m, depth, s[0]) {
      PiecesCleanWord(h, s);
    } else {
      PiecesCleanStep(h, afterWord, m, depth, s);
    }
  }

  lemma {:induction false} PiecesCleanStep(h: Host, afterWord: bool, m: Mode, depth: nat, s: string)
    requires s != "" && !AtWord(h, afterWord, m, depth, s[0])
    ensures var p := PiecesFrom(h, afterWord, m, depth, s);
            p.Some? ==>
              && CleanCuts(Nested(m, depth), p.value.raw, p.value.words)
              && Weave(p.value.raw, p.value.words) == s
    decreases |s|, 0
  {
    hide PiecesFrom, CleanCuts, Weave, IsWordRune;
    var c := s[0];
    assert s == [c] + s[1..];
    PiecesStep(h, afterWord, m, depth, s);
    var st := Nest(Nested(m, depth), c);
    assert NestAll(Nested(m, depth), [c]) == st;
    if st.Nested? {
      var rest := PiecesFrom(h, IsWordRune(h, c), st.mode, st.depth, s[1..]);
      PiecesClean(h, IsWordRune(h, c), st.mode, st.depth, s[1..]);
      if rest.Some? {
        CleanGlue(Nested(m, depth), [c], rest);
      }
    }
  }

  lemma {:induction false} PiecesCleanWord(h: Host, s: string)
    requires s != "" && IsLetter(h, s[0])
    ensures var p := PiecesFrom(h, false, Plain, 0, s);
            p.Some? ==> CleanCuts(OUTSIDE, p.value.raw, p.value.words) && Weave(p.value.raw, p.value.words) == s
    decreases |s|, 0
  {
    var w := Word(h, s);
    WordIsPrefix(h, s);
    NestWord(h, 0, w);
    var rest := PiecesFrom(h, true, Plain, 0, s[|w|..]);
    PiecesClean(h, true, Plain, 0, s[|w|..]);
    if rest.Some? {
      if !IsJoinWord(w) {
        CleanGlue(OUTSIDE, w, rest);
      } else {
        var raw, words := [""] + rest.value.raw, [w] + rest.value.words;
        assert raw[1..] == rest.value.raw && words[1..] == rest.value.words;
        assert "" + w == w;
        CleanCons(rest.value.raw, rest.value.words, w);
      }
    }
  }

  lemma {:induction false} CleanCons(raw: seq<string>, words: seq<string>, w: string)
    requires CleanCuts(OUTSIDE, raw, words) && IsJoinWord(w)
    ensures CleanCuts(OUTSIDE, [""] + raw, [w] + words)
  {
    forall i | 1 <= i < |raw| + 1
      ensures Balanced(([""] + raw)[i])
    {
      assert ([""] + raw)[i] == raw[i - 1];
    }
  }

  lemma {:induction false} NestSpaces(st: Nesting, s: string)
    requires AllSpace(s) && st.Nested?
    ensures var r := NestAll(st, s); r.Nested? && r.depth == st.depth && (st.mode == Plain ==> r == st)
    decreases |s|
  {
    if s != "" {
      NestSpaces(Nest(st, s[0]), s[1..]);
    }
  }

  lemma {:induction false} BalancedTrim(s: string)
    ensures Balanced(Trim(s)) == Balanced(s)
  {
    var left, right := TrimSplits(s);
    var mid := Trim(s);
    NestSpaces(OUTSIDE, left);
    NestConcat(OUTSIDE, left, mid);
    NestConcat(OUTSIDE, left + mid, right);
    var st := NestAll(OUTSIDE, mid);
    if st.Nested? {
      NestSpaces(st, right);
    } else {
      NestUnbalanced(right);
    }
  }

  /** `splitTopLevel`, for every text it accepts: one more group than joins, no empty group, every group trimmed and
      balanced; and the text is the groups and the joins in order, up to white space around the groups and the case
      of the joining words. */
  lemma {:induction false} SplitTopLevelExact(h: Host, s: string) returns (raw: seq<string>, words: seq<string>)
    requires SplitTopLevel(h, s).Some?
    ensures |raw| == |words| + 1 && Weave(raw, words) == s
    ensures var r := SplitTopLevel(h, s).value;
            && |r.groups| == |raw| && |r.joins| == |words|
            && (forall i | 0 <= i < |raw| :: r.groups[i] == Trim(raw[i]) != "" && Balanced(r.groups[i]))
            && (forall i | 0 <= i < |words| ::
                  r.joins[i] == ToLower(words[i]) && (r.joins[i] == "and" || r.joins[i] == "or"))
  {
    var p := PiecesFrom(h, false, Plain, 0, s).value;
    raw, words := p.raw, p.words;
    PiecesClean(h, false, Plain, 0, s);
    var r := SplitTopLevel(h, s).value;
    forall i | 0 <= i < |raw|
      ensures r.groups[i] == Trim(raw[i]) != "" && Balanced(r.groups[i])
    {
      BalancedTrim(raw[i]);
      assert r.groups[i] in r.groups;
    }
  }

  // ---------------------------------------------------------------- the endless branch

  lemma {:induction false} StripOuterTwice(s: string)
    requires Trimmed(s)
    ensures Trimmed(StripOuter(s)) && StripOuter(Trim(StripOuter(s))) == StripOuter(s)
    decreases |s|
  {
    if |s| >= 2 && s[0] == '(' && s[|s| - 1] == ')' && Balanced(s[1..|s| - 1]) {
      StripOuterTwice(Trim(s[1..|s| - 1]));
    }
  }

  /** When `parseLeaf` hands a group with a parenthesis back to `parseExpr`, it is the very text that `parseExpr`
      was working on, and that text strips to itself: the call repeats for ever. So `Stuck` is exact. */
  lemma {:induction false} SameStringAgain(h: Host, s: string)
    ensures var t := StripOuter(Trim(s));
            && StripOuter(Trim(t)) == t
            && (SplitTopLevel(h, t).Some? && |SplitTopLevel(h, t).value.groups| == 1 ==>
                  StripOuter(Trim(SplitTopLevel(h, t).value.groups[0])) == t)
  {
    var t := StripOuter(Trim(s));
    StripOuterTwice(Trim(s));
    if SplitTopLevel(h, t).Some? && |SplitTopLevel(h, t).value.groups| == 1 {
      var raw, words := SplitTopLevelExact(h, t);
      assert raw[0] == t;
    }
  }

  /** Hence the shorter-string escape of `ParseLeaf` is never taken from `ParseExpr`. */
  lemma {:induction false} LeafBranchIsStuck(h: Host, s: string)
    requires var t := StripOuter(Trim(s));
             && ParseNegated(h, t) == Unreadable
             && SplitTopLevel(h, t).Some? && |SplitTopLevel(h, t).value.groups| == 1
             && HasParens(t)
    ensures ParseExpr(h, s) == Stuck
  {
    SameStringAgain(h, s);
  }

  // ---------------------------------------------------------------- loops

  /** The loop of `stripOuterParens`. */
  method StripOuterParens(s: string) returns (r: string)
    ensures r == StripOuter(s)
  {
    r := s;
    while true
      invariant StripOuter(r) == StripOuter(s)
      decreases |r|
    {
      if !(|r| >= 2 && r[0] == '(' && r[|r| - 1] == ')') {
        return;
      }
      var inside := ScanBalanced(r[1..|r| - 1]);
      if !inside {
        return;
      }
      r := Trim(r[1..|r| - 1]);
    }
  }

  /** What the loop below has gathered, followed by what is still to come. */
  function Gathered(groups: seq<string>, joins: seq<string>, current: string, rest: Option<Pieces>): Option<Pieces> {
    match Glue(current, rest)
    case None => None
    case Some(Pieces(raw, words)) => Some(Pieces(groups + raw, joins + words))
  }

  lemma {:induction false} GatheredMore(groups: seq<string>, joins: seq<string>, current: string, head: string,
                                        rest: Option<Pieces>)
    ensures Gathered(groups, joins, current, Glue(head, rest)) == Gathered(groups, joins, current + head, rest)
  {
    if rest.Some? && rest.value.raw != [] {
      assert current + (head + rest.value.raw[0]) == current + head + rest.value.raw[0];
    }
  }

  lemma {:induction false} GatheredCut(groups: seq<string>, joins: seq<string>, current: string, word: string,
                                       rest: Pieces)
    requires rest.raw != []
    ensures Gathered(groups, joins, current, Some(Pieces([""] + rest.raw, [word] + rest.words)))
         == Gathered(groups + [current], joins + [word], "", Some(rest))
  {
    assert current + "" == current && "" + rest.raw[0] == rest.raw[0];
    assert ([""] + rest.raw)[1..] == rest.raw;
    assert [rest.raw[0]] + rest.raw[1..] == rest.raw;
    assert groups + ([current] + rest.raw) == groups + [current] + rest.raw;
    assert joins + ([word] + rest.words) == joins + [word] + rest.words;
  }

  predicate AfterWord(h: Host, s: string, i: nat)
    requires i <= |s|
  {
    i > 0 && IsWordRune(h, s[i - 1])
  }

  /** The pieces of what is left of `s` at `i`. */
  function PiecesAt(h: Host, s: string, i: nat, m: Mode, depth: nat): Option<Pieces>
    requires i <= |s|
  {
    PiecesFrom(h, AfterWord(h, s, i), m, depth, s[i..])
  }

  lemma {:induction false} StepQuoted(h: Host, s: string, i: nat, m: Mode, depth: nat)
    requires i < |s| && (m.Quoted? || IsQuote(s[i]))
    ensures PiecesAt(h, s, i, m, depth) == Glue([s[i]], PiecesAt(h, s, i + 1, NextMode(m, s[i]), depth))
  {
    assert s[i..][1..] == s[i + 1..];
  }

  lemma {:induction false} StepPlain(h: Host, s: string, i: nat, depth: nat)
    requires i < |s| && !IsQuote(s[i])
    requires !(depth == 0 && IsLetter(h, s[i]) && !AfterWord(h, s, i))
    ensures PiecesAt(h, s, i, Plain, depth) ==
            if s[i] == ')' && depth == 0 then None
            else
              var d := if s[i] == '(' then depth + 1 else if s[i] == ')' then depth - 1 else depth;
              Glue([s[i]], PiecesAt(h, s, i + 1, Plain, d))
  {
    assert s[i..][1..] == s[i + 1..];
  }

  lemma {:induction false} StepWord(h: Host, s: string, i: nat, word: string, next: nat)
    requires i < |s| && IsLetter(h, s[i]) && !AfterWord(h, s, i)
    requires word == Word(h, s[i..]) && next == i + |word| <= |s|
    ensures word != ""
    ensures var rest := PiecesAt(h, s, next, Plain, 0);
            PiecesAt(h, s, i, Plain, 0) ==
            if !IsJoinWord(word) then Glue(word, rest)
            else if rest == None then None
            else Some(Pieces([""] + rest.value.raw, [word] + rest.value.words))
  {
    hide IsJoinWord, Glue;
    assert s[i..][|word|..] == s[next..];
    WordIsPrefix(h, s[i..]);
    assert s[next - 1] == word[|word| - 1];
  }

  /** An escape pair inside quotes. */
  lemma {:induction false} StepEscape(h: Host, s: string, i: nat, q: char, depth: nat)
    requires i + 1 < |s| && s[i] == '\\'
    ensures PiecesAt(h, s, i, Quoted(q, false), depth)
         == Glue([s[i]], Glue([s[i + 1]], PiecesAt(h, s, i + 2, Quoted(q, false), depth)))
  {
    StepQuoted(h, s, i, Quoted(q, false), depth);
    StepQuoted(h, s, i + 1, Quoted(q, true), depth);
  }

  lemma {:induction false} PiecesEnd(h: Host, s: string, m: Mode, n: Mode, depth: nat)
    ensures PiecesAt(h, s, |s|, m, depth) == PiecesAt(h, s, |s|, n, depth)
  {
  }

  lemma {:induction false} LowerAllSnoc(ss: seq<string>, s: string)
    ensures LowerAll(ss + [s]) == LowerAll(ss) + [ToLower(s)]
  {
    var all := LowerAll(ss + [s]);
    assert forall i | 0 <= i < |all| :: all[i] == (LowerAll(ss) + [ToLower(s)])[i];
  }

  lemma {:induction false} GatheredNothing(p: Option<Pieces>)
    requires p.Some? ==> p.value.raw != []
    ensures Gathered([], [], "", p) == p
  {
    if p.Some? {
      var raw, words := p.value.raw, p.value.words;
      assert "" + raw[0] == raw[0];
      assert [] + ([raw[0]] + raw[1..]) == raw && [] + words == words;
    }
  }

  /** Its last loop: every group is trimmed, and none may be empty. */
  method TrimGroups(raw: seq<string>) returns (groups: seq<string>, ok: bool)
    ensures ok <==> "" !in TrimAll(raw)
    ensures ok ==> groups == TrimAll(raw)
  {
    groups := raw;
    var k := 0;
    while k < |groups|
      invariant 0 <= k <= |groups| == |raw|
      invariant forall n | 0 <= n < k :: groups[n] == Trim(raw[n]) != ""
      invariant forall n | k <= n < |groups| :: groups[n] == raw[n]
    {
      groups := groups[k := Trim(groups[k])];
      if groups[k] == "" {
        assert TrimAll(raw)[k] == "";
        return groups, false;
      }
      k := k + 1;
    }
    assert groups == TrimAll(raw);
    ok := true;
  }

  /** The index loop of `splitTopLevel`. */
  method CutTopLevel(h: Host, s: string) returns (groups: seq<string>, joins: seq<string>, ok: bool)
    ensures SplitTopLevel(h, s) == if ok then Some(TopLevel(groups, joins)) else None
  {
    hide PiecesFrom, PiecesAt, Gathered, Word, LowerAll;
    groups, joins := [], [];
    ghost var words := [];
    var depth: int, current, inString := 0, "", '\0';
    var i := 0;
    ghost var whole := PiecesFrom(h, false, Plain, 0, s);
    WholeText(h, s);
    while i < |s|
      invariant 0 <= i <= |s| && depth >= 0
      invariant inString == '\0' || IsQuote(inString)
      invariant joins == LowerAll(words)
      invariant whole == Gathered(groups, words, current, PiecesAt(h, s, i, ModeOf(inString), depth))
    {
      var c := s[i];
      ghost var m, after := ModeOf(inString), i + 1;
      if inString != '\0' {
        if c == '\\' && i + 1 < |s| {
          StepEscape(h, s, i, inString, depth);
          ghost var rest := PiecesAt(h, s, i + 2, m, depth);
          GatheredMore(groups, words, current, [c], Glue([s[i + 1]], rest));
          GatheredMore(groups, words, current + [c], [s[i + 1]], rest);
          current := current + [c];
          i := i + 1;
          current := current + [s[i]];
        } else {
          StepQuoted(h, s, i, m, depth);
          GatheredMore(groups, words, current, [c], PiecesAt(h, s, after, NextMode(m, c), depth));
          current := current + [c];
          if c == inString {
            inString := '\0';
          } else if c == '\\' {
            PiecesEnd(h, s, NextMode(m, c), m, depth);
          }
        }
      } else if IsQuote(c) {
        StepQuoted(h, s, i, m, depth);
        GatheredMore(groups, words, current, [c], PiecesAt(h, s, after, NextMode(m, c), depth));
        inString := c;
        current := current + [c];
      } else if c == '(' {
        StepPlain(h, s, i, depth);
        GatheredMore(groups, words, current, [c], PiecesAt(h, s, after, Plain, depth + 1));
        depth := depth + 1;
        current := current + [c];
      } else if c == ')' {
        StepPlain(h, s, i, depth);
        depth := depth - 1;
        if depth < 0 {
          GatheredNone(groups, words, current);
          return groups, joins, false;
        }
        GatheredMore(groups, words, current, [c], PiecesAt(h, s, after, Plain, depth));
        current := current + [c];
      } else if depth == 0 && IsLetter(h, c) && !(i > 0 && IsWordRune(h, s[i - 1])) {
        var word, next := ReadWord(h, s, i);
        var lower := ToLower(word);
        StepWord(h, s, i, word, next);
        ghost var rest := PiecesAt(h, s, next, Plain, 0);
        if lower == "and" || lower == "or" {
          if rest.Some? {
            RawNotEmpty(h, s, next);
            GatheredCut(groups, words, current, word, rest.value);
          } else {
            GatheredNone(groups, words, current);
            GatheredNone(groups + [current], words + [word], "");
          }
          LowerAllSnoc(words, word);
          joins := joins + [lower];
          words := words + [word];
          groups := groups + [current];
          current := "";
        } else {
          GatheredMore(groups, words, current, word, rest);
          current := current + word;
        }
        i := next - 1;
      } else {
        StepPlain(h, s, i, depth);
        GatheredMore(groups, words, current, [c], PiecesAt(h, s, after, Plain, depth));
        current := current + [c];
      }
      i := i + 1;
    }
    GatheredEnd(h, s, groups, words, current, ModeOf(inString), depth);
    if depth != 0 {
      return groups, joins, false;
    }
    groups := groups + [current];
    groups, ok := TrimGroups(groups);
  }

  lemma {:induction false} GatheredNone(groups: seq<string>, joins: seq<string>, current: string)
    ensures Gathered(groups, joins, current, None) == None
  {
  }

  lemma {:induction false} RawNotEmpty(h: Host, s: string, i: nat)
    requires i <= |s|
    ensures PiecesAt(h, s, i, Plain, 0).Some? ==> PiecesAt(h, s, i, Plain, 0).value.raw != []
  {
  }

  lemma {:induction false} WholeText(h: Host, s: string)
    ensures PiecesFrom(h, false, Plain, 0, s) == Gathered([], [], "", PiecesAt(h, s, 0, Plain, 0))
  {
    assert s[0..] == s;
    GatheredNothing(PiecesFrom(h, false, Plain, 0, s));
  }

  /** At the end of the text only the current group is left to add. */
  lemma {:induction false} GatheredEnd(h: Host, s: string, groups: seq<string>, joins: seq<string>, current: string,
                                       m: Mode, depth: nat)
    ensures Gathered(groups, joins, current, PiecesAt(h, s, |s|, m, depth)) ==
            if depth == 0 then Some(Pieces(groups + [current], joins)) else None
  {
    assert s[|s|..] == "";
    assert current + "" == current && [""][1..] == [] && [current] + [] == [current];
    assert joins + [] == joins;
  }
}
