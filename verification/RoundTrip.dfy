/** What the parser makes of every printed condition, and what that means. */
module RoundTrip {
  import opened Collections
  import opened Options
  import opened Strings
  import opened Scanner
  import opened Conditions
  import opened Parser
  import opened Literals
  import opened Queries
  import opened Reading

  // ---------------------------------------------------------------- chains

  lemma {:induction false} PiecesOpen(h: Host, body: string, rest: string)
    requires NestAll(OUTSIDE, body) == OUTSIDE
    ensures PiecesFrom(h, false, Plain, 0, "(" + (body + (")" + rest)))
         == Glue("(", Glue(body, PiecesFrom(h, false, Plain, 1, ")" + rest)))
  {
    TakeDrop("(", body + (")" + rest));
    PiecesNested(h, false, Plain, 0, body, ")" + rest);
  }

  lemma {:induction false} PiecesClose(h: Host, rest: string)
    ensures PiecesFrom(h, false, Plain, 1, ")" + rest) == Glue(")", PiecesFrom(h, false, Plain, 0, rest))
  {
    TakeDrop(")", rest);
  }

  /** A parenthesised query is passed over whole. */
  lemma {:induction false} PiecesText(h: Host, q: Query, rest: string)
    requires WellFormed(q)
    ensures PiecesFrom(h, false, Plain, 0, Text(h, q) + rest)
         == Glue(Text(h, q), PiecesFrom(h, false, Plain, 0, rest))
  {
    var body := Body(h, q);
    var tail := PiecesFrom(h, false, Plain, 0, rest);
    NestBody(h, q, 0);
    Concat4("(", body, ")", rest);
    Concat3("(", body, ")");
    PiecesOpen(h, body, rest);
    PiecesClose(h, rest);
    GlueGlue(body, ")", tail);
    GlueGlue("(", body + ")", tail);
  }

  lemma {:induction false} JoinIsWord(h: Host, join: string, rest: string)
    requires join == "and" || join == "or"
    ensures var s := join + " " + rest;
            && Word(h, s) == join && s[|join|..] == " " + rest
            && IsLetter(h, s[0]) && IsJoinWord(join) && ToLower(join) == join
  {
    Concat3(join, " ", rest);
    WordLongest(h, join, " " + rest);
    TakeDrop(join, " " + rest);
    assert ToLower(join) == join;
  }

  /** A joining word between two texts cuts them apart. */
  lemma {:induction false} PiecesJoin(h: Host, join: string, more: string)
    requires join == "and" || join == "or"
    ensures var rest := PiecesFrom(h, false, Plain, 0, " " + more);
            PiecesFrom(h, false, Plain, 0, " " + (join + " " + more)) ==
            if rest == None then None
            else Some(Pieces([" "] + rest.value.raw, [join] + rest.value.words))
  {
    var s := join + " " + more;
    JoinIsWord(h, join, more);
    AfterWordIrrelevant(h, true, 0, " " + more);
    PiecesSpace(h, s);
    var rest := PiecesFrom(h, false, Plain, 0, " " + more);
    if rest.Some? {
      assert " " + "" == " ";
      assert ([""] + rest.value.raw)[1..] == rest.value.raw;
    }
  }

  function Repeated(join: string, n: nat): seq<string> {
    seq(n, _ => join)
  }

  predicate ReadsAsChain(p: Option<Pieces>, texts: seq<string>, join: string) {
    && p.Some? && |texts| >= 1
    && TrimAll(p.value.raw) == texts
    && LowerAll(p.value.words) == Repeated(join, |texts| - 1)
  }

  lemma {:induction false} PiecesChain(h: Host, join: string, parts: seq<Query>, pad: string)
    requires (join == "and" || join == "or") && parts != [] && (pad == "" || pad == " ")
    requires forall i | 0 <= i < |parts| :: WellFormed(parts[i])
    ensures ReadsAsChain(PiecesFrom(h, false, Plain, 0, pad + Join(Texts(h, parts), " " + join + " ")),
                         Texts(h, parts), join)
    decreases |parts|
  {
    ChainStep(h, join, parts);
    if |parts| == 1 {
      ChainLast(h, join, parts[0], pad);
      assert Texts(h, parts) == [Text(h, parts[0])];
    } else {
      var more := Join(Texts(h, parts[1..]), " " + join + " ");
      PiecesChain(h, join, parts[1..], " ");
      ChainFirst(h, join, parts[0], pad, more);
      var rest := PiecesFrom(h, false, Plain, 0, " " + more).value;
      TextTrimmed(h, parts[0]);
      JoinIsWord(h, join, more);
      ChainCons(h, join, Text(h, parts[0]), pad, rest, Texts(h, parts[1..]));
      assert Texts(h, parts) == [Text(h, parts[0])] + Texts(h, parts[1..]);
    }
  }

  lemma {:induction false} ChainLast(h: Host, join: string, q: Query, pad: string)
    requires WellFormed(q) && (pad == "" || pad == " ")
    ensures ReadsAsChain(PiecesFrom(h, false, Plain, 0, pad + Text(h, q)), [Text(h, q)], join)
  {
    hide PiecesFrom, Body, Text, Word, ToLower, Trim, WellFormed, TrimAll, LowerAll, Repeated;
    var first := Text(h, q);
    TextTrimmed(h, q);
    PiecesPadded(h, q, pad, "");
    PiecesNothing(h);
    assert first + "" == first;
    WholePiece(pad + first);
    TrimPadded(pad, first, "");
    assert pad + first + "" == pad + first;
    OneOfEach(pad + first, join);
  }

  lemma {:induction false} OneOfEach(s: string, join: string)
    ensures TrimAll([s]) == [Trim(s)] && LowerAll([]) == Repeated(join, 0)
  {
  }

  lemma {:induction false} RepeatedCons(join: string, n: nat)
    ensures Repeated(join, n + 1) == [join] + Repeated(join, n)
  {
  }

  lemma {:induction false} ChainCons(h: Host, join: string, first: string, pad: string, rest: Pieces,
                                     texts: seq<string>)
    requires ToLower(join) == join && (pad == "" || pad == " ")
    requires first != "" && Trimmed(first)
    requires ReadsAsChain(Some(rest), texts, join)
    ensures ReadsAsChain(Some(Pieces([pad + first + " "] + rest.raw, [join] + rest.words)), [first] + texts, join)
  {
    TrimPadded(pad, first, " ");
    TrimAllCons(pad + first + " ", rest.raw);
    LowerAllCons(join, rest.words);
    RepeatedCons(join, |texts| - 1);
  }

  lemma {:induction false} TrimAllCons(s: string, ss: seq<string>)
    ensures TrimAll([s] + ss) == [Trim(s)] + TrimAll(ss)
  {
    assert ([s] + ss)[1..] == ss;
  }

  lemma {:induction false} LowerAllCons(s: string, ss: seq<string>)
    ensures LowerAll([s] + ss) == [ToLower(s)] + LowerAll(ss)
  {
    assert ([s] + ss)[1..] == ss;
  }

  lemma {:induction false} TextTrimmed(h: Host, q: Query)
    ensures Text(h, q) != "" && Trimmed(Text(h, q))
  {
    var t := Text(h, q);
    assert t[0] == '(' && t[|t| - 1] == ')';
  }

  lemma {:induction false} PiecesPadded(h: Host, q: Query, pad: string, rest: string)
    requires WellFormed(q) && (pad == "" || pad == " ")
    ensures PiecesFrom(h, false, Plain, 0, pad + (Text(h, q) + rest))
         == Glue(pad + Text(h, q), PiecesFrom(h, false, Plain, 0, rest))
  {
    PiecesText(h, q, rest);
    if pad == "" {
      assert pad + (Text(h, q) + rest) == Text(h, q) + rest && pad + Text(h, q) == Text(h, q);
    } else {
      PiecesSpace(h, Text(h, q) + rest);
      GlueGlue(" ", Text(h, q), PiecesFrom(h, false, Plain, 0, rest));
    }
  }

  /** The first part of a chain and the joining word after it. */
  lemma {:induction false} ChainFirst(h: Host, join: string, q: Query, pad: string, more: string)
    requires (join == "and" || join == "or") && WellFormed(q) && (pad == "" || pad == " ")
    requires PiecesFrom(h, false, Plain, 0, " " + more).Some?
    ensures
      var rest := PiecesFrom(h, false, Plain, 0, " " + more).value;
      var whole := pad + (Text(h, q) + (" " + join + " ") + more);
      PiecesFrom(h, false, Plain, 0, whole)
      == Some(Pieces([pad + Text(h, q) + " "] + rest.raw, [join] + rest.words))
  {
    var text := Text(h, q);
    var rest := PiecesFrom(h, false, Plain, 0, " " + more).value;
    Concat3(text, " " + join + " ", more);
    Concat3(" ", join + " ", more);
    Concat3(" ", join, " ");
    PiecesPadded(h, q, pad, " " + (join + " " + more));
    PiecesJoin(h, join, more);
    assert ([" "] + rest.raw)[1..] == rest.raw;
  }

  // ---------------------------------------------------------------- the main theorem

  lemma {:induction false} NotText(t: string)
    requires t != "" && Trimmed(t)
    ensures var b := "not " + t; StartsWithNot(b) && Trim(b[3..]) == t
  {
    var b := "not " + t;
    assert b[..3] == "not" && ToLower("not") == "not" && b[3] == ' ';
    assert b[3..] == " " + t + "";
    TrimPadded(" ", t, "");
  }

  /** What a negation hands on is its operand without its parentheses. */
  lemma {:induction false} NegatedBody(h: Host, q: Query)
    requires WellFormed(q)
    ensures var b := Body(h, Negation(q)); StartsWithNot(b) && StripOuter(Trim(b[3..])) == Body(h, q) != ""
  {
    TextTrimmed(h, q);
    NotText(Text(h, q));
    StripPrinted(h, q);
    BodyEnds(h, q);
  }

  lemma {:induction false} NotIsBareword(h: Host)
    ensures IsBareword(h, "not")
  {
    NoJoinLetters(h, false, "not", 'd');
  }

  lemma {:induction false} PiecesNegation(h: Host, q: Query)
    requires WellFormed(q)
    ensures PiecesFrom(h, false, Plain, 0, "not " + Text(h, q)) == Some(Pieces(["not " + Text(h, q)], []))
  {
    PiecesText(h, q, "");
    assert Text(h, q) + "" == Text(h, q);
    WholePiece(Text(h, q));
    NotIsBareword(h);
    PiecesPair(h, "not", Text(h, q));
    assert "not" + " " == "not ";
  }

  lemma {:induction false} HasParensInside(a: string, rest: string)
    ensures HasParens(a + ("(" + rest))
  {
    assert (a + ("(" + rest))[|a|] == '(';
  }

  lemma {:induction false} HasParensNegation(h: Host, q: Query)
    ensures HasParens(Body(h, Negation(q)))
  {
    HasParensInside("not ", Body(h, q) + ")");
    Concat3("(", Body(h, q), ")");
  }

  /** A negation that cannot be read is one group with a parenthesis in it. */
  lemma {:induction false} NegationIsOneGroup(h: Host, q: Query)
    requires WellFormed(q)
    requires ParseNegated(h, Body(h, Negation(q))) == Unreadable
    ensures ParseExpr(h, Body(h, Negation(q))) == Stuck
  {
    StripPrinted(h, Negation(q));
    BodyEnds(h, Negation(q));
    PiecesNegation(h, q);
    HasParensNegation(h, q);
    ParseSingle(h, Body(h, Negation(q)));
  }

  /** Every printed query reads back exactly as `Reread` says: the same tree, the same refusal, or the same
      endless recursion; with or without its outer parentheses. */
  lemma {:induction false} ParsePrinted(h: Host, q: Query)
    requires WellFormed(q)
    ensures ParseExpr(h, Body(h, q)) == Reread(h, q)
    ensures ParseExpr(h, Text(h, q)) == Reread(h, q)
    decreases q, 1
  {
    StripPrinted(h, q);
    match q {
      case Negation(query) =>
        ParseNegation(h, query);
      case Chain(join, parts) =>
        ParseChain(h, join, parts);
      case _ =>
        ParseLeafBody(h, q);
    }
    ParseStripped(h, Text(h, q), Body(h, q));
  }

  lemma {:induction false} ParseNegatedIn(h: Host, attr: string, items: seq<string>)
    requires WellFormed(OneOf(attr, items))
    ensures var tokens := Tokens(Body(h, OneOf(attr, items)));
            IsInList(tokens) && tokens[0] == attr && UnformatList(tokens[2]) == Join(NormAll(items), ", ")
  {
    var list := ListText(h, items);
    TokensWord(attr, "in " + list);
    TokensIn(h, items);
    assert [attr] + ["in", list] == [attr, "in", list];
    assert ToLower("in") == "in";
    UnformatListText(h, items);
  }

  lemma {:induction false} ParseNegation(h: Host, q: Query)
    requires WellFormed(q)
    ensures ParseExpr(h, Body(h, Negation(q))) == Reread(h, Negation(q))
    decreases q, 2
  {
    hide PiecesFrom, SplitTopLevel, TokensFrom, Tokens, NestAll, Texts, Join, StripOuter, Trim, Body, Text,
         RereadAll, ParseAll, ParseLeaf, IsInList, StartsWithNot, UnformatList, NormAll;
    StripPrinted(h, Negation(q));
    NegatedBody(h, q);
    if q.OneOf? {
      ParseNegatedIn(h, q.attr, q.items);
    } else {
      NotAnInList(h, q);
      ParsePrinted(h, q);
      if Reread(h, q) == Unreadable {
        NegationIsOneGroup(h, q);
      }
    }
  }

  lemma {:induction false} SplitChain(h: Host, join: string, parts: seq<Query>)
    requires WellFormed(Chain(join, parts))
    ensures SplitTopLevel(h, Body(h, Chain(join, parts)))
         == Some(TopLevel(Texts(h, parts), Repeated(join, |parts| - 1)))
  {
    hide PiecesFrom, Join, Text, Trim, LowerAll, TrimAll;
    var b, texts := Body(h, Chain(join, parts)), Texts(h, parts);
    PiecesChain(h, join, parts, "");
    assert "" + b == b;
    forall i | 0 <= i < |texts|
      ensures texts[i] != ""
    {
      TextTrimmed(h, parts[i]);
    }
  }

  lemma {:induction false} ParseChain(h: Host, join: string, parts: seq<Query>)
    requires WellFormed(Chain(join, parts))
    ensures ParseExpr(h, Body(h, Chain(join, parts))) == Reread(h, Chain(join, parts))
    decreases parts, 2
  {
    hide PiecesFrom, SplitTopLevel, TokensFrom, Tokens, NestAll, Texts, Join, StripOuter, Trim, Body, Text,
         RereadAll, ParseAll, ParseLeaf;
    var b := Body(h, Chain(join, parts));
    StripPrinted(h, Chain(join, parts));
    BodyEnds(h, Chain(join, parts));
    assert |b| >= 3 ==> ToLower(b[..3])[0] == '(';
    assert ParseNegated(h, b) == Unreadable;
    SplitChain(h, join, parts);
    SplitShorter(h, b);
    ParseTexts(h, parts, |b|);
  }

  lemma {:induction false} ParseTexts(h: Host, parts: seq<Query>, bound: nat)
    requires forall i | 0 <= i < |parts| :: WellFormed(parts[i])
    requires forall i | 0 <= i < |parts| :: |Texts(h, parts)[i]| < bound
    ensures ParseAll(h, Texts(h, parts), bound) == RereadAll(h, parts)
    decreases parts, 0
  {
    if parts != [] {
      ParsePrinted(h, parts[0]);
      assert Texts(h, parts)[1..] == Texts(h, parts[1..]);
      ParseTexts(h, parts[1..], bound);
    }
  }
}
