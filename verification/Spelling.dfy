/** Queries as users spell them: joining words and `not` in any case and with any white space around them
    (internal/goff/condition.go). */
module Spelling {
  import opened Collections
  import opened Options
  import opened Strings
  import opened Scanner
  import opened Conditions
  import opened Parser
  import opened Literals
  import opened Queries
  import opened Reading
  import opened RoundTrip
  import opened Idempotence
  import opened Splitting

  // ---------------------------------------------------------------- joining words

  /** A joining word with what is around it. */
  datatype Link = Link(before: string, word: string, after: string)

  predicate IsLink(l: Link) {
    AllSpace(l.before) && AllSpace(l.after) && IsJoinWord(l.word)
  }

  function LinkText(l: Link): string {
    l.before + (l.word + l.after)
  }

  /** Parenthesised queries with links between them. */
  function Linked(h: Host, parts: seq<Query>, links: seq<Link>): string
    requires |parts| == |links| + 1
  {
    if links == [] then Text(h, parts[0])
    else Text(h, parts[0]) + (LinkText(links[0]) + Linked(h, parts[1..], links[1..]))
  }

  lemma {:induction false} JoinLetter(c: char)
    requires Lower(c) == 'a' || Lower(c) == 'n' || Lower(c) == 'd' || Lower(c) == 'o' || Lower(c) == 'r'
    ensures 'a' <= c <= 'z' || 'A' <= c <= 'Z'
  {
  }

  lemma {:induction false} JoinWordLetters(h: Host, w: string)
    requires IsJoinWord(w)
    ensures w != "" && IsLetter(h, w[0]) && forall i | 0 <= i < |w| :: IsWordRune(h, w[i])
  {
    hide Lower;
    var l := ToLower(w);
    forall i | 0 <= i < |w|
      ensures IsLetter(h, w[i])
    {
      assert l[i] == Lower(w[i]);
      JoinLetter(w[i]);
    }
  }

  /** White space outside words is passed over. */
  lemma {:induction false} PiecesBlank(h: Host, pad: string, rest: string)
    requires AllSpace(pad)
    ensures PiecesFrom(h, false, Plain, 0, pad + rest) == Glue(pad, PiecesFrom(h, false, Plain, 0, rest))
  {
    hide Word, ToLower, Glue;
    if pad == "" {
      assert pad + rest == rest;
      GlueEmpty(PiecesFrom(h, false, Plain, 0, rest));
    } else {
      var c, more := pad[0], pad[1..];
      assert (pad + rest)[0] == c && (pad + rest)[1..] == more + rest;
      PiecesBlank(h, more, rest);
      SpaceIsNothing(h, c);
      GlueGlue([c], more, PiecesFrom(h, false, Plain, 0, rest));
      assert [c] + more == pad;
    }
  }

  lemma {:induction false} SpaceIsNothing(h: Host, c: char)
    requires IsSpace(c)
    ensures !IsQuote(c) && c != '(' && c != ')' && !IsLetter(h, c) && !IsWordRune(h, c)
  {
  }

  /** A link cuts the text, whatever its case and however wide. */
  lemma {:induction false} PiecesLink(h: Host, l: Link, more: string)
    requires IsLink(l) && more != "" && more[0] == '('
    ensures var rest := PiecesFrom(h, false, Plain, 0, more);
            PiecesFrom(h, false, Plain, 0, LinkText(l) + more) ==
            match Glue(l.after, rest)
            case None => None
            case Some(Pieces(raw, words)) => Some(Pieces([l.before] + raw, [l.word] + words))
  {
    hide IsJoinWord, AllSpace, Word, IsWordRune;
    var tail := l.after + more;
    Concat3(l.before, l.word + l.after, more);
    Concat3(l.word, l.after, more);
    PiecesBlank(h, l.before, l.word + tail);
    JoinWordLetters(h, l.word);
    NoWordFollows(h, l.after, more);
    WordLongest(h, l.word, tail);
    TakeDrop(l.word, tail);
    AfterWordIrrelevant(h, true, 0, tail);
    PiecesBlank(h, l.after, more);
    assert (l.word + tail)[0] == l.word[0];
    LetterIsPlain(h, l.word[0]);
    var rest := Glue(l.after, PiecesFrom(h, false, Plain, 0, more));
    if rest.Some? {
      assert l.before + "" == l.before;
      assert ([""] + rest.value.raw)[1..] == rest.value.raw;
    }
  }

  lemma {:induction false} LetterIsPlain(h: Host, c: char)
    requires IsLetter(h, c)
    ensures !IsQuote(c) && c != '(' && c != ')'
  {
  }

  lemma {:induction false} NoWordFollows(h: Host, pad: string, more: string)
    requires AllSpace(pad) && more != "" && more[0] == '('
    ensures !IsWordRune(h, (pad + more)[0])
  {
    if pad != "" {
      SpaceIsNothing(h, pad[0]);
    }
  }

  // ---------------------------------------------------------------- what is cut

  function Words(links: seq<Link>): (r: seq<string>)
    ensures |r| == |links| && forall i | 0 <= i < |links| :: r[i] == links[i].word
  {
    if links == [] then [] else [links[0].word] + Words(links[1..])
  }

  lemma {:induction false} LinkedStarts(h: Host, parts: seq<Query>, links: seq<Link>)
    requires |parts| == |links| + 1
    ensures var s := Linked(h, parts, links); |s| >= 2 && s[0] == '(' && s[|s| - 1] == ')'
    decreases |links|
  {
    hide Text;
    TextEnds(h, parts[0]);
    if links != [] {
      LinkedStarts(h, parts[1..], links[1..]);
      var first, rest := Text(h, parts[0]), Linked(h, parts[1..], links[1..]);
      assert (first + (LinkText(links[0]) + rest))[0] == first[0];
    }
  }

  lemma {:induction false} PiecesLinked(h: Host, pad: string, parts: seq<Query>, links: seq<Link>)
    requires |parts| == |links| + 1 && AllSpace(pad)
    requires forall i | 0 <= i < |parts| :: WellFormed(parts[i])
    requires forall i | 0 <= i < |links| :: IsLink(links[i])
    ensures var p := Glue(pad, PiecesFrom(h, false, Plain, 0, Linked(h, parts, links)));
            p.Some? && TrimAll(p.value.raw) == Texts(h, parts) && p.value.words == Words(links)
    decreases |links|
  {
    hide PiecesFrom, Text, IsLink, AllSpace, Trim, TrimAll, Texts, LinkText;
    var first := Text(h, parts[0]);
    TextsCons(h, parts);
    TextTrimmed(h, parts[0]);
    if links == [] {
      PiecesText(h, parts[0], "");
      assert first + "" == first;
      PiecesNothing(h);
      WholePiece(first);
      assert [first][1..] == [] && [pad + first] + [] == [pad + first];
      OnePiece(h, pad, parts);
    } else {
      var l, rest := links[0], Linked(h, parts[1..], links[1..]);
      LinkedStarts(h, parts[1..], links[1..]);
      LinkSpaces(l);
      PiecesLinked(h, l.after, parts[1..], links[1..]);
      var p := Glue(l.after, PiecesFrom(h, false, Plain, 0, rest)).value;
      PiecesLink(h, l, rest);
      PiecesText(h, parts[0], LinkText(l) + rest);
      assert ([l.before] + p.raw)[1..] == p.raw;
      assert ([first + l.before] + p.raw)[1..] == p.raw;
      Concat3(pad, first, l.before);
      TrimPadded(pad, first, l.before);
      TrimAllCons(pad + first + l.before, p.raw);
    }
  }

  lemma {:induction false} TextsCons(h: Host, parts: seq<Query>)
    requires parts != []
    ensures Texts(h, parts) == [Text(h, parts[0])] + Texts(h, parts[1..])
  {
  }

  lemma {:induction false} OnePiece(h: Host, pad: string, parts: seq<Query>)
    requires |parts| == 1 && AllSpace(pad)
    ensures TrimAll([pad + Text(h, parts[0])]) == Texts(h, parts)
  {
    hide Text, Trim;
    var first := Text(h, parts[0]);
    TextTrimmed(h, parts[0]);
    TrimPadded(pad, first, "");
    assert pad + first + "" == pad + first;
    assert [pad + first][1..] == [] && parts[1..] == [];
    TextsCons(h, parts);
  }

  lemma {:induction false} LinkSpaces(l: Link)
    requires IsLink(l)
    ensures AllSpace(l.before) && AllSpace(l.after)
  {
  }

  lemma {:induction false} SplitLinked(h: Host, parts: seq<Query>, links: seq<Link>)
    requires |parts| == |links| + 1
    requires forall i | 0 <= i < |parts| :: WellFormed(parts[i])
    requires forall i | 0 <= i < |links| :: IsLink(links[i])
    ensures SplitTopLevel(h, Linked(h, parts, links))
         == Some(TopLevel(Texts(h, parts), LowerAll(Words(links))))
  {
    hide PiecesFrom, Text, Trim, LowerAll, TrimAll, IsLink;
    PiecesLinked(h, "", parts, links);
    GlueEmpty(PiecesFrom(h, false, Plain, 0, Linked(h, parts, links)));
    var texts := Texts(h, parts);
    forall i | 0 <= i < |texts|
      ensures texts[i] != ""
    {
      TextTrimmed(h, parts[i]);
    }
  }

  /** The links of a text all say the same. */
  predicate OneWord(links: seq<Link>) {
    forall i | 0 <= i < |links| :: ToLower(links[i].word) == ToLower(links[0].word)
  }

  /** What the parser makes of queries that are linked in any spelling: a group, if all links say the same, and
      otherwise nothing. */
  function RereadLinked(h: Host, parts: seq<Query>, links: seq<Link>): Parsed
    requires links != []
  {
    if !OneWord(links) then Unreadable
    else
      match RereadAll(h, parts)
      case Failed(why) => why
      case ReadAll(cs) => Read(Group(ToLower(links[0].word), cs))
  }

  lemma {:induction false} ParseLinked(h: Host, parts: seq<Query>, links: seq<Link>)
    requires |parts| == |links| + 1 && links != []
    requires forall i | 0 <= i < |parts| :: WellFormed(parts[i])
    requires forall i | 0 <= i < |links| :: IsLink(links[i])
    ensures ParseExpr(h, Linked(h, parts, links)) == RereadLinked(h, parts, links)
  {
    hide PiecesFrom, SplitTopLevel, Texts, StripOuter, Trim, Body, Text, RereadAll, ParseAll, ParseLeaf, IsLink,
         ToLower, Linked, ParseNegated, OneWord, Words, LowerAll;
    var s := Linked(h, parts, links);
    LinkedStarts(h, parts, links);
    NotCalledNot(h, s);
    LinkedKeepsParens(h, parts, links);
    SplitLinked(h, parts, links);
    SplitShorter(h, s);
    JoinsOfLinks(links);
    ParseTexts(h, parts, |s|);
  }

  lemma {:induction false} JoinsOfLinks(links: seq<Link>)
    requires links != []
    ensures var joins := LowerAll(Words(links));
            joins[0] == ToLower(links[0].word)
            && (OneWord(links) <==> !exists i | 0 <= i < |joins| :: joins[i] != joins[0])
  {
    hide ToLower;
    var joins := LowerAll(Words(links));
    assert forall i | 0 <= i < |joins| :: joins[i] == ToLower(links[i].word);
  }

  lemma {:induction false} NotCalledNot(h: Host, s: string)
    requires s != "" && s[0] == '('
    ensures ParseNegated(h, s) == Unreadable
  {
    assert |s| >= 3 ==> ToLower(s[..3])[0] == '(';
  }

  lemma {:induction false} LinkedKeepsParens(h: Host, parts: seq<Query>, links: seq<Link>)
    requires |parts| == |links| + 1 && links != []
    requires forall i | 0 <= i < |parts| :: WellFormed(parts[i])
    requires forall i | 0 <= i < |links| :: IsLink(links[i])
    ensures var s := Linked(h, parts, links); Trim(s) == s && StripOuter(s) == s
  {
    hide Text, Linked, Trim, IsSpace;
    var s := Linked(h, parts, links);
    LinkedStarts(h, parts, links);
    assert Trimmed(s) by {
      ParensNoSpace();
    }
    LinkedUnbalancedInside(h, parts, links);
  }

  lemma {:induction false} ParensNoSpace()
    ensures !IsSpace('(') && !IsSpace(')')
  {
  }

  lemma {:induction false} LinkedCons(h: Host, parts: seq<Query>, links: seq<Link>)
    requires |parts| == |links| + 1 && links != []
    ensures Linked(h, parts, links)
         == ("(" + Body(h, parts[0]) + ")") + (LinkText(links[0]) + Linked(h, parts[1..], links[1..]))
  {
    hide LinkText, Body;
  }

  lemma {:induction false} LinkedUnbalancedInside(h: Host, parts: seq<Query>, links: seq<Link>)
    requires |parts| == |links| + 1 && links != []
    requires forall i | 0 <= i < |parts| :: WellFormed(parts[i])
    ensures var s := Linked(h, parts, links); |s| >= 2 && !Balanced(s[1..|s| - 1])
  {
    hide NestAll, Balanced, Body, Linked;
    var body, sep, more := Body(h, parts[0]), LinkText(links[0]), Linked(h, parts[1..], links[1..]);
    LinkedStarts(h, parts[1..], links[1..]);
    NestBody(h, parts[0], 0);
    CutParens(body, sep, more);
    LinkedCons(h, parts, links);
    Concat3("(" + body + ")", sep, more);
  }

  /** Queries typed one after the other: the white space and the case of the joining words do not matter, and two
      different joining words make the whole a query the builder does not show. */
  lemma {:induction false} ParseTyped(h: Host, lead: string, parts: seq<Query>, links: seq<Link>, trail: string)
    requires |parts| == |links| + 1 && links != [] && AllSpace(lead) && AllSpace(trail)
    requires forall i | 0 <= i < |parts| :: WellFormed(parts[i])
    requires forall i | 0 <= i < |links| :: IsLink(links[i])
    ensures ParseQuery(h, lead + Linked(h, parts, links) + trail) == AsParsedQuery(RereadLinked(h, parts, links))
    ensures !OneWord(links) ==> ParseQuery(h, lead + Linked(h, parts, links) + trail) == ParsedQuery(Nil, false)
  {
    hide Linked, RereadLinked, ParseExpr, IsLink, AllSpace, Trim;
    LinkedStarts(h, parts, links);
    LinkedKeepsParens(h, parts, links);
    assert Trimmed(Linked(h, parts, links));
    TrimPadded(lead, Linked(h, parts, links), trail);
    ParseLinked(h, parts, links);
    if !OneWord(links) {
      RefusedLinks(h, parts, links);
    }
  }

  lemma {:induction false} RefusedLinks(h: Host, parts: seq<Query>, links: seq<Link>)
    requires links != [] && !OneWord(links)
    ensures RereadLinked(h, parts, links) == Unreadable
  {
  }

  /** In particular `(q) and (r) or (t)`. */
  lemma {:induction false} MixedIsRefused(h: Host, q: Query, j: string, r: Query, k: string, t: Query)
    requires WellFormed(q) && WellFormed(r) && WellFormed(t)
    requires (j == "and" || j == "or") && (k == "and" || k == "or") && j != k
    ensures ParseQuery(h, Text(h, q) + (" " + j + " ") + Text(h, r) + (" " + k + " ") + Text(h, t))
         == ParsedQuery(Nil, false)
  {
    hide Text, ParseQuery, WellFormed, IsSpace, RereadLinked;
    var a, b, c := Text(h, q), Text(h, r), Text(h, t);
    var parts, links := [q, r, t], [Link(" ", j, " "), Link(" ", k, " ")];
    PlainLinks(j, k);
    var x, y := " " + j + " ", " " + k + " ";
    assert LinkText(links[0]) == x && LinkText(links[1]) == y by {
      Concat3(" ", j, " ");
      Concat3(" ", k, " ");
    }
    assert parts[1..] == [r, t] && [r, t][1..] == [t] && links[1..] == [links[1]] && [links[1]][1..] == [];
    assert Linked(h, [t], []) == c;
    assert Linked(h, [r, t], [links[1]]) == b + (y + c);
    var s := Linked(h, parts, links);
    assert s == a + (x + (b + (y + c)));
    assert a + x + b + y + c == s by {
      Concat4(a, x, b, y + c);
      Concat3(a + x + b, y, c);
    }
    assert "" + s + "" == s;
    ParseTyped(h, "", parts, links, "");
  }

  lemma {:induction false} PlainLinks(j: string, k: string)
    requires (j == "and" || j == "or") && (k == "and" || k == "or") && j != k
    ensures IsLink(Link(" ", j, " ")) && IsLink(Link(" ", k, " ")) && ToLower(j) == j && ToLower(k) == k
    ensures AllSpace("")
  {
    assert ToLower("and") == "and" && ToLower("or") == "or";
  }

  // ---------------------------------------------------------------- `not`

  predicate IsNot(word: string) {
    ToLower(word) == "not"
  }

  lemma {:induction false} NotWord(h: Host, word: string)
    requires IsNot(word)
    ensures |word| == 3 && word[0] != '(' && !IsSpace(word[0]) && IsBare(word) && JoinFree(h, false, word)
  {
    var l := ToLower(word);
    assert l[0] == 'n' && l[1] == 'o' && l[2] == 't';
    forall i | 0 <= i < 3
      ensures 'a' <= word[i] <= 'z' || 'A' <= word[i] <= 'Z'
    {
      assert l[i] == Lower(word[i]);
    }
    NoJoinLetters(h, false, word, 'd');
  }

  lemma {:induction false} TypedNotStarts(h: Host, word: string, gap: string, t: string)
    requires IsNot(word) && AllSpace(gap) && (gap == "" || gap[0] == ' ')
    requires t != "" && Trimmed(t) && (gap != "" || t[0] == '(')
    ensures var s := word + gap + t;
            StartsWithNot(s) && Trim(s[3..]) == t && StripOuter(Trim(s)) == s
  {
    hide ToLower, Trim, IsSpace;
    var s := word + gap + t;
    NotLetters(word);
    Concat3(word, gap, t);
    TakeDrop(word, gap + t);
    assert s[3..] == gap + t + "";
    TrimPadded(gap, t, "");
    assert s[|s| - 1] == t[|t| - 1] && s[0] == word[0];
    assert Trimmed(s);
    assert s[3] == if gap == "" then t[0] else gap[0];
  }

  lemma {:induction false} NotLetters(word: string)
    requires IsNot(word)
    ensures |word| == 3 && word[0] != '(' && !IsSpace(word[0])
  {
    var l := ToLower(word);
    assert l[0] == 'n' == Lower(word[0]);
  }

  lemma {:induction false} PiecesTypedNot(h: Host, word: string, gap: string, q: Query)
    requires IsNot(word) && AllSpace(gap) && WellFormed(q)
    ensures var s := word + gap + Text(h, q); PiecesFrom(h, false, Plain, 0, s) == Some(Pieces([s], []))
  {
    hide PiecesFrom, Text, ToLower, WellFormed, JoinFree, IsBare;
    var t := Text(h, q);
    TextEnds(h, q);
    NotWord(h, word);
    PiecesText(h, q, "");
    assert t + "" == t;
    PiecesNothing(h);
    WholePiece(t);
    PiecesBlank(h, gap, t);
    NoWordFollows(h, gap, t);
    PiecesBare(h, false, word, gap + t);
    assert [t][1..] == [] && [gap + t][1..] == [];
    assert [gap + t] + [] == [gap + t] && [word + (gap + t)] + [] == [word + (gap + t)];
    Concat3(word, gap, t);
  }

  /** `not`, in any case and with or without a space, and a query in parentheses. */
  lemma {:induction false} ParseTypedNot(h: Host, word: string, gap: string, q: Query)
    requires IsNot(word) && AllSpace(gap) && (gap == "" || gap[0] == ' ') && WellFormed(q)
    ensures ParseExpr(h, word + gap + Text(h, q)) == Reread(h, Negation(q))
  {
    hide PiecesFrom, SplitTopLevel, TokensFrom, Tokens, StripOuter, Trim, Body, Text, ParseAll, ParseLeaf, IsInList,
         StartsWithNot, UnformatList, NormAll, AllSpace, IsNot, IsSpace;
    var s := word + gap + Text(h, q);
    TextEnds(h, q);
    TextTrimmed(h, q);
    TypedNotStarts(h, word, gap, Text(h, q));
    TypedNotTrimmed(word, gap, Text(h, q));
    StripPrinted(h, q);
    BodyEnds(h, q);
    if q.OneOf? {
      ParseNegatedIn(h, q.attr, q.items);
    } else {
      NotAnInList(h, q);
      ParsePrinted(h, q);
      if Reread(h, q) == Unreadable {
        PiecesTypedNot(h, word, gap, q);
        TypedNotParens(h, word, gap, q);
        ParseSingle(h, s);
      }
    }
  }

  lemma {:induction false} TypedNotTrimmed(word: string, gap: string, t: string)
    requires IsNot(word) && t != "" && Trimmed(t)
    ensures var s := word + gap + t; s != "" && Trimmed(s) && Trim(s) == s
  {
    hide IsSpace, ToLower;
    NotLetters(word);
    var s := word + gap + t;
    assert s[0] == word[0] && s[|s| - 1] == t[|t| - 1];
  }

  lemma {:induction false} TypedNotParens(h: Host, word: string, gap: string, q: Query)
    ensures HasParens(word + gap + Text(h, q))
  {
    hide Body;
    HasParensInside(word + gap, Body(h, q) + ")");
    Concat3("(", Body(h, q), ")");
  }

  /** And before a test without parentheses, if it could be read there. */
  lemma {:induction false} ParseTypedNotLeaf(h: Host, word: string, gap: string, q: Query)
    requires IsNot(word) && AllSpace(gap) && gap != "" && gap[0] == ' '
    requires IsLeafQuery(q) && WellFormed(q) && (q.OneOf? || JoinFree(h, false, q.attr))
    ensures ParseExpr(h, word + gap + Body(h, q)) == Reread(h, Negation(q))
  {
    hide PiecesFrom, SplitTopLevel, TokensFrom, Tokens, StripOuter, Trim, Body, Text, ParseAll, ParseLeaf, IsInList,
         StartsWithNot, UnformatList, NormAll, AllSpace, IsNot, IsSpace, JoinFree;
    BodyEnds(h, q);
    TypedNotStarts(h, word, gap, Body(h, q));
    StripPrinted(h, q);
    if q.OneOf? {
      ParseNegatedIn(h, q.attr, q.items);
    } else {
      NotAnInList(h, q);
      ParsePrinted(h, q);
    }
  }

  // ---------------------------------------------------------------- quotes of either kind

  predicate EitherQuote(q: char) {
    q == '"' || q == '\''
  }

  /** A value in quotes `q`, with a backslash before every backslash and every such quote in it. */
  function EscapedBy(q: char, v: string): string {
    if v == "" then ""
    else if v[0] == '\\' || v[0] == q then ['\\', v[0]] + EscapedBy(q, v[1..])
    else [v[0]] + EscapedBy(q, v[1..])
  }

  function QuotedBy(q: char, v: string): string {
    [q] + (EscapedBy(q, v) + [q])
  }

  lemma {:induction false} UnescapeEscapedBy(q: char, v: string)
    requires EitherQuote(q)
    ensures Unescape(EscapedBy(q, v)) == v
  {
    if v != "" {
      UnescapeEscapedBy(q, v[1..]);
      assert v == [v[0]] + v[1..];
      if v[0] == '\\' || v[0] == q {
        assert EscapedBy(q, v)[2..] == EscapedBy(q, v[1..]);
      } else {
        assert EscapedBy(q, v)[1..] == EscapedBy(q, v[1..]);
      }
    }
  }

  /** Unquoting undoes quotes of either kind; text whose quotes do not match, or that has none, stays. */
  lemma {:induction false} UnquoteQuotedBy(q: char, v: string, end: char)
    requires EitherQuote(q)
    ensures Unquote(QuotedBy(q, v)) == v
    ensures end != q && !IsSpace(end) ==> Unquote([q] + (v + [end])) == [q] + (v + [end])
    ensures v != "" && Trimmed(v) && !IsQuote(v[0]) ==> Unquote(v) == v
  {
    hide EscapedBy, Unescape, IsSpace;
    UnescapeEscapedBy(q, v);
    QuoteIsNoSpace(q);
    UnquoteEnds(q, EscapedBy(q, v), q);
    if !IsSpace(end) {
      UnquoteEnds(q, v, end);
    }
  }

  lemma {:induction false} QuoteIsNoSpace(q: char)
    requires EitherQuote(q)
    ensures !IsSpace(q) && IsQuote(q)
  {
  }

  lemma {:induction false} UnquoteEnds(q: char, body: string, end: char)
    requires IsQuote(q) && !IsSpace(q) && !IsSpace(end)
    ensures var s := [q] + (body + [end]); Unquote(s) == if end == q then Unescape(body) else s
  {
    hide Unescape, IsSpace;
    var s := [q] + (body + [end]);
    var n := |body|;
    assert |s| == n + 2;
    assert s[0] == q && s[n + 1] == end;
    assert s[1..n + 1] == body;
  }

  lemma {:induction false} EscapedStaysQuoted(q: char, v: string)
    requires EitherQuote(q)
    ensures StaysQuoted(Quoted(q, false), EscapedBy(q, v))
    ensures ModeAfter(Quoted(q, false), EscapedBy(q, v)) == Quoted(q, false)
  {
    hide StaysQuoted, ModeAfter;
    if v == "" {
      NothingStays(Quoted(q, false));
    } else {
      EscapedStaysQuoted(q, v[1..]);
      var rest := EscapedBy(q, v[1..]);
      if v[0] == '\\' || v[0] == q {
        assert ['\\', v[0]] + rest == ['\\'] + ([v[0]] + rest);
        QuotedStep(Quoted(q, false), '\\', [v[0]] + rest);
        QuotedStep(Quoted(q, true), v[0], rest);
      } else {
        QuotedStep(Quoted(q, false), v[0], rest);
      }
    }
  }

  lemma {:induction false} QuotedByIsOpaque(q: char, v: string)
    requires EitherQuote(q)
    ensures StaysQuoted(Quoted(q, false), EscapedBy(q, v) + [q])
    ensures ModeAfter(Quoted(q, false), EscapedBy(q, v) + [q]) == Plain
  {
    EscapedStaysQuoted(q, v);
    assert [q][1..] == "";
    StaysQuotedConcat(Quoted(q, false), EscapedBy(q, v), [q]);
  }

  lemma {:induction false} QuotedByParens(q: char, v: string)
    requires EitherQuote(q) && !HasParens(v)
    ensures !HasParens(QuotedBy(q, v))
  {
    EscapedParens(q, v);
    HasParensConcat(EscapedBy(q, v), [q]);
    HasParensConcat([q], EscapedBy(q, v) + [q]);
  }

  lemma {:induction false} EscapedParens(q: char, v: string)
    requires EitherQuote(q) && !HasParens(v)
    ensures !HasParens(EscapedBy(q, v))
  {
    if v != "" {
      assert !HasParens(v[1..]) by {
        assert forall i | 0 <= i < |v| - 1 :: v[1..][i] == v[i + 1];
      }
      EscapedParens(q, v[1..]);
      var head := if v[0] == '\\' || v[0] == q then ['\\', v[0]] else [v[0]];
      assert v[0] != '(' && v[0] != ')';
      assert !HasParens(head);
      HasParensConcat(head, EscapedBy(q, v[1..]));
    }
  }

  // ---------------------------------------------------------------- tests

  /** A word as it is typed: as it stands, in quotes of either kind, or a list. */
  datatype Typed = Bare(text: string) | Quoting(q: char, value: string) | Listed(items: seq<string>)

  function Spelt(h: Host, w: Typed): string {
    match w
    case Bare(text) => text
    case Quoting(q, value) => QuotedBy(q, value)
    case Listed(items) => ListText(h, items)
  }

  predicate IsTyped(h: Host, w: Typed) {
    match w
    case Bare(text) => IsBareword(h, text)
    case Quoting(q, value) => EitherQuote(q)
    case Listed(items) => AreItems(items)
  }

  /** A parenthesis in a value is not read there. */
  predicate IsExposed(w: Typed) {
    match w
    case Bare(_) => false
    case Quoting(_, value) => HasParens(value)
    case Listed(items) => AnyHasParens(NormAll(items))
  }

  function Spelts(h: Host, words: seq<Typed>): (r: seq<string>)
    ensures |r| == |words| && forall i | 0 <= i < |words| :: r[i] == Spelt(h, words[i])
  {
    if words == [] then [] else [Spelt(h, words[0])] + Spelts(h, words[1..])
  }

  /** Words with white space between them. */
  function TypedText(h: Host, words: seq<Typed>, gaps: seq<string>): string
    requires |words| == |gaps| + 1
  {
    if gaps == [] then Spelt(h, words[0]) else Spelt(h, words[0]) + (gaps[0] + TypedText(h, words[1..], gaps[1..]))
  }

  predicate AreGaps(gaps: seq<string>) {
    forall i | 0 <= i < |gaps| :: AllSpace(gaps[i]) && gaps[i] != ""
  }

  lemma {:induction false} TokensOfBlank(pad: string, rest: string)
    requires AllSpace(pad)
    ensures Tokens(pad + rest) == Tokens(rest)
  {
    if pad == "" {
      assert pad + rest == rest;
    } else {
      assert (pad + rest)[0] == pad[0] && (pad + rest)[1..] == pad[1..] + rest;
      TokensOfBlank(pad[1..], rest);
      SpaceIsNoBracket(pad[0]);
    }
  }

  lemma {:induction false} SpaceIsNoBracket(c: char)
    requires IsSpace(c)
    ensures !IsQuote(c) && c != '[' && c != ']'
  {
  }

  lemma {:induction false} TokensOfGap(current: string, gap: string, rest: string)
    requires AllSpace(gap) && gap != "" && current != ""
    ensures TokensFrom(current, Plain, 0, gap + rest) == [current] + Tokens(rest)
  {
    assert (gap + rest)[0] == gap[0] && (gap + rest)[1..] == gap[1..] + rest;
    SpaceIsNoBracket(gap[0]);
    TokensOfBlank(gap[1..], rest);
  }

  lemma {:induction false} SpeltIsToken(h: Host, w: Typed, rest: string)
    requires IsTyped(h, w) && (rest == "" || IsSpace(rest[0]))
    ensures Spelt(h, w) != "" && Trimmed(Spelt(h, w)) && Spelt(h, w)[0] != '('
    ensures !IsExposed(w) ==> !HasParens(Spelt(h, w))
    ensures TokensFrom("", Plain, 0, Spelt(h, w) + rest) == TokensFrom(Spelt(h, w), Plain, 0, rest)
    ensures PiecesFrom(h, false, Plain, 0, Spelt(h, w) + rest)
         == Glue(Spelt(h, w), PiecesFrom(h, false, Plain, 0, rest))
  {
    hide TokensFrom, PiecesFrom, JoinFree, EscapedBy, Join, FormatItems, NormAll;
    if rest != "" {
      SpaceIsNothing(h, rest[0]);
    }
    match w {
      case Bare(text) =>
        TokensBare("", 0, text, rest);
        assert "" + text == text;
        PiecesBare(h, false, text, rest);
        HasParensBare(text);
      case Quoting(q, value) =>
        QuotedToken(q, value, rest);
        QuotedPieces(h, q, value, rest);
        if !HasParens(value) {
          QuotedByParens(q, value);
        }
        var lit := QuotedBy(q, value);
        assert lit[0] == q && lit[|lit| - 1] == q;
      case Listed(items) =>
        TokensList(h, items, "", rest);
        assert "" + ListText(h, items) == ListText(h, items);
        PiecesList(h, items, rest);
        HasParensList(h, items);
        ListIsTrimmed(h, items);
    }
  }

  lemma {:induction false} ListIsTrimmed(h: Host, items: seq<string>)
    ensures var s := ListText(h, items); s != "" && Trimmed(s) && s[0] == '['
  {
    hide Join, FormatItems;
    var s := ListText(h, items);
    assert s[0] == '[' && s[|s| - 1] == ']';
  }

  lemma {:induction false} QuotedToken(q: char, value: string, rest: string)
    requires EitherQuote(q)
    ensures TokensFrom("", Plain, 0, QuotedBy(q, value) + rest) == TokensFrom(QuotedBy(q, value), Plain, 0, rest)
  {
    hide EscapedBy, StaysQuoted, ModeAfter;
    var body := EscapedBy(q, value) + [q];
    QuotedByIsOpaque(q, value);
    Concat3([q], body, rest);
    TakeDrop([q], body + rest);
    TokensQuoted([q], Quoted(q, false), 0, body, rest);
    assert "" + [q] == [q];
  }

  lemma {:induction false} QuotedPieces(h: Host, q: char, value: string, rest: string)
    requires EitherQuote(q) && (rest == "" || !IsWordRune(h, rest[0]))
    ensures PiecesFrom(h, false, Plain, 0, QuotedBy(q, value) + rest)
         == Glue(QuotedBy(q, value), PiecesFrom(h, false, Plain, 0, rest))
  {
    hide EscapedBy, StaysQuoted, ModeAfter, Glue;
    var body := EscapedBy(q, value) + [q];
    QuotedByIsOpaque(q, value);
    Concat3([q], body, rest);
    TakeDrop([q], body + rest);
    OpeningQuote(h, q, body + rest);
    PiecesQuoted(h, false, Quoted(q, false), 0, body, rest);
    GlueGlue([q], body, PiecesFrom(h, false, Plain, 0, rest));
  }

  lemma {:induction false} OpeningQuote(h: Host, q: char, s: string)
    requires EitherQuote(q)
    ensures PiecesFrom(h, false, Plain, 0, [q] + s) == Glue([q], PiecesFrom(h, false, Quoted(q, false), 0, s))
  {
    TakeDrop([q], s);
    assert !IsWordRune(h, q);
    QuoteBegins(h, q, s);
  }

  lemma {:induction false} QuoteBegins(h: Host, q: char, s: string)
    requires EitherQuote(q)
    ensures PiecesFrom(h, false, Quoted(q, false), 0, s)
         == PiecesFrom(h, IsWordRune(h, q), Quoted(q, false), 0, s)
  {
  }

  lemma {:induction false} GapHasNoParens(gap: string)
    requires AllSpace(gap)
    ensures !HasParens(gap)
  {
  }

  /** The words are the tokens, and no joining word cuts between them. */
  lemma {:induction false} TypedIsOne(h: Host, words: seq<Typed>, gaps: seq<string>)
    requires |words| == |gaps| + 1 && AreGaps(gaps) && forall i | 0 <= i < |words| :: IsTyped(h, words[i])
    ensures var s := TypedText(h, words, gaps);
            && s != "" && Trimmed(s) && s[0] == Spelt(h, words[0])[0]
            && ((forall i | 0 <= i < |words| :: !IsExposed(words[i])) ==> !HasParens(s))
            && Tokens(s) == Spelts(h, words)
            && PiecesFrom(h, false, Plain, 0, s) == Some(Pieces([s], []))
    decreases |gaps|
  {
    hide TokensFrom, PiecesFrom, Spelt, IsTyped, IsSpace, HasParens;
    var first := Spelt(h, words[0]);
    if gaps == [] {
      SpeltIsToken(h, words[0], "");
      assert first + "" == first;
      PiecesNothing(h);
      WholePiece(first);
      NoMoreTokens(first);
      assert Spelts(h, words) == [first] + Spelts(h, words[1..]) == [first];
    } else {
      var gap, rest := gaps[0], TypedText(h, words[1..], gaps[1..]);
      TypedIsOne(h, words[1..], gaps[1..]);
      assert (gap + rest)[0] == gap[0];
      SpeltIsToken(h, words[0], gap + rest);
      TokensOfGap(first, gap, rest);
      PiecesBlank(h, gap, rest);
      WholePiece(rest);
      var pad: string := gap + rest;
      AloneInPieces(gap, rest);
      AloneInPieces(first, pad);
      var s := first + (gap + rest);
      assert s[0] == first[0] && s[|s| - 1] == rest[|rest| - 1];
      GapHasNoParens(gap);
      HasParensConcat(gap, rest);
      HasParensConcat(first, gap + rest);
    }
  }

  lemma {:induction false} AloneInPieces(head: string, s: string)
    ensures Glue(head, Some(Pieces([s], []))) == Some(Pieces([head + s], []))
  {
    var one := [s];
    assert one[1..] == [];
    assert [head + s] + one[1..] == [head + s];
  }

  lemma {:induction false} NoMoreTokens(s: string)
    requires s != ""
    ensures TokensFrom(s, Plain, 0, "") == [s]
  {
  }

  /** Words typed after one another, in any spacing, are read as those words; `ReadTokensExactly` says what that is. */
  lemma {:induction false} ParseTypedWords(h: Host, words: seq<Typed>, gaps: seq<string>)
    requires |words| == |gaps| + 1 && AreGaps(gaps) && forall i | 0 <= i < |words| :: IsTyped(h, words[i])
    requires (forall i | 0 <= i < |words| :: !IsExposed(words[i])) && !(words[0].Bare? && IsNot(words[0].text))
    ensures ParseExpr(h, TypedText(h, words, gaps)) == ReadTokens(Spelts(h, words))
  {
    hide TokensFrom, PiecesFrom, Spelt, IsTyped, ReadTokens, Tokens, Trim, HasParens, IsNot, SplitTopLevel,
         StartsWithNot;
    var s := TypedText(h, words, gaps);
    TypedIsOne(h, words, gaps);
    SpeltIsToken(h, words[0], "");
    NoNot(h, words, gaps);
    ParseSingle(h, s);
  }

  lemma {:induction false} NoNot(h: Host, words: seq<Typed>, gaps: seq<string>)
    requires |words| == |gaps| + 1 && AreGaps(gaps) && forall i | 0 <= i < |words| :: IsTyped(h, words[i])
    requires !(words[0].Bare? && IsNot(words[0].text))
    ensures !StartsWithNot(TypedText(h, words, gaps))
  {
    hide EscapedBy, JoinFree, Lower, Join, FormatItems;
    var s, first := TypedText(h, words, gaps), Spelt(h, words[0]);
    SpeltIsToken(h, words[0], "");
    if StartsWithNot(s) {
      var low := ToLower(s[..3]);
      assert first == s[..|first|];
      if !words[0].Bare? {
        assert first[0] == s[0] && low[0] == Lower(s[0]);
        OpenersStay(s[0]);
      } else if |first| < 3 {
        var k := |first|;
        assert s[k] == gaps[0][0];
        assert low[k] == Lower(s[k]);
        SpaceStays(s[k]);
      }
    }
  }

  lemma {:induction false} OpenersStay(c: char)
    requires IsQuote(c) || c == '['
    ensures Lower(c) == c
  {
  }

  lemma {:induction false} SpaceStays(c: char)
    requires IsSpace(c)
    ensures Lower(c) == c && c != 'n' && c != 'o' && c != 't'
  {
  }

  /** Two words are read with an operator that takes no value and three with one that does; of a list operator the value
      is a list. Nothing else is read. */
  lemma {:induction false} ReadTokensExactly(tokens: seq<string>)
    ensures ReadTokens(tokens).Read? <==>
              && (|tokens| == 2 || |tokens| == 3)
              && LookupOperator(tokens[1]).Some? && (Arity(LookupOperator(tokens[1]).value) == 0 <==> |tokens| == 2)
    ensures ReadTokens(tokens).Read? ==>
              var op := LookupOperator(tokens[1]).value;
              ReadTokens(tokens).c == Leaf(tokens[0], Key(op), match Arity(op)
                                                               case 0 => ""
                                                               case 1 => Unquote(tokens[2])
                                                               case _ => UnformatList(tokens[2]))
    ensures !ReadTokens(tokens).Read? ==> ReadTokens(tokens) == Unreadable
  {
    hide LookupOperator, Unquote, UnformatList;
  }

  /** `not` before a list test, in any spelling: one test with `notin`. */
  lemma {:induction false} ParseTypedNotIn(h: Host, word: string, gap: string, attr: string, inside: string,
                                           items: seq<string>, gaps: seq<string>)
    requires IsNot(word) && AllSpace(gap) && gap != "" && gap[0] == ' '
    requires IsBareword(h, attr) && IsBareword(h, inside) && ToLower(inside) == "in" && AreItems(items)
    requires |gaps| == 2 && AreGaps(gaps)
    ensures ParseExpr(h, word + gap + TypedText(h, [Bare(attr), Bare(inside), Listed(items)], gaps))
         == Read(Leaf(attr, "notin", Join(NormAll(items), ", ")))
  {
    hide StripOuter, Trim, TokensFrom, StartsWithNot, UnformatList, NormAll, AllSpace, IsNot, IsSpace, JoinFree,
         ToLower, TypedText, AreItems, IsBareword, PiecesFrom, SplitTopLevel;
    var words := [Bare(attr), Bare(inside), Listed(items)];
    var t := TypedText(h, words, gaps);
    ThreeTyped(h, attr, inside, items);
    TypedIsOne(h, words, gaps);
    SpeltIsToken(h, words[0], "");
    TypedNotStarts(h, word, gap, t);
    OpenStays(t);
    UnformatListText(h, items);
    assert Tokens(t) == [attr, inside, ListText(h, items)];
  }

  lemma {:induction false} ThreeTyped(h: Host, attr: string, inside: string, items: seq<string>)
    requires IsBareword(h, attr) && IsBareword(h, inside) && AreItems(items)
    ensures var words := [Bare(attr), Bare(inside), Listed(items)];
            && (forall i | 0 <= i < 3 :: IsTyped(h, words[i]))
            && Spelts(h, words) == [attr, inside, ListText(h, items)]
  {
    hide IsBareword, AreItems, ListText;
    var words := [Bare(attr), Bare(inside), Listed(items)];
    var r := Spelts(h, words);
    assert r[0] == attr && r[1] == inside && r[2] == ListText(h, items);
  }

  lemma {:induction false} OpenStays(s: string)
    requires s != "" && Trimmed(s) && s[0] != '('
    ensures StripOuter(s) == s
  {
  }

  /** Operators are known in any case, and no other word is one. */
  lemma {:induction false} KnownInAnyCase(word: string, op: Operator)
    ensures LookupOperator(word) == Some(op) <==> ToLower(word) == Key(op)
  {
    hide Lower;
  }

  // ---------------------------------------------------------------- any text

  /** Any text that is read as a group of several, whatever it looks like: its joining words are all that of the group,
      and its groups are read as the children, in order. */
  lemma {:induction false} ReadAsGroup(h: Host, s: string)
    requires ParseExpr(h, s).Read?
    requires var c := ParseExpr(h, s).c; IsGroup(c) && !c.negated && |c.children| >= 2
    ensures var c, t := ParseExpr(h, s).c, StripOuter(Trim(s));
            && SplitTopLevel(h, t).Some?
            && var TopLevel(groups, joins) := SplitTopLevel(h, t).value;
            && |groups| == |c.children| && |joins| == |groups| - 1
            && (forall i | 0 <= i < |joins| :: joins[i] == c.op)
            && (forall i | 0 <= i < |groups| :: ParseExpr(h, groups[i]) == Read(c.children[i]))
  {
    hide StripOuter, Trim, Tokens, SplitTopLevel;
    var t := StripOuter(Trim(s));
    SameStringAgain(h, s);
    SplitShorter(h, t);
    var TopLevel(groups, joins) := SplitTopLevel(h, t).value;
    ParsedEach(h, groups, |t|);
  }

  lemma {:induction false} ParsedEach(h: Host, groups: seq<string>, bound: nat)
    requires forall i | 0 <= i < |groups| :: |groups[i]| < bound
    ensures var r := ParseAll(h, groups, bound);
            if r.ReadAll? then
              |r.cs| == |groups| && forall i | 0 <= i < |groups| :: ParseExpr(h, groups[i]) == Read(r.cs[i])
            else exists i | 0 <= i < |groups| :: ParseExpr(h, groups[i]) == r.why && !r.why.Read?
    decreases |groups|
  {
    hide ParseExpr;
    if groups != [] {
      ParsedEach(h, groups[1..], bound);
      var r := ParseAll(h, groups, bound);
      if ParseExpr(h, groups[0]).Read? && r.Failed? {
        var i :| 0 <= i < |groups| - 1 && ParseExpr(h, groups[1..][i]) == r.why && !r.why.Read?;
        assert ParseExpr(h, groups[i + 1]) == r.why;
      }
    }
  }

  /** And any text that does not start with `not` and falls into several groups is read exactly if it has one joining
      word and each of its groups is read. */
  lemma {:induction false} GroupsAreRead(h: Host, s: string)
    requires var t := StripOuter(Trim(s));
             ParseNegated(h, t) == Unreadable && SplitTopLevel(h, t).Some? && |SplitTopLevel(h, t).value.groups| >= 2
    ensures var TopLevel(groups, joins) := SplitTopLevel(h, StripOuter(Trim(s))).value;
            ParseExpr(h, s).Read? <==>
            && (forall i, j | 0 <= i < j < |joins| :: joins[i] == joins[j])
            && (forall i | 0 <= i < |groups| :: ParseExpr(h, groups[i]).Read?)
  {
    hide StripOuter, Trim, Tokens, SplitTopLevel, ParseNegated;
    var t := StripOuter(Trim(s));
    SplitShorter(h, t);
    ParsedEach(h, SplitTopLevel(h, t).value.groups, |t|);
  }
}
