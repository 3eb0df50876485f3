/** Where printing and parsing fall short of a round trip, and exactly when (internal/goff/condition.go). */
module Shortfalls {
  import opened Collections
  import opened Options
  import opened Strings
  import opened Scanner
  import opened Conditions
  import opened Parser
  import opened Literals
  import opened Queries
  import opened Reading
  import opened RoundTrip
  import opened Meaning
  import opened Idempotence

  // ---------------------------------------------------------------- `not` without parentheses around what it negates

  /** `not (a) and (b)`, as a user may write it. */
  function Handwritten(h: Host, q: Query, join: string, r: Query): string {
    "not " + (Text(h, q) + (" " + join + " ") + Text(h, r))
  }

  lemma {:induction false} HandwrittenBody(h: Host, q: Query, join: string, r: Query)
    ensures Body(h, Chain(join, [q, r])) == Text(h, q) + (" " + join + " ") + Text(h, r)
    ensures Handwritten(h, q, join, r) == "not " + Body(h, Chain(join, [q, r]))
  {
    hide Text;
    var texts, sep := Texts(h, [q, r]), " " + join + " ";
    assert texts[1..] == [Text(h, r)] && texts[0] == Text(h, q);
    assert Join(texts, sep) == texts[0] + sep + Join(texts[1..], sep);
    assert Join([Text(h, r)], sep) == Text(h, r);
    assert Body(h, Chain(join, [q, r])) == Join(texts, sep);
  }

  lemma {:induction false} HandwrittenEnds(h: Host, q: Query, join: string, r: Query)
    requires WellFormed(Chain(join, [q, r]))
    ensures var s := Handwritten(h, q, join, r);
            StartsWithNot(s) && StripOuter(Trim(s)) == s && Trim(s[3..]) == Body(h, Chain(join, [q, r]))
  {
    hide Text, Body, WellFormed;
    var b, s := Body(h, Chain(join, [q, r])), Handwritten(h, q, join, r);
    HandwrittenBody(h, q, join, r);
    BodyEnds(h, Chain(join, [q, r]));
    NotText(b);
    assert s[0] == 'n' && s[|s| - 1] == b[|b| - 1];
    assert Trimmed(s);
  }

  lemma {:induction false} HandwrittenPieces(h: Host, q: Query, join: string, r: Query)
    requires (join == "and" || join == "or") && WellFormed(q) && WellFormed(r)
    ensures PiecesFrom(h, false, Plain, 0, Handwritten(h, q, join, r))
         == Some(Pieces(["not " + Text(h, q) + " ", " " + Text(h, r)], [join]))
  {
    hide PiecesFrom, Text, Body, WellFormed;
    var first, last := Text(h, q), Text(h, r);
    HandwrittenBody(h, q, join, r);
    PiecesPadded(h, r, " ", "");
    PiecesNothing(h);
    WholePiece(" " + last);
    assert last + "" == last;
    ChainFirst(h, join, q, "", last);
    var whole := first + (" " + join + " ") + last;
    assert "" + whole == whole && "" + first + " " == first + " ";
    assert [first + " "] + [" " + last] == [first + " ", " " + last] && [join] + [] == [join];
    NotIsBareword(h);
    PiecesWord(h, "not", whole);
    assert "not" + " " == "not ";
    assert [first + " ", " " + last][1..] == [" " + last];
    Concat3("not ", first, " ");
    assert ["not " + (first + " ")] + [" " + last] == ["not " + first + " ", " " + last];
  }

  lemma {:induction false} HandwrittenSplit(h: Host, q: Query, join: string, r: Query)
    requires (join == "and" || join == "or") && WellFormed(q) && WellFormed(r)
    ensures SplitTopLevel(h, Handwritten(h, q, join, r))
         == Some(TopLevel(["not " + Text(h, q), Text(h, r)], [join]))
  {
    hide PiecesFrom, Text, Body, WellFormed, Trim, ToLower;
    var first, last := "not " + Text(h, q), Text(h, r);
    HandwrittenPieces(h, q, join, r);
    TextTrimmed(h, q);
    TextTrimmed(h, r);
    assert Trimmed(first);
    TrimPadded("", first, " ");
    TrimPadded(" ", last, "");
    assert "" + first + " " == first + " " && " " + last + "" == " " + last;
    TwoTrimmed(first + " ", " " + last);
    JoinIsWord(h, join, "");
    OneLowered(join);
  }

  lemma {:induction false} TwoTrimmed(a: string, b: string)
    ensures TrimAll([a, b]) == [Trim(a), Trim(b)]
  {
    assert [a, b][1..] == [b] && [b][1..] == [];
  }

  lemma {:induction false} OneLowered(s: string)
    ensures LowerAll([s]) == [ToLower(s)]
  {
    assert [s][1..] == [];
  }

  lemma {:induction false} ParseTwo(h: Host, a: string, b: string, bound: nat, q: Query, r: Query)
    requires |a| < bound && |b| < bound
    requires ParseExpr(h, a) == Reread(h, q) && ParseExpr(h, b) == Reread(h, r)
    ensures ParseAll(h, [a, b], bound) == RereadAll(h, [q, r])
  {
    hide Reread, ParseExpr;
    assert [a, b][1..] == [b] && [b][1..] == [] && [q, r][1..] == [r] && [r][1..] == [];
    assert ParseAll(h, [], bound) == RereadAll(h, []);
    assert ParseAll(h, [b], bound) == RereadAll(h, [r]);
  }

  lemma {:induction false} HandwrittenNegated(h: Host, q: Query, join: string, r: Query)
    requires WellFormed(Chain(join, [q, r]))
    ensures ParseNegated(h, Handwritten(h, q, join, r)) ==
            match Reread(h, Chain(join, [q, r])) case Read(c) => Read(Negate(c)) case other => other
  {
    hide PiecesFrom, SplitTopLevel, TokensFrom, Tokens, StripOuter, Trim, Body, Text, Reread, ParseExpr, ParseAll,
         ParseLeaf, IsInList, StartsWithNot, UnformatList, NormAll, WellFormed, Handwritten, Negate;
    var both := Chain(join, [q, r]);
    HandwrittenEnds(h, q, join, r);
    StripPrinted(h, both);
    BodyEnds(h, both);
    ParsePrinted(h, both);
    NotAnInList(h, both);
  }

  lemma {:induction false} HandwrittenLengths(h: Host, q: Query, join: string, r: Query)
    ensures var s := Handwritten(h, q, join, r); |"not " + Text(h, q)| < |s| && |Text(h, r)| < |s|
  {
    hide Text;
  }

  lemma {:induction false} ParseCutParts(h: Host, q: Query, r: Query, bound: nat)
    requires WellFormed(q) && WellFormed(r) && |"not " + Text(h, q)| < bound && |Text(h, r)| < bound
    ensures ParseAll(h, ["not " + Text(h, q), Text(h, r)], bound) == RereadAll(h, [Negation(q), r])
  {
    hide ParseExpr, Reread, Text, Body, ParseAll;
    ParsePrinted(h, Negation(q));
    ParsePrinted(h, r);
    NegationBody(h, q);
    ParseTwo(h, "not " + Text(h, q), Text(h, r), bound, Negation(q), r);
  }

  lemma {:induction false} ParseCut(h: Host, s: string, a: string, b: string, join: string)
    requires StripOuter(Trim(s)) == s && ParseNegated(h, s) == Unreadable
    requires SplitTopLevel(h, s) == Some(TopLevel([a, b], [join])) && |a| < |s| && |b| < |s|
    ensures ParseExpr(h, s) ==
            match ParseAll(h, [a, b], |s|) case Failed(why) => why case ReadAll(cs) => Read(Group(join, cs))
  {
    hide StripOuter, Trim, ParseNegated, SplitTopLevel, ParseAll, ParseLeaf;
  }

  lemma {:induction false} HandwrittenCut(h: Host, q: Query, join: string, r: Query)
    requires (join == "and" || join == "or") && WellFormed(q) && WellFormed(r)
    requires ParseNegated(h, Handwritten(h, q, join, r)) == Unreadable
    ensures ParseExpr(h, Handwritten(h, q, join, r)) == Reread(h, Chain(join, [Negation(q), r]))
  {
    hide SplitTopLevel, StripOuter, Trim, Body, Text, RereadAll, ParseAll, ParseLeaf, ParseNegated, ParseExpr,
         Handwritten, WellFormed;
    var s := Handwritten(h, q, join, r);
    HandwrittenBoth(join, q, r);
    HandwrittenEnds(h, q, join, r);
    HandwrittenSplit(h, q, join, r);
    HandwrittenLengths(h, q, join, r);
    ParseCutParts(h, q, r, |s|);
    ParseCut(h, s, "not " + Text(h, q), Text(h, r), join);
  }

  lemma {:induction false} HandwrittenBoth(join: string, q: Query, r: Query)
    requires (join == "and" || join == "or") && WellFormed(q) && WellFormed(r)
    ensures WellFormed(Chain(join, [q, r]))
  {
  }

  /** What the parser makes of it: the negation of both, as long as the two can be read as a chain. Otherwise, and only
      then, it is cut at the joining word. */
  lemma {:induction false} ParseHandwritten(h: Host, q: Query, join: string, r: Query)
    requires (join == "and" || join == "or") && WellFormed(q) && WellFormed(r)
    ensures ParseExpr(h, Handwritten(h, q, join, r)) ==
            if Reread(h, Chain(join, [q, r])) == Unreadable then Reread(h, Chain(join, [Negation(q), r]))
            else Reread(h, Negation(Chain(join, [q, r])))
  {
    hide StripOuter, Trim, RereadAll, ParseNegated, SplitTopLevel, Handwritten;
    HandwrittenEnds(h, q, join, r);
    HandwrittenNegated(h, q, join, r);
    if Reread(h, Chain(join, [q, r])) == Unreadable {
      HandwrittenCut(h, q, join, r);
    }
  }

  lemma {:induction false} NegationBody(h: Host, q: Query)
    ensures Body(h, Negation(q)) == "not " + Text(h, q)
  {
  }

  /** What it then means: the negation of both. That is what the user wrote exactly where the second query holds, for
      `and`, or where it does not, for `or`. */
  lemma {:induction false} HandwrittenMeans(h: Host, env: Assignment, q: Query, join: string, r: Query)
    requires (join == "and" || join == "or") && WellFormed(q) && WellFormed(r) && Printable(h, q) && Printable(h, r)
    ensures var p := ParseExpr(h, Handwritten(h, q, join, r));
            && p.Read? && Renders(p.c)
            && Holds(env, p.c) == Means(env, Negation(Chain(join, [q, r])))
            && (Holds(env, p.c) == Means(env, Chain(join, [Negation(q), r])) <==>
                if join == "and" then Means(env, r) else !Means(env, r))
  {
    hide ParseExpr, Handwritten, Reread, Renders, Holds, Means, Printable, WellFormed;
    var both := Chain(join, [q, r]);
    PrintableTwo(h, q, join, r);
    PrintableReads(h, env, both);
    PrintableReads(h, env, Negation(both));
    ParseHandwritten(h, q, join, r);
    NotMeans(env, both);
    NotMeans(env, q);
    TwoMean(env, q, r);
    TwoMean(env, Negation(q), r);
  }

  lemma {:induction false} PrintableTwo(h: Host, q: Query, join: string, r: Query)
    requires (join == "and" || join == "or") && WellFormed(q) && WellFormed(r) && Printable(h, q) && Printable(h, r)
    ensures var both := Chain(join, [q, r]);
            && WellFormed(both) && WellFormed(Negation(both)) && Printable(h, both) && Printable(h, Negation(both))
  {
    hide IsAttribute, JoinFree, Exposed;
    var parts := [q, r];
    assert parts[0] == q && parts[1] == r;
  }

  lemma {:induction false} NotMeans(env: Assignment, q: Query)
    ensures Means(env, Negation(q)) == !Means(env, q)
  {
  }

  lemma {:induction false} TwoMean(env: Assignment, q: Query, r: Query)
    ensures Means(env, Chain("and", [q, r])) == (Means(env, q) && Means(env, r))
    ensures Means(env, Chain("or", [q, r])) == (Means(env, q) || Means(env, r))
  {
    var parts := [q, r];
    assert parts[0] == q && parts[1] == r;
  }

  // ---------------------------------------------------------------- negations of negations

  function Nots(q: Query, n: nat): Query {
    if n == 0 then q else Negation(Nots(q, n - 1))
  }

  lemma {:induction false} NotsMean(env: Assignment, q: Query, n: nat)
    ensures Means(env, Nots(q, n)) == (Means(env, q) != (n % 2 == 1))
  {
    hide TestHolds, Means;
    if n > 0 {
      NotsMean(env, q, n - 1);
      NotMeans(env, Nots(q, n - 1));
      EverySecond(n);
    }
  }

  lemma {:induction false} NotsRead(h: Host, env: Assignment, q: Query, n: nat)
    requires WellFormed(q) && Printable(h, q) && !q.OneOf? && (q.Negation? ==> q.query.OneOf?)
    ensures var r := Reread(h, Nots(q, n));
            && r.Read? && Renders(r.c)
            && Holds(env, r.c) == (Means(env, q) != ((n + 1) / 2 % 2 == 1))
            && (IsGroup(r.c) && r.c.negated <==> n % 2 == 1)
  {
    hide Renders, Holds, Means, Printable, Reread, Negate;
    if n == 0 {
      PrintableReads(h, env, q);
    } else {
      NotsRead(h, env, q, n - 1);
      NegateMeaning(env, Reread(h, Nots(q, n - 1)).c);
      NegatedOnce(h, q, n);
      EverySecond(n);
    }
  }

  lemma {:induction false} NegatedOnce(h: Host, q: Query, n: nat)
    requires n > 0 && !q.OneOf? && Reread(h, Nots(q, n - 1)).Read?
    ensures var c := Reread(h, Nots(q, n - 1)).c;
            && Reread(h, Nots(q, n)) == Read(Negate(c))
            && IsGroup(Negate(c)) && (Negate(c).negated <==> !(IsGroup(c) && c.negated))
  {
  }

  lemma {:induction false} EverySecond(n: nat)
    requires n > 0
    ensures n % 2 == 1 ==> (n + 1) / 2 == n / 2 + 1 && (n - 1) % 2 == 0
    ensures n % 2 == 0 ==> (n + 1) / 2 == n / 2 && (n - 1) % 2 == 1
    ensures n % 2 == 1 ==> (n / 2 + 1) % 2 == 1 - n / 2 % 2
  {
  }

  /** A stack of negations reads back right exactly when their number leaves the remainder nought or one by four: every
      second negation of a negated group is lost. A negated list counts as no negation, it is a leaf of its own. */
  lemma {:induction false} NestedNegations(h: Host, env: Assignment, q: Query, n: nat)
    requires WellFormed(q) && Printable(h, q) && !q.OneOf? && (q.Negation? ==> q.query.OneOf?)
    ensures var r := Reread(h, Nots(q, n));
            && r.Read? && Renders(r.c)
            && (Holds(env, r.c) == Means(env, Nots(q, n)) <==> n % 4 == 0 || n % 4 == 1)
  {
    hide Renders, Holds, Means, Printable, Reread, Nots, WellFormed;
    NotsRead(h, env, q, n);
    NotsMean(env, q, n);
    ParitiesAgree(n);
  }

  lemma {:induction false} EvenAndOdd(k: nat)
    ensures 2 * k / 2 == k && 2 * k % 2 == 0
    ensures (2 * k + 1) / 2 == k && (2 * k + 1) % 2 == 1
  {
  }

  lemma {:induction false} ParitiesAgreeAt(k: nat, rest: nat)
    requires rest < 4
    ensures var n := 4 * k + rest; ((n + 1) / 2 % 2 == 1) == (n % 2 == 1) <==> rest == 0 || rest == 1
  {
    EvenAndOdd(k);
    EvenAndOdd(2 * k);
    EvenAndOdd(2 * k + 1);
    EvenAndOdd(2 * k + 2);
    EvenAndOdd(k + 1);
  }

  lemma {:induction false} ParitiesAgree(n: nat)
    ensures ((n + 1) / 2 % 2 == 1) == (n % 2 == 1) <==> n % 4 == 0 || n % 4 == 1
  {
    ParitiesAgreeAt(n / 4, n % 4);
  }

  // ---------------------------------------------------------------- queries the parser never ends on

  /** Printed, then refused: the first part that is not read has an attribute with a joining word in it. */
  predicate Refused(h: Host, q: Query)
    decreases q
  {
    match q
    case Negation(_) => false
    case Chain(_, parts) =>
      exists i | 0 <= i < |parts| ::
        Refused(h, parts[i]) && forall j | 0 <= j < i :: !Refused(h, parts[j]) && !Endless(h, parts[j])
    case _ => !JoinFree(h, false, q.attr)
  }

  /** Printed, then never read to an end: a parenthesis in a value, other than in a negated list, or a negation of what
      is refused; and nothing before it that is not read. */
  predicate Endless(h: Host, q: Query)
    decreases q
  {
    match q
    case Negation(query) => !query.OneOf? && (Refused(h, query) || Endless(h, query))
    case Chain(_, parts) =>
      exists i | 0 <= i < |parts| ::
        Endless(h, parts[i]) && forall j | 0 <= j < i :: !Refused(h, parts[j]) && !Endless(h, parts[j])
    case _ => JoinFree(h, false, q.attr) && Exposed(q)
  }

  lemma {:induction false} OutcomeOf(h: Host, q: Query)
    ensures Reread(h, q) == Unreadable <==> Refused(h, q)
    ensures Reread(h, q) == Stuck <==> Endless(h, q)
    decreases q, 1
  {
    hide JoinFree, Exposed, LeafCondition, Negate;
    match q {
      case Negation(query) => OutcomeOf(h, query);
      case Chain(join, parts) =>
        OutcomeOfAll(h, parts);
        OutcomeOfChain(h, join, parts);
      case _ =>
    }
  }

  lemma {:induction false} OutcomeOfChain(h: Host, join: string, parts: seq<Query>)
    ensures Refused(h, Chain(join, parts)) <==> exists i | 0 <= i < |parts| :: FirstRefused(h, parts, i)
    ensures Endless(h, Chain(join, parts)) <==> exists i | 0 <= i < |parts| :: FirstEndless(h, parts, i)
  {
    var q := Chain(join, parts);
    if Refused(h, q) {
      var i :| 0 <= i < |q.parts| && Refused(h, q.parts[i])
               && forall j | 0 <= j < i :: !Refused(h, q.parts[j]) && !Endless(h, q.parts[j]);
      assert FirstRefused(h, parts, i);
    }
    if Endless(h, q) {
      var i :| 0 <= i < |q.parts| && Endless(h, q.parts[i])
               && forall j | 0 <= j < i :: !Refused(h, q.parts[j]) && !Endless(h, q.parts[j]);
      assert FirstEndless(h, parts, i);
    }
    if i :| 0 <= i < |parts| && FirstRefused(h, parts, i) {
      assert Refused(h, q.parts[i]);
    }
    if i :| 0 <= i < |parts| && FirstEndless(h, parts, i) {
      assert Endless(h, q.parts[i]);
    }
  }

  predicate FirstRefused(h: Host, parts: seq<Query>, i: nat)
    requires i < |parts|
  {
    Refused(h, parts[i]) && forall j | 0 <= j < i :: !Refused(h, parts[j]) && !Endless(h, parts[j])
  }

  predicate FirstEndless(h: Host, parts: seq<Query>, i: nat)
    requires i < |parts|
  {
    Endless(h, parts[i]) && forall j | 0 <= j < i :: !Refused(h, parts[j]) && !Endless(h, parts[j])
  }

  lemma {:induction false} FirstsShift(h: Host, parts: seq<Query>)
    requires parts != []
    ensures (exists i | 0 <= i < |parts| :: FirstRefused(h, parts, i)) <==>
            Refused(h, parts[0])
            || (!Endless(h, parts[0]) && exists i | 0 <= i < |parts| - 1 :: FirstRefused(h, parts[1..], i))
    ensures (exists i | 0 <= i < |parts| :: FirstEndless(h, parts, i)) <==>
            Endless(h, parts[0])
            || (!Refused(h, parts[0]) && exists i | 0 <= i < |parts| - 1 :: FirstEndless(h, parts[1..], i))
  {
    hide Refused, Endless;
    var rest := parts[1..];
    assert forall j | 0 <= j < |rest| :: rest[j] == parts[j + 1];
    if i :| 0 <= i < |rest| && FirstRefused(h, rest, i) && !Refused(h, parts[0]) && !Endless(h, parts[0]) {
      assert forall j | 0 < j < i + 1 :: parts[j] == rest[j - 1];
      assert FirstRefused(h, parts, i + 1);
    }
    if i :| 0 <= i < |rest| && FirstEndless(h, rest, i) && !Refused(h, parts[0]) && !Endless(h, parts[0]) {
      assert forall j | 0 < j < i + 1 :: parts[j] == rest[j - 1];
      assert FirstEndless(h, parts, i + 1);
    }
    if i :| 0 < i < |parts| && FirstRefused(h, parts, i) {
      assert FirstRefused(h, rest, i - 1);
    }
    if i :| 0 < i < |parts| && FirstEndless(h, parts, i) {
      assert FirstEndless(h, rest, i - 1);
    }
    if Refused(h, parts[0]) {
      assert FirstRefused(h, parts, 0);
    }
    if Endless(h, parts[0]) {
      assert FirstEndless(h, parts, 0);
    }
  }

  lemma {:induction false} OutcomeOfAll(h: Host, parts: seq<Query>)
    ensures RereadAll(h, parts) == Failed(Unreadable) <==> exists i | 0 <= i < |parts| :: FirstRefused(h, parts, i)
    ensures RereadAll(h, parts) == Failed(Stuck) <==> exists i | 0 <= i < |parts| :: FirstEndless(h, parts, i)
    ensures RereadAll(h, parts).ReadAll? || RereadAll(h, parts) in {Failed(Unreadable), Failed(Stuck)}
    decreases parts, 0
  {
    hide Refused, Endless, FirstRefused, FirstEndless, Reread;
    if parts != [] {
      OutcomeOf(h, parts[0]);
      OutcomeOfAll(h, parts[1..]);
      FirstsShift(h, parts);
    }
  }

  /** The conditions on whose printed text the parser runs for ever, told from the condition alone. */
  lemma {:induction false} DivergesIff(h: Host, c: Condition)
    requires PlainAttributes(c)
    ensures ParseQuery(h, CompileCondition(h, c)) == Diverges <==>
            Shape(c).Some? && Endless(h, Shape(c).value)
  {
    hide ParseQuery, CompileCondition, Reread, Endless, Shape;
    PrintThenParse(h, c);
    if Shape(c).Some? {
      OutcomeOf(h, Shape(c).value);
    }
  }

  // ---------------------------------------------------------------- with ordinary attributes

  predicate JoinFreeThroughout(h: Host, q: Query)
    decreases q
  {
    match q
    case Negation(query) => JoinFreeThroughout(h, query)
    case Chain(_, parts) => forall i | 0 <= i < |parts| :: JoinFreeThroughout(h, parts[i])
    case _ => JoinFree(h, false, q.attr)
  }

  /** A value with a parenthesis anywhere, other than in a negated list. */
  predicate Exposes(q: Query)
    decreases q
  {
    match q
    case Negation(query) => !query.OneOf? && Exposes(query)
    case Chain(_, parts) => exists i | 0 <= i < |parts| :: Exposes(parts[i])
    case _ => Exposed(q)
  }

  /** Without joining words in attributes, one value with a parenthesis outside negated lists is what it takes. */
  lemma {:induction false} EndlessIffExposes(h: Host, q: Query)
    requires JoinFreeThroughout(h, q)
    ensures !Refused(h, q)
    ensures Endless(h, q) <==> Exposes(q)
    decreases q
  {
    hide JoinFree, Exposed;
    match q {
      case Negation(query) => EndlessIffExposes(h, query);
      case Chain(_, parts) =>
        forall i | 0 <= i < |parts|
          ensures !Refused(h, parts[i]) && (Endless(h, parts[i]) <==> Exposes(parts[i]))
        {
          EndlessIffExposes(h, parts[i]);
        }
        if i :| 0 <= i < |parts| && Exposes(parts[i]) {
          var first := 0;
          while !Exposes(parts[first])
            invariant 0 <= first <= i
            invariant forall j | 0 <= j < first :: !Exposes(parts[j])
            decreases i - first
          {
            first := first + 1;
          }
        }
      case _ =>
    }
  }

  /** A negated list is read whatever it holds. */
  lemma {:induction false} NegatedListIsRead(h: Host)
    ensures Exposed(OneOf("name", ["(", "b"]))
    ensures Reread(h, Negation(OneOf("name", ["(", "b"]))).Read?
  {
    var items := ["(", "b"];
    ParenthesisExposed();
    assert NormAll(items)[0] == Norm("(");
  }

  // ---------------------------------------------------------------- the redundant pair of parentheses

  /** A group with two parts that render. */
  predicate HasSeveral(c: Condition) {
    IsGroup(c) && exists i, j | 0 <= i < j < |c.children| :: Renders(c.children[i]) && Renders(c.children[j])
  }

  lemma {:induction false} ShapesCount(cs: seq<Condition>)
    ensures |ShapeAll(cs)| >= 1 <==> exists i | 0 <= i < |cs| :: Renders(cs[i])
    ensures |ShapeAll(cs)| >= 2 <==> exists i, j | 0 <= i < j < |cs| :: Renders(cs[i]) && Renders(cs[j])
    decreases |cs|
  {
    hide Renders, Shape;
    if cs != [] {
      var rest := cs[1..];
      ShapeMeaning((_, _, _) => true, cs[0]);
      ShapesCount(rest);
      assert forall j | 0 <= j < |rest| :: rest[j] == cs[j + 1];
      if i :| 0 <= i < |rest| && Renders(rest[i]) {
        assert Renders(cs[i + 1]);
      }
      if i, j :| 0 <= i < j < |rest| && Renders(rest[i]) && Renders(rest[j]) {
        assert Renders(cs[i + 1]) && Renders(cs[j + 1]);
      }
      if i :| 0 < i < |cs| && Renders(cs[i]) {
        assert Renders(rest[i - 1]);
      }
      if i, j :| 0 <= i < j < |cs| && Renders(cs[i]) && Renders(cs[j]) {
        assert Renders(rest[j - 1]);
        if i > 0 {
          assert Renders(rest[i - 1]);
        }
      }
    }
  }

  /** The text of a whole condition: a chain at the top has no parentheses of its own, if it is not all of a group of
      one. */
  lemma {:induction false} TopText(h: Host, c: Condition)
    requires Shape(c).Some?
    ensures CompileCondition(h, c) ==
            if Shape(c).value.Chain? && HasSeveral(c) then Body(h, Shape(c).value) else Text(h, Shape(c).value)
  {
    hide Join, Texts, Renders, CompileLeaf;
    var q := Shape(c).value;
    CompileShape(h, c);
    if IsGroup(c) {
      CompileAllShape(h, c.children);
      ShapesCount(c.children);
      var parts := ShapeAll(c.children);
      if |parts| >= 2 && !c.negated {
        assert q == Chain(c.op, parts);
      } else if c.negated {
        assert q.Negation?;
        assert Compile(h, c, true) == Compile(h, c, false);
      } else {
        assert Compile(h, c, true) == Compile(h, c, false);
      }
    } else {
      assert Compile(h, c, true) == Compile(h, c, false);
      LeafShapeIsNoChain(c);
    }
  }

  lemma {:induction false} LeafShapeIsNoChain(c: Condition)
    requires c.Cond?
    ensures LeafShape(c).Some? ==> !LeafShape(c).value.Chain?
  {
  }

  lemma {:induction false} BodyIsNotText(h: Host, q: Query)
    ensures |Text(h, q)| == |Body(h, q)| + 2
  {
  }

  /** The first print and all later ones are the same text exactly if what prints is no chain, or the chain is the top
      group itself. */
  lemma {:induction false} FirstPrintIsLast(h: Host, c: Condition)
    requires PlainAttributes(c) && Shape(c).Some? && Printable(h, Shape(c).value)
    ensures var p := ParseQuery(h, CompileCondition(h, c));
            && p.ParsedQuery? && p.simple
            && (CompileCondition(h, p.condition) == CompileCondition(h, c) <==>
                !Shape(c).value.Chain? || HasSeveral(c))
  {
    hide CompileCondition, ParseQuery, Body, Text, HasSeveral, Printable;
    var q := Shape(c).value;
    PrintThenParse(h, c);
    ShapeWellFormed(c);
    RereadShape(h, q);
    var d := Reread(h, q).c;
    TopText(h, c);
    TopText(h, d);
    NormQueryText(h, q);
    BodyIsNotText(h, q);
    if q.Chain? {
      ReadChainHasSeveral(h, q);
    }
  }

  lemma {:induction false} ReadChainHasSeveral(h: Host, q: Query)
    requires q.Chain? && WellFormed(q) && Printable(h, q)
    ensures Reread(h, q).Read? && HasSeveral(Reread(h, q).c)
  {
    RereadAllShape(h, q.parts);
    ShapesCount(RereadAll(h, q.parts).cs);
  }

  /** Such a condition: a group of one around a group of two. */
  lemma {:induction false} RedundantPair(h: Host) returns (c: Condition)
    ensures var p := ParseQuery(h, CompileCondition(h, c));
            p.ParsedQuery? && p.simple && CompileCondition(h, p.condition) != CompileCondition(h, c)
  {
    hide Trim, JoinFree, LookupOperator, IsBare, CompileCondition, ParseQuery, Key;
    var leaf := Leaf("name", "pr", "");
    var inner := Group("and", [leaf, leaf]);
    c := Group("or", [inner]);
    LookupLists();
    NameIsPlain(h);
    assert Shape(leaf) == Some(Present("name"));
    assert [leaf, leaf][1..] == [leaf] && [leaf][1..] == [] && [inner][1..] == [];
    assert ShapeAll([leaf]) == [Present("name")];
    assert ShapeAll([leaf, leaf]) == [Present("name"), Present("name")];
    assert Shape(inner) == Some(Chain("and", [Present("name"), Present("name")]));
    assert ShapeAll([inner]) == [Shape(inner).value];
    assert PlainAttributes(leaf) && PlainAttributes(inner) && PlainAttributes(c);
    assert Printable(h, Present("name"));
    FirstPrintIsLast(h, c);
    NotSeveral(inner);
  }

  lemma {:induction false} NotSeveral(c: Condition)
    ensures !HasSeveral(Group("or", [c]))
  {
  }

  // ---------------------------------------------------------------- handwritten queries, printed again

  /** What is read of a printable query prints as that query. */
  lemma {:induction false} PrintOfRead(h: Host, q: Query)
    requires WellFormed(q) && Printable(h, q)
    ensures var p := Reread(h, q);
            p.Read? && CompileCondition(h, p.c) == if q.Chain? then Body(h, q) else Text(h, q)
  {
    hide CompileCondition, Body, Text, HasSeveral, Printable;
    RereadShape(h, q);
    TopText(h, Reread(h, q).c);
    NormQueryText(h, q);
    if q.Chain? {
      ReadChainHasSeveral(h, q);
    }
  }

  /** Printing what was read gives the negation of both, which is not the text that was written. */
  lemma {:induction false} ReadHandwritten(h: Host, q: Query, join: string, r: Query)
    requires (join == "and" || join == "or") && WellFormed(q) && WellFormed(r) && Printable(h, q) && Printable(h, r)
    ensures var s, both := Handwritten(h, q, join, r), Negation(Chain(join, [q, r]));
            var p := ParseQuery(h, s);
            && p.ParsedQuery? && p.simple && p.condition.Cond?
            && CompileCondition(h, p.condition) == Text(h, both) != s
  {
    hide ParseExpr, Handwritten, Reread, Printable, WellFormed, CompileCondition, Body, Text, StripOuter, Trim, Renders,
         Holds, Means;
    var s, both := Handwritten(h, q, join, r), Negation(Chain(join, [q, r]));
    PrintableTwo(h, q, join, r);
    HandwrittenEnds(h, q, join, r);
    HandwrittenStarts(h, q, join, r);
    ParseHandwritten(h, q, join, r);
    PrintOfRead(h, Chain(join, [q, r]));
    PrintOfRead(h, both);
    PrintableReads(h, (_, _, _) => true, both);
  }

  lemma {:induction false} HandwrittenStarts(h: Host, q: Query, join: string, r: Query)
    ensures var s := Handwritten(h, q, join, r);
            s != "" && Trim(s) == s && s[0] == 'n' && Text(h, Negation(Chain(join, [q, r])))[0] == '('
  {
    hide Body, Trim;
    var s, last := Handwritten(h, q, join, r), Text(h, r);
    assert last[|last| - 1] == ')';
    assert s[0] == 'n' && s[|s| - 1] == last[|last| - 1];
    assert Trimmed(s);
  }

  /** A name without r and d spells no joining word, so its `pr` leaf is printable. */
  lemma {:induction false} WordPrints(h: Host, attr: string)
    requires attr != "" && IsBare(attr)
    requires forall i | 0 <= i < |attr| :: Lower(attr[i]) != 'r' && Lower(attr[i]) != 'd'
    ensures WellFormed(Present(attr)) && Printable(h, Present(attr))
  {
    hide IsBare, JoinFree, Lower;
    NoJoinLetters(h, false, attr, 'd');
  }
}
