/** The meaning of conditions, and how far printing and parsing keep it. */
module Meaning {
  import opened Options
  import opened Strings
  import opened Scanner
  import opened Conditions
  import opened Parser
  import opened Literals
  import opened Queries
  import opened Reading
  import opened RoundTrip

  /** Which tests hold of some user: attribute, operator and normal value. Only `eq` has a further meaning here:
      `ne`, `in` and `notin` are told from it. */
  type Assignment = (string, Operator, string) -> bool

  predicate EqualsSome(env: Assignment, attr: string, items: seq<string>) {
    exists i | 0 <= i < |items| :: env(attr, Eq, Norm(items[i]))
  }

  predicate TestHolds(env: Assignment, attr: string, op: Operator, value: string) {
    match op
    case Ne => !env(attr, Eq, Norm(value))
    case In => EqualsSome(env, attr, SplitList(value))
    case NotIn => !EqualsSome(env, attr, SplitList(value))
    case Pr => env(attr, Pr, "")
    case _ => env(attr, op, Norm(value))
  }

  /** A condition with anything to print: a leaf with an attribute and a known operator, or a group with such a
      part. The other rows of the builder are unfinished and say nothing. */
  predicate Renders(c: Condition)
    decreases c
  {
    c.Cond? &&
    if IsGroup(c) then exists i | 0 <= i < |c.children| :: Renders(c.children[i])
    else Trim(c.attribute) != "" && LookupOperator(c.operator).Some?
  }

  /** What a condition says about a user. */
  predicate Holds(env: Assignment, c: Condition)
    requires Renders(c)
    decreases c
  {
    if IsGroup(c) then
      c.negated !=
      (if c.op == "and" then forall i | 0 <= i < |c.children| && Renders(c.children[i]) :: Holds(env, c.children[i])
       else exists i | 0 <= i < |c.children| && Renders(c.children[i]) :: Holds(env, c.children[i]))
    else TestHolds(env, Trim(c.attribute), LookupOperator(c.operator).value, c.value)
  }

  /** What a query says about a user. */
  predicate Means(env: Assignment, q: Query)
    decreases q
  {
    match q
    case Test(attr, op, arg) => TestHolds(env, attr, op, arg)
    case Present(attr) => TestHolds(env, attr, Pr, "")
    case OneOf(attr, items) => EqualsSome(env, attr, items)
    case Negation(query) => !Means(env, query)
    case Chain(join, parts) =>
      if join == "and" then forall i | 0 <= i < |parts| :: Means(env, parts[i])
      else exists i | 0 <= i < |parts| :: Means(env, parts[i])
  }

  predicate AllMean(env: Assignment, qs: seq<Query>) {
    forall i | 0 <= i < |qs| :: Means(env, qs[i])
  }

  predicate SomeMeans(env: Assignment, qs: seq<Query>) {
    exists i | 0 <= i < |qs| :: Means(env, qs[i])
  }

  predicate AllHold(env: Assignment, cs: seq<Condition>) {
    forall i | 0 <= i < |cs| && Renders(cs[i]) :: Holds(env, cs[i])
  }

  predicate SomeHolds(env: Assignment, cs: seq<Condition>) {
    exists i | 0 <= i < |cs| && Renders(cs[i]) :: Holds(env, cs[i])
  }

  predicate AnyRenders(cs: seq<Condition>) {
    exists i | 0 <= i < |cs| :: Renders(cs[i])
  }

  // ---------------------------------------------------------------- conditions and their shapes

  lemma {:induction false} LeafMeaning(env: Assignment, c: Condition)
    requires c.Cond? && !IsGroup(c)
    ensures Renders(c) <==> LeafShape(c).Some?
    ensures Renders(c) ==> Holds(env, c) == Means(env, LeafShape(c).value)
  {
    hide LookupOperator, SplitList, Norm, Trim;
    if Renders(c) {
      var op := LookupOperator(c.operator).value;
      if op == In || op == NotIn {
        var items := SplitList(c.value);
        var attr := Trim(c.attribute);
        if |items| == 1 {
          assert EqualsSome(env, attr, items) == env(attr, Eq, Norm(items[0]));
        }
      }
    }
  }

  lemma {:induction false} ConsPredicates(env: Assignment, c: Condition, rest: seq<Condition>)
    ensures AnyRenders([c] + rest) == (Renders(c) || AnyRenders(rest))
    ensures AllHold(env, [c] + rest) == ((Renders(c) ==> Holds(env, c)) && AllHold(env, rest))
    ensures SomeHolds(env, [c] + rest) == ((Renders(c) && Holds(env, c)) || SomeHolds(env, rest))
  {
    var cs := [c] + rest;
    assert cs[0] == c;
    forall i | 0 <= i < |rest|
      ensures rest[i] == cs[i + 1]
    {
    }
    if AnyRenders(cs) {
      var i :| 0 <= i < |cs| && Renders(cs[i]);
      assert i > 0 ==> cs[i] == rest[i - 1];
    }
    if SomeHolds(env, cs) {
      var i :| 0 <= i < |cs| && Renders(cs[i]) && Holds(env, cs[i]);
      assert i > 0 ==> cs[i] == rest[i - 1];
    }
    forall i | AllHold(env, rest) && (Renders(c) ==> Holds(env, c)) && 0 <= i < |cs| && Renders(cs[i])
      ensures Holds(env, cs[i])
    {
      assert i > 0 ==> cs[i] == rest[i - 1];
    }
  }

  lemma {:induction false} ConsQueries(env: Assignment, q: Query, rest: seq<Query>)
    ensures AllMean(env, [q] + rest) == (Means(env, q) && AllMean(env, rest))
    ensures SomeMeans(env, [q] + rest) == (Means(env, q) || SomeMeans(env, rest))
  {
    var qs := [q] + rest;
    assert qs[0] == q;
    forall i | 0 <= i < |rest|
      ensures rest[i] == qs[i + 1]
    {
    }
    if SomeMeans(env, qs) {
      var i :| 0 <= i < |qs| && Means(env, qs[i]);
      assert i > 0 ==> qs[i] == rest[i - 1];
    }
    forall i | AllMean(env, rest) && Means(env, q) && 0 <= i < |qs|
      ensures Means(env, qs[i])
    {
      assert i > 0 ==> qs[i] == rest[i - 1];
    }
  }

  /** Dropping what does not render and collapsing single-child groups keeps the meaning. */
  lemma {:induction false} ShapeMeaning(env: Assignment, c: Condition)
    ensures Renders(c) <==> Shape(c).Some?
    ensures Renders(c) ==> Holds(env, c) == Means(env, Shape(c).value)
    decreases c, 1
  {
    hide LookupOperator, LeafShape, TestHolds, Trim;
    if c.Cond? {
      if IsGroup(c) {
        ShapeAllMeaning(env, c.children);
        var parts := ShapeAll(c.children);
        assert Renders(c) == AnyRenders(c.children);
        if |parts| == 1 {
          assert AllMean(env, parts) == Means(env, parts[0]) == SomeMeans(env, parts);
        } else if |parts| > 1 {
          assert Means(env, Chain(c.op, parts)) == if c.op == "and" then AllMean(env, parts) else SomeMeans(env, parts);
        }
      } else {
        LeafMeaning(env, c);
      }
    }
  }

  lemma {:induction false} ShapeAllMeaning(env: Assignment, cs: seq<Condition>)
    ensures AnyRenders(cs) <==> ShapeAll(cs) != []
    ensures AllHold(env, cs) == AllMean(env, ShapeAll(cs))
    ensures SomeHolds(env, cs) == SomeMeans(env, ShapeAll(cs))
    decreases cs, 0
  {
    if cs != [] {
      assert cs == [cs[0]] + cs[1..];
      ShapeMeaning(env, cs[0]);
      ShapeAllMeaning(env, cs[1..]);
      ConsPredicates(env, cs[0], cs[1..]);
      if Shape(cs[0]).Some? {
        ConsQueries(env, Shape(cs[0]).value, ShapeAll(cs[1..]));
      }
    }
  }

  /** Every attribute in use is free of white space, quotes, brackets and parentheses. */
  predicate PlainAttributes(c: Condition)
    decreases c
  {
    c.Cond? ==>
      if IsGroup(c) then forall i | 0 <= i < |c.children| :: PlainAttributes(c.children[i])
      else IsBare(Trim(c.attribute))
  }

  lemma {:induction false} ShapeWellFormed(c: Condition)
    requires PlainAttributes(c)
    ensures Shape(c).Some? ==> WellFormed(Shape(c).value)
    decreases c, 1
  {
    hide LookupOperator, SplitList, Trim, IsBare;
    if c.Cond? {
      if IsGroup(c) {
        ShapeAllWellFormed(c.children);
      } else {
        SplitListItems(c.value);
      }
    }
  }

  lemma {:induction false} ShapeAllWellFormed(cs: seq<Condition>)
    requires forall i | 0 <= i < |cs| :: PlainAttributes(cs[i])
    ensures forall i | 0 <= i < |ShapeAll(cs)| :: WellFormed(ShapeAll(cs)[i])
    decreases cs, 0
  {
    if cs != [] {
      ShapeWellFormed(cs[0]);
      ShapeAllWellFormed(cs[1..]);
    }
  }

  /** Names made of word characters are plain, and only `and` and `or` among them are cut. */
  lemma {:induction false} WordAttribute(h: Host, a: string)
    requires IsWord(h, a)
    ensures IsAttribute(a)
    ensures JoinFree(h, false, a) <==> !IsJoinWord(a)
  {
    hide ToLower, IsBare, Word;
    WordRunesAreBare(h, a);
    assert a + "" == a;
    WordLongest(h, a, "");
    assert a[|a|..] == "";
    if !IsLetter(h, a[0]) {
      WordTail(h, a[1..]);
      assert ToLower(a)[0] == Lower(a[0]);
    }
  }

  /** In particular the names of letters, digits, underscores, dots and hyphens: `opt-in.or-out` is one attribute. */
  lemma {:induction false} NameAttribute(h: Host, a: string)
    requires a != "" && forall i | 0 <= i < |a| ::
               || 'a' <= a[i] <= 'z' || 'A' <= a[i] <= 'Z' || '0' <= a[i] <= '9'
               || a[i] == '_' || a[i] == '.' || a[i] == '-'
    ensures IsAttribute(a)
    ensures JoinFree(h, false, a) <==> ToLower(a) != "and" && ToLower(a) != "or"
  {
    hide ToLower;
    WordAttribute(h, a);
  }

  lemma {:induction false} WordRunesAreBare(h: Host, a: string)
    requires IsWord(h, a)
    ensures IsBare(a)
  {
  }

  lemma {:induction false} WordTail(h: Host, a: string)
    requires forall i | 0 <= i < |a| :: IsWordRune(h, a[i])
    ensures JoinFree(h, true, a)
    decreases |a|
  {
    if a != "" {
      WordTail(h, a[1..]);
    }
  }

  // ---------------------------------------------------------------- reading back

  /** No negation directly inside another, except around a list leaf, and nothing that `Reread` refuses. */
  predicate Printable(h: Host, q: Query)
    decreases q
  {
    match q
    case Negation(query) =>
      query.OneOf? || ((query.Negation? ==> query.query.OneOf?) && Printable(h, query))
    case Chain(_, parts) => forall i | 0 <= i < |parts| :: Printable(h, parts[i])
    case _ => JoinFree(h, false, q.attr) && !Exposed(q)
  }

  /** A printable query is read, and the tree read says the same about every user. */
  lemma {:induction false} PrintableReads(h: Host, env: Assignment, q: Query)
    requires WellFormed(q) && Printable(h, q)
    ensures var r := Reread(h, q);
            && r.Read? && Renders(r.c) && Holds(env, r.c) == Means(env, q)
            && (IsGroup(r.c) && r.c.negated ==> q.Negation? && !q.query.OneOf?)
    decreases q, 1
  {
    match q {
      case Negation(query) =>
        if query.OneOf? {
          ReadNotInMeaning(env, query.attr, query.items);
        } else {
          PrintableReads(h, env, query);
          var c := Reread(h, query).c;
          NegateMeaning(env, c);
        }
      case Chain(join, parts) =>
        PrintablePartsRead(h, env, parts);
        var cs := RereadAll(h, parts).cs;
        assert AnyRenders(cs) == Renders(Group(join, cs));
      case _ =>
        ReadLeafMeaning(env, q);
    }
  }

  lemma {:induction false} PrintablePartsRead(h: Host, env: Assignment, parts: seq<Query>)
    requires forall i | 0 <= i < |parts| :: WellFormed(parts[i]) && Printable(h, parts[i])
    ensures var r := RereadAll(h, parts);
            && r.ReadAll? && |r.cs| == |parts|
            && (AnyRenders(r.cs) <==> parts != [])
            && AllHold(env, r.cs) == AllMean(env, parts)
            && SomeHolds(env, r.cs) == SomeMeans(env, parts)
    decreases parts, 0
  {
    hide LookupOperator, SplitList, Norm, Key, Join, NormAll;
    hide Renders, Holds, Means, Printable, Reread;
    if parts != [] {
      PrintableReads(h, env, parts[0]);
      PrintablePartsRead(h, env, parts[1..]);
      assert parts == [parts[0]] + parts[1..];
      ConsPredicates(env, Reread(h, parts[0]).c, RereadAll(h, parts[1..]).cs);
      ConsQueries(env, parts[0], parts[1..]);
    }
  }

  /** Negating a condition turns its meaning round, unless it was a negated group already: then the new negation
      is dropped. */
  lemma {:induction false} NegateMeaning(env: Assignment, c: Condition)
    requires Renders(c)
    ensures Renders(Negate(c))
    ensures Holds(env, Negate(c)) == if IsGroup(c) && c.negated then Holds(env, c) else !Holds(env, c)
  {
    if IsGroup(c) && !c.negated {
      var n := c.(negated := true);
      assert AnyRenders(n.children);
      assert Holds(env, n) != Holds(env, c);
    } else {
      var wrapped := Negate(c);
      assert wrapped.children == [c] && wrapped.children[0] == c;
      assert Renders(wrapped);
    }
  }

  lemma {:induction false} SomeNormItem(env: Assignment, attr: string, items: seq<string>)
    requires AreItems(items)
    ensures EqualsSome(env, attr, SplitList(Join(NormAll(items), ", "))) == EqualsSome(env, attr, items)
  {
    var norms := NormAll(items);
    NormAllItems(items);
    SplitListJoin(norms);
    assert forall i | 0 <= i < |items| :: Norm(norms[i]) == NormAll(norms)[i] == norms[i] == Norm(items[i]);
  }

  lemma {:induction false} PlainTrim(a: string)
    requires IsAttribute(a)
    ensures Trim(a) == a != ""
  {
  }

  lemma {:induction false} LookupLists()
    ensures LookupOperator("notin") == Some(NotIn)
    ensures LookupOperator("in") == Some(In)
    ensures LookupOperator("pr") == Some(Pr)
  {
    LookupKey(NotIn);
    LookupKey(In);
    LookupKey(Pr);
  }

  lemma {:induction false} ReadNotInMeaning(env: Assignment, attr: string, items: seq<string>)
    requires WellFormed(OneOf(attr, items))
    ensures var c := Leaf(attr, "notin", Join(NormAll(items), ", "));
            Renders(c) && Holds(env, c) == !EqualsSome(env, attr, items)
  {
    hide LookupOperator, SplitList, Norm, Key, Join, NormAll, Trim, IsBare, EqualsSome;
    LookupLists();
    SomeNormItem(env, attr, items);
    PlainTrim(attr);
  }

  lemma {:induction false} ReadInMeaning(env: Assignment, attr: string, items: seq<string>)
    requires WellFormed(OneOf(attr, items))
    ensures var c := Leaf(attr, "in", Join(NormAll(items), ", "));
            Renders(c) && Holds(env, c) == EqualsSome(env, attr, items)
  {
    hide LookupOperator, SplitList, Norm, Key, Join, NormAll, Trim, IsBare, EqualsSome;
    LookupLists();
    SomeNormItem(env, attr, items);
    PlainTrim(attr);
  }

  lemma {:induction false} ReadTestMeaning(env: Assignment, attr: string, op: Operator, arg: string)
    requires WellFormed(Test(attr, op, arg))
    ensures var c := Leaf(attr, Key(op), Norm(arg));
            Renders(c) && Holds(env, c) == TestHolds(env, attr, op, arg)
  {
    hide LookupOperator, SplitList, Norm, Key, Join, NormAll, Trim, IsBare, EqualsSome;
    LookupKey(op);
    NormTwice(arg);
    PlainTrim(attr);
  }

  lemma {:induction false} ReadLeafMeaning(env: Assignment, q: Query)
    requires IsLeafQuery(q) && WellFormed(q)
    ensures Renders(LeafCondition(q)) && Holds(env, LeafCondition(q)) == Means(env, q)
  {
    hide LookupOperator, SplitList, Norm, Key, Join, NormAll, Trim, IsBare, EqualsSome;
    match q {
      case Test(attr, op, arg) =>
        ReadTestMeaning(env, attr, op, arg);
      case Present(attr) =>
        LookupLists();
        PlainTrim(attr);
      case OneOf(attr, items) =>
        ReadInMeaning(env, attr, items);
    }
  }

  // ---------------------------------------------------------------- and only then

  /** The query is read, and what is read says the same about every user. */
  ghost predicate ReadsTrue(h: Host, q: Query) {
    Reread(h, q).Read? && Renders(Reread(h, q).c) &&
    forall env: Assignment :: Holds(env, Reread(h, q).c) == Means(env, q)
  }

  /** And so does every query inside it. A negated list leaf is one unit. */
  ghost predicate ReadsTrueThroughout(h: Host, q: Query)
    decreases q
  {
    ReadsTrue(h, q) &&
    match q
    case Negation(query) => query.OneOf? || ReadsTrueThroughout(h, query)
    case Chain(_, parts) => forall i | 0 <= i < |parts| :: ReadsTrueThroughout(h, parts[i])
    case _ => true
  }

  /** A negation of a negation reads back as its exact opposite, for every user. */
  lemma {:induction false} DoubleNegationReadsOpposite(h: Host, env: Assignment, q: Query)
    requires WellFormed(q) && Printable(h, Negation(q)) && !q.OneOf?
    ensures var r := Reread(h, Negation(Negation(q)));
            r.Read? && Renders(r.c) && Holds(env, r.c) == !Means(env, Negation(Negation(q)))
  {
    hide LookupOperator, SplitList, Norm, Key, Join, NormAll, Trim, IsBare, EqualsSome, LeafCondition, TestHolds,
         RereadAll;
    PrintableReads(h, env, Negation(q));
    PrintableReads(h, env, q);
    var inner := Reread(h, Negation(q)).c;
    assert inner == Negate(Reread(h, q).c);
    assert IsGroup(inner) && inner.negated;
    NegateMeaning(env, inner);
  }

  /** Printing and parsing keep the meaning of a query and of all its parts exactly when it is printable. */
  lemma {:induction false} ReadsTrueIffPrintable(h: Host, q: Query)
    requires WellFormed(q)
    ensures ReadsTrueThroughout(h, q) <==> Printable(h, q)
    decreases q
  {
    if Printable(h, q) {
      forall env: Assignment
        ensures Reread(h, q).Read? && Renders(Reread(h, q).c) && Holds(env, Reread(h, q).c) == Means(env, q)
      {
        PrintableReads(h, env, q);
      }
      PrintableReads(h, (_, _, _) => true, q);
      assert ReadsTrue(h, q);
    }
    match q {
      case Negation(query) =>
        if !query.OneOf? {
          ReadsTrueIffPrintable(h, query);
          if ReadsTrueThroughout(h, q) && query.Negation? && !query.query.OneOf? {
            DoubleNegationReadsOpposite(h, (_, _, _) => true, query.query);
            assert false;
          }
        }
      case Chain(_, parts) =>
        forall i | 0 <= i < |parts|
          ensures ReadsTrueThroughout(h, parts[i]) <==> Printable(h, parts[i])
        {
          ReadsTrueIffPrintable(h, parts[i]);
        }
      case _ =>
    }
  }
}
