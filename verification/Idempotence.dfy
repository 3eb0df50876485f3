/** The round-trip theorems about whole conditions. */
module Idempotence {
  import opened Options
  import opened Strings
  import opened Scanner
  import opened Conditions
  import opened Parser
  import opened Literals
  import opened Queries
  import opened Reading
  import opened RoundTrip
  import opened Meaning

  function AsParsedQuery(r: Parsed): ParsedQuery {
    match r
    case Read(c) => ParsedQuery(c, true)
    case Unreadable => ParsedQuery(Nil, false)
    case Stuck => Diverges
  }

  /** How the printed text of a condition reads back, told from the condition alone. */
  function Predicted(h: Host, c: Condition): ParsedQuery {
    match Shape(c)
    case None => ParsedQuery(Nil, true)
    case Some(q) => AsParsedQuery(Reread(h, q))
  }

  lemma {:induction false} ParseTextOrBody(h: Host, q: Query, text: string)
    requires WellFormed(q) && (text == Text(h, q) || text == Body(h, q))
    ensures ParseQuery(h, text) == AsParsedQuery(Reread(h, q))
  {
    BodyEnds(h, q);
    TextTrimmed(h, q);
    ParsePrinted(h, q);
  }

  /** For every condition with plain attributes, whatever else it holds, the parser's answer to the printed text is
      the predicted one. */
  lemma {:induction false} PrintThenParse(h: Host, c: Condition)
    requires PlainAttributes(c)
    ensures ParseQuery(h, CompileCondition(h, c)) == Predicted(h, c)
  {
    CompileShape(h, c);
    ShapeWellFormed(c);
    if Shape(c).Some? {
      ParseTextOrBody(h, Shape(c).value, CompileCondition(h, c));
    }
  }

  /** Printing a printable condition and parsing the text gives a tree with the same meaning. */
  lemma {:induction false} RoundTripKeepsMeaning(h: Host, c: Condition, env: Assignment)
    requires PlainAttributes(c) && Renders(c) && Shape(c).Some? && Printable(h, Shape(c).value)
    ensures var p := ParseQuery(h, CompileCondition(h, c));
            p.ParsedQuery? && p.simple && Renders(p.condition) && Holds(env, p.condition) == Holds(env, c)
  {
    PrintThenParse(h, c);
    ShapeMeaning(env, c);
    ShapeWellFormed(c);
    PrintableReads(h, env, Shape(c).value);
  }

  // ---------------------------------------------------------------- print after parse

  /** The query with every value in its normal form. */
  function NormQuery(q: Query): (r: Query)
    decreases q, 1
  {
    match q
    case Test(attr, op, arg) => Test(attr, op, Norm(arg))
    case Present(attr) => q
    case OneOf(attr, items) => OneOf(attr, NormAll(items))
    case Negation(query) => Negation(NormQuery(query))
    case Chain(join, parts) => Chain(join, NormQueries(parts))
  }

  function NormQueries(qs: seq<Query>): (r: seq<Query>)
    ensures |r| == |qs|
    ensures forall i | 0 <= i < |qs| :: r[i] == NormQuery(qs[i])
    decreases qs, 0
  {
    if qs == [] then [] else [NormQuery(qs[0])] + NormQueries(qs[1..])
  }

  lemma {:induction false} FormatItemsNorm(h: Host, items: seq<string>)
    ensures FormatItems(h, NormAll(items)) == FormatItems(h, items)
  {
    if items != [] {
      FormatNorm(h, items[0], Eq);
      FormatItemsNorm(h, items[1..]);
      NormAllCons(items);
    }
  }

  /** Normal values print the same. */
  lemma {:induction false} NormQueryText(h: Host, q: Query)
    ensures Body(h, NormQuery(q)) == Body(h, q) && Text(h, NormQuery(q)) == Text(h, q)
    decreases q, 1
  {
    match q {
      case Test(attr, op, arg) => FormatNorm(h, arg, op);
      case Present(attr) =>
      case OneOf(attr, items) => FormatItemsNorm(h, items);
      case Negation(query) => NormQueryText(h, query);
      case Chain(join, parts) => NormQueriesText(h, parts);
    }
  }

  lemma {:induction false} NormQueriesText(h: Host, qs: seq<Query>)
    ensures Texts(h, NormQueries(qs)) == Texts(h, qs)
    decreases qs, 0
  {
    if qs != [] {
      NormQueryText(h, qs[0]);
      NormQueriesText(h, qs[1..]);
    }
  }

  lemma {:induction false} NormQueryWellFormed(q: Query)
    requires WellFormed(q)
    ensures WellFormed(NormQuery(q))
    decreases q
  {
    match q {
      case OneOf(attr, items) => NormAllItems(items);
      case Negation(query) => NormQueryWellFormed(query);
      case Chain(join, parts) =>
        forall i | 0 <= i < |parts|
          ensures WellFormed(NormQuery(parts[i]))
        {
          NormQueryWellFormed(parts[i]);
        }
      case _ =>
    }
  }

  lemma {:induction false} LeafShapeBack(h: Host, q: Query)
    requires IsLeafQuery(q) && WellFormed(q)
    ensures Shape(LeafCondition(q)) == Some(NormQuery(q))
  {
    hide LookupOperator, SplitList, Norm, Key, Join, NormAll, Trim, IsBare;
    LookupLists();
    PlainTrim(q.attr);
    match q {
      case Test(attr, op, arg) => LookupKey(op);
      case Present(attr) =>
      case OneOf(attr, items) =>
        NormAllItems(items);
        SplitListJoin(NormAll(items));
    }
  }

  lemma {:induction false} NotInShapeBack(attr: string, items: seq<string>)
    requires WellFormed(OneOf(attr, items))
    ensures Shape(Leaf(attr, "notin", Join(NormAll(items), ", "))) == Some(Negation(OneOf(attr, NormAll(items))))
  {
    hide LookupOperator, SplitList, Norm, Key, Join, NormAll, Trim, IsBare;
    LookupLists();
    PlainTrim(attr);
    NormAllItems(items);
    SplitListJoin(NormAll(items));
  }

  /** What is read of a printable query has that query as its shape, up to normal values. */
  lemma {:induction false} RereadShape(h: Host, q: Query)
    requires WellFormed(q) && Printable(h, q)
    ensures var r := Reread(h, q);
            && r.Read? && Shape(r.c) == Some(NormQuery(q))
            && (IsGroup(r.c) && r.c.negated ==> q.Negation? && !q.query.OneOf?)
            && (IsGroup(r.c) && !r.c.negated ==> q.Chain?)
    decreases q, 1
  {
    match q {
      case Negation(query) =>
        if query.OneOf? {
          NotInShapeBack(query.attr, query.items);
        } else {
          RereadShape(h, query);
          NegateShape(Reread(h, query).c);
        }
      case Chain(join, parts) =>
        RereadAllShape(h, parts);
      case _ =>
        LeafShapeBack(h, q);
    }
  }

  lemma {:induction false} NegateShape(c: Condition)
    requires Shape(c).Some? && !(IsGroup(c) && c.negated)
    ensures Shape(Negate(c)) == Some(Negation(Shape(c).value))
  {
    if !IsGroup(c) {
      assert ShapeAll([c]) == [Shape(c).value] + ShapeAll([c][1..]);
      assert [c][1..] == [];
    }
  }

  lemma {:induction false} RereadAllShape(h: Host, qs: seq<Query>)
    requires forall i | 0 <= i < |qs| :: WellFormed(qs[i]) && Printable(h, qs[i])
    ensures var r := RereadAll(h, qs); r.ReadAll? && ShapeAll(r.cs) == NormQueries(qs)
    decreases qs, 0
  {
    if qs != [] {
      RereadShape(h, qs[0]);
      RereadAllShape(h, qs[1..]);
      var c, cs := Reread(h, qs[0]).c, RereadAll(h, qs[1..]).cs;
      assert ([c] + cs)[1..] == cs;
    }
  }

  /** The tree read from printed text is a fixed point: printing it and parsing again gives the very same tree,
      and the text it prints as is the text that was read, but for one outer pair of parentheses. */
  lemma {:induction false} ParseThenPrint(h: Host, c: Condition)
    requires PlainAttributes(c) && Shape(c).Some? && Printable(h, Shape(c).value)
    ensures
      var p := ParseQuery(h, CompileCondition(h, c));
      && p.ParsedQuery? && p.simple
      && ParseQuery(h, CompileCondition(h, p.condition)) == p
      && Compile(h, p.condition, false) == Compile(h, c, false)
  {
    var q := Shape(c).value;
    PrintThenParse(h, c);
    ShapeWellFormed(c);
    RereadShape(h, q);
    var d := Reread(h, q).c;
    CompileShape(h, c);
    CompileShape(h, d);
    NormQueryText(h, q);
    NormQueryWellFormed(q);
    ParseTextOrBody(h, q, CompileCondition(h, d));
  }

  // ---------------------------------------------------------------- where the code falls short

  lemma {:induction false} NameIsPlain(h: Host)
    ensures IsAttribute("name") && Trim("name") == "name" && JoinFree(h, false, "name")
  {
    NoJoinLetters(h, false, "name", 'd');
  }

  lemma {:induction false} ParenthesisExposed()
    ensures HasParens(Norm("("))
  {
    assert Trim("(") == "(" && "("[0] == '(';
    assert |ToLower("(")| == 1;
  }

  /** A quoted value with a parenthesis in it: the printed condition is balanced, and the parser never ends on it. */
  lemma {:induction false} ParenthesisDiverges(h: Host)
    ensures ParseQuery(h, CompileCondition(h, Leaf("name", "eq", "("))) == Diverges
  {
    hide Trim, HasParens, Norm, JoinFree, LookupOperator, IsBare, CompileCondition, ParseQuery, Key;
    var c := Leaf("name", "eq", "(");
    LookupEq();
    NameIsPlain(h);
    ParenthesisExposed();
    assert Shape(c) == Some(Test("name", Eq, "("));
    PrintThenParse(h, c);
  }

  lemma {:induction false} LookupEq()
    ensures LookupOperator("eq") == Some(Eq)
  {
    LookupKey(Eq);
  }

  lemma {:induction false} SingleShape(c: Condition, negated: bool)
    requires Shape(c).Some?
    ensures var g := Cond("and", negated, [c], "", "", "");
            Shape(g) == Some(if negated then Negation(Shape(c).value) else Shape(c).value)
  {
    assert [c][1..] == [];
    assert ShapeAll([c]) == [Shape(c).value] + ShapeAll([c][1..]);
  }

  /** A double negation loses one of its two negations. */
  lemma {:induction false} DoubleNegationIsLost(h: Host)
    ensures var inner := NotGroup("and", [Leaf("name", "pr", "")]);
            ParseQuery(h, CompileCondition(h, NotGroup("and", [inner]))) == ParsedQuery(Group("and", [inner]), true)
  {
    hide Trim, HasParens, Norm, JoinFree, LookupOperator, IsBare, CompileCondition, ParseQuery, Key;
    var leaf := Leaf("name", "pr", "");
    var inner := NotGroup("and", [leaf]);
    LookupLists();
    NameIsPlain(h);
    assert Shape(leaf) == Some(Present("name"));
    SingleShape(leaf, true);
    SingleShape(inner, true);
    PrintThenParse(h, NotGroup("and", [inner]));
    assert Reread(h, Negation(Present("name"))) == Read(inner);
  }
}
