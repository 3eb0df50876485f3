/** The language that `compile` prints: what a condition looks like once unrenderable parts are dropped and
    single-child groups collapsed, and how its text is built. */
module Queries {
  import opened Options
  import opened Strings
  import opened Scanner
  import opened Conditions
  import opened Parser
  import opened Literals

  datatype Query =
    | Test(attr: string, op: Operator, arg: string)
    | Present(attr: string)
    | OneOf(attr: string, items: seq<string>)
    | Negation(query: Query)
    | Chain(join: string, parts: seq<Query>)

  /** An attribute name that one scan step cannot break: not blank, and no white space, quote, bracket or
      parenthesis. Every run of word characters is one. */
  predicate IsAttribute(a: string) {
    a != "" && IsBare(a)
  }

  predicate WellFormed(q: Query) {
    match q
    case Test(attr, op, _) => IsAttribute(attr) && Arity(op) == 1
    case Present(attr) => IsAttribute(attr)
    case OneOf(attr, items) => IsAttribute(attr) && AreItems(items) && |items| != 1
    case Negation(query) => WellFormed(query)
    case Chain(join, parts) =>
      (join == "and" || join == "or") && |parts| >= 2 && forall i | 0 <= i < |parts| :: WellFormed(parts[i])
  }

  predicate IsLeafQuery(q: Query) {
    q.Test? || q.Present? || q.OneOf?
  }

  /** What follows the attribute in a leaf. */
  function Tail(h: Host, q: Query): string
    requires IsLeafQuery(q)
  {
    match q
    case Test(_, op, arg) => Key(op) + " " + FormatValue(h, arg, op)
    case Present(_) => "pr"
    case OneOf(_, items) => "in " + ListText(h, items)
  }

  /** The text of a query without its outer parentheses. */
  function Body(h: Host, q: Query): string
    decreases q, 0
  {
    match q
    case Negation(query) => "not " + Text(h, query)
    case Chain(join, parts) => Join(Texts(h, parts), " " + join + " ")
    case _ => q.attr + " " + Tail(h, q)
  }

  function Text(h: Host, q: Query): string
    decreases q, 1
  {
    "(" + Body(h, q) + ")"
  }

  function Texts(h: Host, qs: seq<Query>): (r: seq<string>)
    ensures |r| == |qs|
    ensures forall i | 0 <= i < |qs| :: r[i] == Text(h, qs[i])
    decreases qs, 0
  {
    if qs == [] then [] else [Text(h, qs[0])] + Texts(h, qs[1..])
  }

  // ---------------------------------------------------------------- from conditions

  function LeafShape(c: Condition): Option<Query>
    requires c.Cond?
  {
    var attr := Trim(c.attribute);
    if attr == "" then None else
    match LookupOperator(c.operator)
    case None => None
    case Some(Pr) => Some(Present(attr))
    case Some(In) =>
      var items := SplitList(c.value);
      Some(if |items| == 1 then Test(attr, Eq, items[0]) else OneOf(attr, items))
    case Some(NotIn) =>
      var items := SplitList(c.value);
      Some(if |items| == 1 then Test(attr, Ne, items[0]) else Negation(OneOf(attr, items)))
    case Some(op) => Some(Test(attr, op, c.value))
  }

  /** The query a condition prints as, if it prints at all. */
  function Shape(c: Condition): Option<Query>
    decreases c, 1
  {
    if c == Nil then None
    else if IsGroup(c) then
      var parts := ShapeAll(c.children);
      if |parts| == 0 then None
      else
        var q := if |parts| == 1 then parts[0] else Chain(c.op, parts);
        Some(if c.negated then Negation(q) else q)
    else LeafShape(c)
  }

  function ShapeAll(cs: seq<Condition>): seq<Query>
    decreases cs, 0
  {
    if cs == [] then []
    else
      var rest := ShapeAll(cs[1..]);
      match Shape(cs[0])
      case None => rest
      case Some(q) => [q] + rest
  }

  /** Printing a condition is printing its shape. */
  lemma {:induction false} CompileShape(h: Host, c: Condition)
    ensures Compile(h, c, false) == (match Shape(c) case None => None case Some(q) => Some(Text(h, q)))
    ensures match Compile(h, c, true)
            case None => Shape(c) == None
            case Some(text) => Shape(c).Some? && (text == Text(h, Shape(c).value) || text == Body(h, Shape(c).value))
    decreases c, 1
  {
    if c != Nil {
      if IsGroup(c) {
        CompileAllShape(h, c.children);
        var parts := ShapeAll(c.children);
        if |parts| == 1 && c.negated {
          WrappedNot(Text(h, parts[0]));
        } else if |parts| > 1 && c.negated {
          var q := Chain(c.op, parts);
          WrappedNotGroup(Body(h, q));
          assert Body(h, Negation(q)) == "not " + Text(h, q);
        }
      } else {
        CompileLeafShape(h, c);
      }
    }
  }

  lemma {:induction false} CompileAllShape(h: Host, cs: seq<Condition>)
    ensures CompileAll(h, cs) == Texts(h, ShapeAll(cs))
    decreases cs, 0
  {
    if cs != [] {
      CompileShape(h, cs[0]);
      CompileAllShape(h, cs[1..]);
    }
  }

  lemma {:induction false} Wrapped2(attr: string, key: string)
    ensures "(" + (attr + " " + key) + ")" == "(" + attr + " " + key + ")"
  {
  }

  lemma {:induction false} Wrapped3(attr: string, key: string, arg: string)
    ensures "(" + (attr + " " + (key + " " + arg)) + ")" == "(" + attr + " " + key + " " + arg + ")"
  {
    assert attr + " " + (key + " " + arg) == attr + " " + key + " " + arg;
  }

  lemma {:induction false} Spaced(attr: string, key: string)
    ensures "(" + attr + " " + key + " " == "(" + attr + (" " + key + " ")
  {
  }

  lemma {:induction false} WrappedNot(text: string)
    ensures "(" + ("not " + text) + ")" == "(not " + text + ")"
  {
  }

  lemma {:induction false} WrappedNotGroup(joined: string)
    ensures "(" + ("not " + ("(" + joined + ")")) + ")" == "(not (" + joined + "))"
  {
  }

  lemma {:induction false} TestText(h: Host, attr: string, op: Operator, arg: string)
    ensures var lit := FormatValue(h, arg, op);
            Text(h, Test(attr, op, arg)) == "(" + attr + " " + Key(op) + " " + lit + ")"
  {
    Wrapped3(attr, Key(op), FormatValue(h, arg, op));
  }

  lemma {:induction false} SingleItemText(h: Host, attr: string, item: string)
    ensures Text(h, Test(attr, Eq, item)) == "(" + attr + " eq " + FormatValue(h, item, Eq) + ")"
    ensures Text(h, Test(attr, Ne, item)) == "(" + attr + " ne " + FormatValue(h, item, Ne) + ")"
  {
    TestText(h, attr, Eq, item);
    TestText(h, attr, Ne, item);
    Spaced(attr, "eq");
    Spaced(attr, "ne");
    assert " " + "eq" + " " == " eq " && " " + "ne" + " " == " ne ";
  }

  lemma {:induction false} ListLeafText(h: Host, attr: string, value: string)
    ensures var items, list := SplitList(value), FormatList(h, value);
      && Text(h, OneOf(attr, items)) == "(" + attr + " in " + list + ")"
      && Text(h, OneOf(attr, items)) == "(" + attr + " " + "in" + " " + list + ")"
      && Text(h, Negation(OneOf(attr, items))) == "(not (" + attr + " in " + list + "))"
  {
    var list := FormatList(h, value);
    Wrapped3(attr, "in", list);
    assert "in" + " " == "in ";
    Spaced(attr, "in");
    assert " " + "in" + " " == " in ";
    WrappedNotGroup(attr + " " + ("in " + list));
    assert attr + " " + ("in " + list) == attr + " in " + list;
    assert "(not (" + (attr + " in " + list) + "))" == "(not (" + attr + " in " + list + "))";
  }

  lemma {:induction false} CompileLeafShape(h: Host, c: Condition)
    requires c.Cond?
    ensures CompileLeaf(h, c) == (match LeafShape(c) case None => None case Some(q) => Some(Text(h, q)))
  {
    hide Trim, LookupOperator, SplitList, FormatValue, FormatList;
    var attr := Trim(c.attribute);
    var lookup := LookupOperator(c.operator);
    if attr != "" && lookup.Some? {
      var op := lookup.value;
      if Arity(op) == 0 {
        Wrapped2(attr, "pr");
      } else if Arity(op) == 1 {
        TestText(h, attr, op, c.value);
      } else {
        var items := SplitList(c.value);
        if |items| == 1 {
          SingleItemText(h, attr, items[0]);
        }
        ListLeafText(h, attr, c.value);
      }
    }
  }

  // ---------------------------------------------------------------- balance

  lemma {:induction false} NestTail(h: Host, q: Query, depth: nat)
    requires IsLeafQuery(q)
    ensures NestAll(Nested(Plain, depth), Tail(h, q)) == Nested(Plain, depth)
  {
    var st := Nested(Plain, depth);
    match q
    case Test(_, op, arg) =>
      NestBare(depth, Key(op));
      NestFormat(h, arg, op, depth);
      NestConcat(st, Key(op), " ");
      NestConcat(st, Key(op) + " ", FormatValue(h, arg, op));
      assert NestAll(st, " ") == st;
    case Present(_) =>
      NestBare(depth, "pr");
    case OneOf(_, items) =>
      NestBare(depth, "in");
      NestList(h, items, depth);
      NestConcat(st, "in", " ");
      assert "in" + " " == "in ";
      NestConcat(st, "in ", ListText(h, items));
      assert NestAll(st, " ") == st;
  }

  /** Every printed query is balanced, at any depth. */
  lemma {:induction false} NestBody(h: Host, q: Query, depth: nat)
    requires WellFormed(q)
    ensures NestAll(Nested(Plain, depth), Body(h, q)) == Nested(Plain, depth)
    ensures NestAll(Nested(Plain, depth), Text(h, q)) == Nested(Plain, depth)
    decreases q, 1
  {
    hide FormatValue, Join, Texts, Tail;
    var st := Nested(Plain, depth);
    match q {
      case Negation(query) =>
        NestBody(h, query, depth);
        NestBare(depth, "not");
        NestConcat(st, "not", " ");
        assert "not" + " " == "not ";
        assert NestAll(st, " ") == st;
        NestConcat(st, "not ", Text(h, query));
      case Chain(join, parts) =>
        NestChain(h, join, parts, depth);
      case _ =>
        NestBare(depth, q.attr);
        NestTail(h, q, depth);
        NestConcat(st, q.attr, " ");
        NestConcat(st, q.attr + " ", Tail(h, q));
        assert NestAll(st, " ") == st;
    }
    NestWrapped(Body(h, q), depth);
  }

  lemma {:induction false} NestWrapped(body: string, depth: nat)
    requires NestAll(Nested(Plain, depth), body) == Nested(Plain, depth)
    ensures NestAll(Nested(Plain, depth), "(" + body + ")") == Nested(Plain, depth)
  {
    var st := Nested(Plain, depth);
    NestDeeper(Plain, depth, body);
    NestConcat(st, "(", body);
    NestConcat(st, "(" + body, ")");
    assert NestAll(st, "(") == Nested(Plain, depth + 1);
    assert NestAll(Nested(Plain, depth + 1), ")") == st;
  }

  lemma {:induction false} NestSeparator(join: string, depth: nat)
    requires join == "and" || join == "or"
    ensures NestAll(Nested(Plain, depth), " " + join + " ") == Nested(Plain, depth)
  {
    var st := Nested(Plain, depth);
    NestBare(depth, join);
    NestConcat(st, " ", join);
    NestConcat(st, " " + join, " ");
    assert NestAll(st, " ") == st;
  }

  lemma {:induction false} NestChain(h: Host, join: string, parts: seq<Query>, depth: nat)
    requires join == "and" || join == "or"
    requires forall i | 0 <= i < |parts| :: WellFormed(parts[i])
    ensures NestAll(Nested(Plain, depth), Join(Texts(h, parts), " " + join + " ")) == Nested(Plain, depth)
    decreases parts, 0
  {
    var st := Nested(Plain, depth);
    if parts != [] {
      var sep := " " + join + " ";
      NestBody(h, parts[0], depth);
      ChainStep(h, join, parts);
      if |parts| > 1 {
        var first, more := Text(h, parts[0]), Join(Texts(h, parts[1..]), sep);
        NestChain(h, join, parts[1..], depth);
        NestSeparator(join, depth);
        NestConcat(st, first, sep);
        NestConcat(st, first + sep, more);
      }
    }
  }

  lemma {:induction false} ChainStep(h: Host, join: string, parts: seq<Query>)
    requires parts != []
    ensures var sep := " " + join + " ";
            Join(Texts(h, parts), sep) ==
            if |parts| == 1 then Text(h, parts[0]) else Text(h, parts[0]) + sep + Join(Texts(h, parts[1..]), sep)
  {
    assert Texts(h, parts)[1..] == Texts(h, parts[1..]);
  }

  // ---------------------------------------------------------------- outer parentheses

  lemma {:induction false} KeyNotNot(key: string, rest: string)
    requires |key| == 2
    ensures !StartsWithNot(key + " " + rest)
  {
    hide ToLower;
    var t := key + " " + rest;
    assert t[2] == ' ';
    if |t| >= 4 {
      assert ToLower(t[..3])[2] == Lower(t[2]);
    }
  }

  lemma {:induction false} WordThenEnds(key: string, arg: string)
    requires |key| == 2 && 'a' <= key[0] <= 'z'
    requires arg != "" && !IsSpace(arg[|arg| - 1]) && arg[|arg| - 1] != ')'
    ensures var t := key + " " + arg;
            |t| >= 2 && Trimmed(t) && t[0] != '(' && t[|t| - 1] != ')' && !StartsWithNot(t)
  {
    KeyNotNot(key, arg);
  }

  lemma {:induction false} ListEnds(h: Host, items: seq<string>)
    ensures var list := ListText(h, items);
            list != "" && !IsSpace(list[|list| - 1]) && list[|list| - 1] != ')'
  {
    hide FormatItems, Join;
  }

  lemma {:induction false} KeyLetters(op: Operator)
    requires Arity(op) == 1
    ensures |Key(op)| == 2 && 'a' <= Key(op)[0] <= 'z'
  {
  }

  lemma {:induction false} TailEnds(h: Host, q: Query)
    requires IsLeafQuery(q) && WellFormed(q)
    ensures var t := Tail(h, q);
            |t| >= 2 && Trimmed(t) && t[0] != '(' && t[|t| - 1] != ')' && !StartsWithNot(t)
  {
    hide Key, FormatValue, ListText, StartsWithNot;
    match q {
      case Test(_, op, arg) =>
        FormatTrimmed(h, arg, op);
        KeyLetters(op);
        WordThenEnds(Key(op), FormatValue(h, arg, op));
      case Present(_) =>
        assert !StartsWithNot("pr") by {
          PrNotNot();
        }
      case OneOf(_, items) =>
        ListEnds(h, items);
        WordThenEnds("in", ListText(h, items));
        assert "in" + " " == "in ";
    }
  }

  lemma {:induction false} PrNotNot()
    ensures !StartsWithNot("pr")
  {
  }

  lemma {:induction false} ConcatEnds(a: string, b: string)
    requires a != "" && b != ""
    ensures var s := a + b; |s| >= 2 && s[0] == a[0] && s[|s| - 1] == b[|b| - 1]
  {
  }

  lemma {:induction false} BodyEnds(h: Host, q: Query)
    requires WellFormed(q)
    ensures var b := Body(h, q);
            && |b| >= 2 && Trimmed(b)
            && (!q.Chain? ==> b[0] != '(')
            && (q.Chain? ==> b[0] == '(')
  {
    hide Text, Join, Texts, Tail;
    match q {
      case Negation(query) =>
        TextEnds(h, query);
        ConcatEnds("not ", Text(h, query));
      case Chain(join, parts) =>
        ChainStep(h, join, parts);
        ChainEnds(h, join, parts);
      case _ =>
        TailEnds(h, q);
        ConcatEnds(q.attr + " ", Tail(h, q));
    }
  }

  lemma {:induction false} TextEnds(h: Host, q: Query)
    ensures var t := Text(h, q); |t| >= 2 && t[0] == '(' && t[|t| - 1] == ')'
  {
    hide Body;
  }

  lemma {:induction false} ChainEnds(h: Host, join: string, parts: seq<Query>)
    requires parts != []
    ensures var s := Join(Texts(h, parts), " " + join + " ");
            |s| >= 2 && s[0] == '(' && s[|s| - 1] == ')'
    decreases |parts|
  {
    hide Join, Texts, Text, Body;
    var sep := " " + join + " ";
    var text := Text(h, parts[0]);
    ChainStep(h, join, parts);
    TextEnds(h, parts[0]);
    if |parts| > 1 {
      var more := Join(Texts(h, parts[1..]), sep);
      ChainEnds(h, join, parts[1..]);
      ConcatEnds(text + sep, more);
      ConcatEnds(text, sep);
    }
  }

  lemma {:induction false} MiddleCut(first: string, sep: string, more: string)
    requires more != ""
    ensures var b := ("(" + first + ")") + sep + more;
            b[1..|b| - 1] == first + ")" + (sep + more[..|more| - 1])
  {
    var b := ("(" + first + ")") + sep + more;
    assert b[1..] == first + ")" + sep + more;
  }

  lemma {:induction false} NestTooMany(first: string, rest: string)
    requires NestAll(OUTSIDE, first) == OUTSIDE
    ensures NestAll(OUTSIDE, first + ")" + rest) == Unbalanced
  {
    NestConcat(OUTSIDE, first, ")");
    NestConcat(OUTSIDE, first + ")", rest);
    assert NestAll(OUTSIDE, ")") == Unbalanced;
    NestUnbalanced(rest);
  }

  lemma {:induction false} CutParens(first: string, sep: string, more: string)
    requires NestAll(OUTSIDE, first) == OUTSIDE && more != ""
    ensures var b := ("(" + first + ")") + sep + more; |b| >= 2 && !Balanced(b[1..|b| - 1])
  {
    hide NestAll;
    MiddleCut(first, sep, more);
    NestTooMany(first, sep + more[..|more| - 1]);
  }

  lemma {:induction false} ChainText(h: Host, q: Query)
    requires q.Chain? && |q.parts| >= 2
    ensures var more := Join(Texts(h, q.parts[1..]), " " + q.join + " ");
            && more != ""
            && Body(h, q) == ("(" + Body(h, q.parts[0]) + ")") + (" " + q.join + " ") + more
  {
    hide Join, Texts;
    ChainStep(h, q.join, q.parts);
    ChainEnds(h, q.join, q.parts[1..]);
  }

  /** The outer parentheses of a chain belong to different parts, so they are not stripped. */
  lemma {:induction false} ChainKeepsParens(h: Host, q: Query)
    requires WellFormed(q) && q.Chain?
    ensures var b := Body(h, q); |b| >= 2 && !Balanced(b[1..|b| - 1])
  {
    hide NestAll, Texts, Join, Trim, StripOuter, Balanced, Body;
    ChainText(h, q);
    NestBody(h, q.parts[0], 0);
    CutParens(Body(h, q.parts[0]), " " + q.join + " ", Join(Texts(h, q.parts[1..]), " " + q.join + " "));
  }

  lemma {:induction false} StripWrapped(body: string)
    requires Balanced(body) && Trimmed(body)
    ensures StripOuter(Trim("(" + body + ")")) == StripOuter(body)
  {
    var t := "(" + body + ")";
    assert t[0] == '(' && t[|t| - 1] == ')' && Trimmed(t);
    assert t[1..|t| - 1] == body;
  }

  /** Stripping outer parentheses takes exactly the pair that printing put there. */
  lemma {:induction false} StripPrinted(h: Host, q: Query)
    requires WellFormed(q)
    ensures StripOuter(Trim(Body(h, q))) == Body(h, q)
    ensures StripOuter(Trim(Text(h, q))) == Body(h, q)
  {
    hide NestAll, Body;
    BodyEnds(h, q);
    if q.Chain? {
      ChainKeepsParens(h, q);
    }
    NestBody(h, q, 0);
    StripWrapped(Body(h, q));
  }
}
