/** The loops of the two printers and of the list forms (internal/goff/condition.go, web/src/lib/query.ts). */
module PrinterLoops {
  import opened Collections
  import opened Options
  import opened Strings
  import opened Scanner
  import opened Conditions
  import opened EditorPrinter

  lemma {:induction false} TrimStep(fields: seq<string>, i: nat)
    requires i <= |fields|
    ensures TrimNonEmpty(fields[i..]) ==
            if i == |fields| then []
            else (if Trim(fields[i]) == "" then [] else [Trim(fields[i])]) + TrimNonEmpty(fields[i + 1..])
  {
    hide Trim;
    if i < |fields| {
      assert fields[i..][1..] == fields[i + 1..];
    }
  }

  lemma {:induction false} UnquoteStep(fields: seq<string>, i: nat)
    requires i <= |fields|
    ensures UnquoteItems(fields[i..]) ==
            if i == |fields| then []
            else (if Trim(fields[i]) == "" then [] else [Unquote(Trim(fields[i]))]) + UnquoteItems(fields[i + 1..])
  {
    hide Trim, Unquote;
    if i < |fields| {
      assert fields[i..][1..] == fields[i + 1..];
    }
  }

  lemma {:induction false} FormatStep(h: Host, first: string, rest: seq<string>)
    ensures FormatItems(h, [first] + rest) == [FormatValue(h, first, Eq)] + FormatItems(h, rest)
    ensures FormatItems(h, []) == []
  {
    hide FormatValue;
    assert ([first] + rest)[1..] == rest;
  }

  /** `splitList`. */
  method SplitListLoop(raw: string) returns (out: seq<string>)
    ensures out == SplitList(raw)
  {
    hide Trim, Split, TrimNonEmpty;
    var fields := Split(raw, ',');
    out := [];
    assert fields[0..] == fields;
    for i := 0 to |fields|
      invariant out + TrimNonEmpty(fields[i..]) == SplitList(raw)
    {
      var trimmed := Trim(fields[i]);
      TrimStep(fields, i);
      Concat3(out, if trimmed == "" then [] else [trimmed], TrimNonEmpty(fields[i + 1..]));
      if trimmed != "" {
        out := out + [trimmed];
      } else {
        assert out + [] == out;
      }
    }
    TrimStep(fields, |fields|);
  }

  /** `formatList`: each field is trimmed and formatted as it comes. */
  method FormatListLoop(h: Host, raw: string) returns (text: string)
    ensures text == FormatList(h, raw)
  {
    hide Trim, Split, FormatValue, TrimNonEmpty, FormatItems, Join;
    var fields := Split(raw, ',');
    var items: seq<string> := [];
    assert fields[0..] == fields;
    for i := 0 to |fields|
      invariant items + FormatItems(h, TrimNonEmpty(fields[i..])) == FormatItems(h, SplitList(raw))
    {
      var f, rest := Trim(fields[i]), TrimNonEmpty(fields[i + 1..]);
      TrimStep(fields, i);
      if f == "" {
        assert [] + rest == rest;
        continue;
      }
      FormatStep(h, f, rest);
      Concat3(items, [FormatValue(h, f, Eq)], FormatItems(h, rest));
      items := items + [FormatValue(h, f, Eq)];
    }
    TrimStep(fields, |fields|);
    FormatStep(h, "", []);
    assert items + [] == items;
    return "[" + Join(items, ", ") + "]";
  }

  /** `unformatList`. */
  method UnformatListLoop(raw: string) returns (text: string)
    ensures text == UnformatList(raw)
  {
    hide Trim, Split, Unquote, UnquoteItems, Join;
    var s := TrimSuffix(TrimPrefix(Trim(raw), '['), ']');
    var parts := Split(s, ',');
    var out: seq<string> := [];
    assert parts[0..] == parts;
    for i := 0 to |parts|
      invariant out + UnquoteItems(parts[i..]) == UnquoteItems(parts)
    {
      var p, rest := Trim(parts[i]), UnquoteItems(parts[i + 1..]);
      UnquoteStep(parts, i);
      if p == "" {
        assert [] + rest == rest;
        continue;
      }
      Concat3(out, [Unquote(p)], rest);
      out := out + [Unquote(p)];
    }
    UnquoteStep(parts, |parts|);
    assert out + [] == out;
    return Join(out, ", ");
  }

  lemma {:induction false} CompileStep(h: Host, cs: seq<Condition>, i: nat)
    requires i <= |cs|
    ensures CompileAll(h, cs[i..]) ==
            if i == |cs| then []
            else
              (match Compile(h, cs[i], false) case None => [] case Some(text) => [text]) + CompileAll(h, cs[i + 1..])
  {
    hide Compile;
    if i < |cs| {
      assert cs[i..][1..] == cs[i + 1..];
    }
  }

  lemma {:induction false} CompileGroup(h: Host, c: Condition, top: bool)
    requires IsGroup(c)
    ensures var parts := CompileAll(h, c.children);
            var joined := Join(parts, " " + c.op + " ");
            Compile(h, c, top) ==
            if |parts| == 0 then None
            else if |parts| == 1 then Some(if c.negated then "(not " + parts[0] + ")" else parts[0])
            else Some(if c.negated then "(not (" + joined + "))" else if top then joined else "(" + joined + ")")
  {
    hide Join, CompileAll;
  }

  /** `compile`: the parts of a group are collected one after the other. */
  method CompileLoop(h: Host, c: Condition, top: bool) returns (text: Option<string>)
    ensures text == Compile(h, c, top)
    decreases c
  {
    hide CompileAll, Join;
    if c == Nil {
      return None;
    }
    if !IsGroup(c) {
      return CompileLeaf(h, c);
    }
    hide Compile;
    var parts: seq<string> := [];
    assert c.children[0..] == c.children;
    for i := 0 to |c.children|
      invariant parts + CompileAll(h, c.children[i..]) == CompileAll(h, c.children)
    {
      var part := CompileLoop(h, c.children[i], false);
      CompileStep(h, c.children, i);
      Concat3(parts, if part.Some? then [part.value] else [], CompileAll(h, c.children[i + 1..]));
      if part.Some? {
        parts := parts + [part.value];
      } else {
        assert parts + [] == parts;
      }
    }
    CompileStep(h, c.children, |c.children|);
    assert parts + [] == parts;
    CompileGroup(h, c, top);
    if |parts| == 0 {
      return None;
    }
    if |parts| == 1 {
      return Some(if c.negated then "(not " + parts[0] + ")" else parts[0]);
    }
    var joined := Join(parts, " " + c.op + " ");
    if c.negated {
      return Some("(not (" + joined + "))");
    }
    return Some(if top then joined else "(" + joined + ")");
  }

  lemma {:induction false} RenderStep(h: Host, rules: seq<Rule>, i: nat)
    requires i <= |rules|
    ensures RenderAll(h, rules[i..]) ==
            if i == |rules| then []
            else
              (if RenderRule(h, rules[i], false) == "" then [] else [RenderRule(h, rules[i], false)])
              + RenderAll(h, rules[i + 1..])
  {
    hide RenderRule;
    if i < |rules| {
      assert rules[i..][1..] == rules[i + 1..];
    }
  }

  lemma {:induction false} RenderGroup(h: Host, r: Rule, top: bool)
    requires r.Rules?
    ensures var parts := RenderAll(h, r.rules);
            var joined := Join(parts, " " + r.combinator + " ");
            RenderRule(h, r, top) ==
            if |parts| == 0 then ""
            else if |parts| == 1 then if r.negated then "(not " + parts[0] + ")" else parts[0]
            else if r.negated then "(not (" + joined + "))" else if top then joined else "(" + joined + ")"
  {
    hide Join, RenderAll;
  }

  /** `renderGroup` of the editor, and `ruleToQuery` for a row. */
  method RenderLoop(h: Host, r: Rule, top: bool) returns (text: string)
    ensures text == RenderRule(h, r, top)
    decreases r
  {
    hide RuleToQuery, Join, RenderAll;
    if r.Row? {
      return RuleToQuery(h, r.field, r.operator, r.value);
    }
    hide RenderRule;
    var parts: seq<string> := [];
    assert r.rules[0..] == r.rules;
    for i := 0 to |r.rules|
      invariant parts + RenderAll(h, r.rules[i..]) == RenderAll(h, r.rules)
    {
      var rendered := RenderLoop(h, r.rules[i], false);
      RenderStep(h, r.rules, i);
      Concat3(parts, if rendered == "" then [] else [rendered], RenderAll(h, r.rules[i + 1..]));
      if rendered != "" {
        parts := parts + [rendered];
      } else {
        assert parts + [] == parts;
      }
    }
    RenderStep(h, r.rules, |r.rules|);
    assert parts + [] == parts;
    RenderGroup(h, r, top);
    if |parts| == 0 {
      return "";
    }
    if |parts| == 1 {
      return if r.negated then "(not " + parts[0] + ")" else parts[0];
    }
    var joined := Join(parts, " " + r.combinator + " ");
    if r.negated {
      return "(not (" + joined + "))";
    }
    return if top then joined else "(" + joined + ")";
  }
}
