/** The web editor's own printer of conditions (web/src/lib/query.ts), and how far it agrees with the server's. */
module EditorPrinter {
  import opened Collections
  import opened Options
  import opened Strings
  import opened Scanner
  import opened Conditions
  import opened Literals
  import opened Queries

  /** What `String.prototype.trim` takes off: the byte order mark, but not NEL. */
  predicate IsEditorSpace(c: char) {
    c == '\U{FEFF}' || (c != '\U{85}' && IsSpace(c))
  }

  function EditorTrimLeft(s: string): (r: string)
    ensures |r| <= |s|
  {
    if s != "" && IsEditorSpace(s[0]) then EditorTrimLeft(s[1..]) else s
  }

  function EditorTrimRight(s: string): (r: string)
    ensures |r| <= |s|
  {
    if s != "" && IsEditorSpace(s[|s| - 1]) then EditorTrimRight(s[..|s| - 1]) else s
  }

  function EditorTrim(s: string): string {
    EditorTrimRight(EditorTrimLeft(s))
  }

  /** `s.replace(/c/g, '\\' + c)`. */
  function Backslashed(s: string, c: char): string {
    if s == "" then "" else (if s[0] == c then ['\\', c] else [s[0]]) + Backslashed(s[1..], c)
  }

  function EditorQuote(raw: string): string {
    "\"" + Backslashed(Backslashed(raw, '\\'), '"') + "\""
  }

  predicate IsEditorNumeric(operator: string) {
    operator == "gt" || operator == "ge" || operator == "lt" || operator == "le"
  }

  /** `arityOf`: an operator the table does not name counts as unary. */
  function EditorArity(operator: string): nat {
    if operator == "in" || operator == "notin" then 2 else if operator == "pr" then 0 else 1
  }

  function Scalar(h: Host, raw: string, operator: string): string {
    var value := EditorTrim(raw);
    if IsBoolWord(value) then ToLower(value)
    else if IsEditorNumeric(operator) && value != "" && h.browserFloat(value) then value
    else EditorQuote(value)
  }

  function EditorTrimNonEmpty(fields: seq<string>): seq<string> {
    if fields == [] then []
    else
      (if EditorTrim(fields[0]) == "" then [] else [EditorTrim(fields[0])]) + EditorTrimNonEmpty(fields[1..])
  }

  function EditorItems(raw: string): seq<string> {
    EditorTrimNonEmpty(Split(raw, ','))
  }

  function Scalars(h: Host, items: seq<string>): seq<string> {
    if items == [] then [] else [Scalar(h, items[0], "eq")] + Scalars(h, items[1..])
  }

  function EditorList(h: Host, raw: string): string {
    "[" + Join(Scalars(h, EditorItems(raw)), ", ") + "]"
  }

  /** The rules of the query builder. */
  datatype Rule =
    | Row(field: string, operator: string, value: string)
    | Rules(combinator: string, negated: bool, rules: seq<Rule>)

  function RuleToQuery(h: Host, field: string, operator: string, value: string): string {
    var attribute := EditorTrim(field);
    if attribute == "" then ""
    else if EditorArity(operator) == 0 then "(" + attribute + " " + operator + ")"
    else if EditorTrim(value) == "" then ""
    else if EditorArity(operator) == 2 then
      var items := EditorItems(value);
      if |items| == 1 then
        var op := if operator == "notin" then "ne" else "eq";
        "(" + attribute + " " + op + " " + Scalar(h, items[0], op) + ")"
      else
        var listed := "(" + attribute + " in " + EditorList(h, value) + ")";
        if operator == "notin" then "(not " + listed + ")" else listed
    else "(" + attribute + " " + operator + " " + Scalar(h, value, operator) + ")"
  }

  function RenderRule(h: Host, r: Rule, top: bool): string
    decreases r, 1
  {
    match r
    case Row(field, operator, value) => RuleToQuery(h, field, operator, value)
    case Rules(combinator, negated, rules) =>
      var parts := RenderAll(h, rules);
      if |parts| == 0 then ""
      else if |parts| == 1 then if negated then "(not " + parts[0] + ")" else parts[0]
      else
        var joined := Join(parts, " " + combinator + " ");
        if negated then "(not (" + joined + "))" else if top then joined else "(" + joined + ")"
  }

  function RenderAll(h: Host, rules: seq<Rule>): seq<string>
    decreases rules, 0
  {
    if rules == [] then []
    else
      var rendered := RenderRule(h, rules[0], false);
      (if rendered == "" then [] else [rendered]) + RenderAll(h, rules[1..])
  }

  /** `childToRule`; the editor has no equals row, it shows `eq` and `ne` as one-item lists. */
  function ChildToRule(c: Condition): Rule
    requires NoNil(c)
    decreases c, 1
  {
    if c.op != "" then Rules(c.op, c.negated, ChildrenToRules(c.children))
    else if c.operator == "" || c.operator == "eq" then Row(c.attribute, "in", c.value)
    else if c.operator == "ne" then Row(c.attribute, "notin", c.value)
    else Row(c.attribute, c.operator, c.value)
  }

  function ChildrenToRules(cs: seq<Condition>): seq<Rule>
    requires forall i | 0 <= i < |cs| :: NoNil(cs[i])
    decreases cs, 0
  {
    if cs == [] then [] else [ChildToRule(cs[0])] + ChildrenToRules(cs[1..])
  }

  /** No null in the children: the editor's code would fail on one. */
  predicate NoNil(c: Condition)
    decreases c
  {
    c.Cond? && forall i | 0 <= i < |c.children| :: NoNil(c.children[i])
  }

  function GroupFromCondition(c: Condition): Rule
    requires c.Cond? ==> NoNil(c)
  {
    if c == Nil then Rules("and", false, [])
    else if c.op != "" then ChildToRule(c)
    else Rules("and", false, [ChildToRule(c)])
  }

  function QueryFromCondition(h: Host, c: Condition): string
    requires c.Cond? ==> NoNil(c)
  {
    RenderRule(h, GroupFromCondition(c), true)
  }

  // ---------------------------------------------------------------- the pieces agree

  /** No character that only one side takes for white space. */
  predicate PlainSpaces(s: string) {
    !Contains(s, '\U{85}') && !Contains(s, '\U{FEFF}')
  }

  lemma {:induction false} PlainSpacesAt(s: string, i: nat)
    requires PlainSpaces(s) && i < |s|
    ensures IsEditorSpace(s[i]) == IsSpace(s[i])
  {
    assert Contains(s, s[i]);
  }

  lemma {:induction false} PlainSpacesPart(s: string, i: nat, j: nat)
    requires PlainSpaces(s) && i <= j <= |s|
    ensures PlainSpaces(s[i..j])
  {
    forall c | Contains(s[i..j], c)
      ensures Contains(s, c)
    {
      var k :| 0 <= k < |s[i..j]| && s[i..j][k] == c;
      assert s[i + k] == c;
    }
  }

  lemma {:induction false} TrimLeftAgrees(s: string)
    requires PlainSpaces(s)
    ensures EditorTrimLeft(s) == TrimLeft(s) && PlainSpaces(TrimLeft(s))
    decreases |s|
  {
    if s != "" {
      PlainSpacesAt(s, 0);
      PlainSpacesPart(s, 1, |s|);
      if IsSpace(s[0]) {
        TrimLeftAgrees(s[1..]);
      }
    }
  }

  lemma {:induction false} TrimRightAgrees(s: string)
    requires PlainSpaces(s)
    ensures EditorTrimRight(s) == TrimRight(s)
    decreases |s|
  {
    if s != "" {
      PlainSpacesAt(s, |s| - 1);
      PlainSpacesPart(s, 0, |s| - 1);
      if IsSpace(s[|s| - 1]) {
        assert s[0..|s| - 1] == s[..|s| - 1];
        TrimRightAgrees(s[..|s| - 1]);
      }
    }
  }

  lemma {:induction false} TrimAgrees(s: string)
    requires PlainSpaces(s)
    ensures EditorTrim(s) == Trim(s)
  {
    TrimLeftAgrees(s);
    TrimRightAgrees(TrimLeft(s));
  }

  lemma {:induction false} BackslashedCons(x: char, s: string, c: char)
    ensures Backslashed([x] + s, c) == (if x == c then ['\\', c] else [x]) + Backslashed(s, c)
  {
    TakeDrop([x], s);
  }

  /** Escaping backslashes and then quotes is escaping both at once. */
  lemma {:induction false} QuoteAgrees(v: string)
    ensures Backslashed(Backslashed(v, '\\'), '"') == Escape(v)
  {
    if v != "" {
      var x, rest := v[0], Backslashed(v[1..], '\\');
      QuoteAgrees(v[1..]);
      QuoteStep(x, rest);
    }
  }

  lemma {:induction false} QuoteStep(x: char, rest: string)
    ensures Backslashed((if x == '\\' then ['\\', '\\'] else [x]) + rest, '"')
         == (if x == '\\' || x == '"' then ['\\', x] else [x]) + Backslashed(rest, '"')
  {
    hide Backslashed;
    if x == '\\' {
      BackslashedCons('\\', ['\\'] + rest, '"');
      BackslashedCons('\\', rest, '"');
      Concat3(['\\'], ['\\'], rest);
      Concat3(['\\'], ['\\'], Backslashed(rest, '"'));
      assert ['\\'] + ['\\'] == ['\\', '\\'];
    } else {
      BackslashedCons(x, rest, '"');
    }
  }

  /** Both sides take the value for a number, or neither does. */
  predicate NumbersAgree(h: Host, op: Operator, value: string) {
    var v := Trim(value);
    IsNumeric(op) && !IsBoolWord(v) ==> (IsFloat(h, v) <==> v != "" && h.browserFloat(v))
  }

  lemma {:induction false} ScalarAgrees(h: Host, value: string, op: Operator)
    requires PlainSpaces(value)
    ensures Scalar(h, value, Key(op)) == FormatValue(h, value, op) <==> NumbersAgree(h, op, value)
  {
    hide Trim, EditorTrim;
    var v := Trim(value);
    TrimAgrees(value);
    QuoteAgrees(v);
    assert IsEditorNumeric(Key(op)) == IsNumeric(op);
    assert |Quote(v)| == |Escape(v)| + 2;
    EscapeLonger(v);
  }

  lemma {:induction false} EscapeLonger(v: string)
    ensures |Escape(v)| >= |v|
  {
    if v != "" {
      EscapeLonger(v[1..]);
    }
  }

  lemma {:induction false} SplitPlain(s: string)
    requires PlainSpaces(s)
    ensures forall i | 0 <= i < |Split(s, ',')| :: PlainSpaces(Split(s, ',')[i])
  {
    if s != "" {
      PlainSpacesPart(s, 1, |s|);
      SplitPlain(s[1..]);
      var rest := Split(s[1..], ',');
      assert Contains(s, s[0]);
      if s[0] != ',' {
        ContainsCons(s[0], rest[0], '\U{85}');
        ContainsCons(s[0], rest[0], '\U{FEFF}');
      }
    }
  }

  lemma {:induction false} TrimNonEmptyAgrees(fields: seq<string>)
    requires forall i | 0 <= i < |fields| :: PlainSpaces(fields[i])
    ensures EditorTrimNonEmpty(fields) == TrimNonEmpty(fields)
    ensures forall i | 0 <= i < |TrimNonEmpty(fields)| :: PlainSpaces(TrimNonEmpty(fields)[i])
  {
    if fields != [] {
      TrimAgrees(fields[0]);
      if !PlainSpaces(Trim(fields[0])) {
        if Contains(Trim(fields[0]), '\U{85}') {
          ContainsTrim(fields[0], '\U{85}');
        } else {
          ContainsTrim(fields[0], '\U{FEFF}');
        }
      }
      TrimNonEmptyAgrees(fields[1..]);
    }
  }

  lemma {:induction false} ScalarsAgree(h: Host, items: seq<string>)
    requires forall i | 0 <= i < |items| :: PlainSpaces(items[i])
    ensures Scalars(h, items) == FormatItems(h, items)
  {
    if items != [] {
      ScalarAgrees(h, items[0], Eq);
      ScalarsAgree(h, items[1..]);
    }
  }

  lemma {:induction false} ItemsAgree(h: Host, value: string)
    requires PlainSpaces(value)
    ensures EditorItems(value) == SplitList(value)
    ensures forall i | 0 <= i < |SplitList(value)| :: PlainSpaces(SplitList(value)[i])
    ensures EditorList(h, value) == FormatList(h, value)
  {
    SplitPlain(value);
    TrimNonEmptyAgrees(Split(value, ','));
    ScalarsAgree(h, SplitList(value));
  }

  // ---------------------------------------------------------------- rows

  /** When the two printers say the same of a row with a value. */
  predicate RowAgrees(h: Host, op: Operator, value: string) {
    Arity(op) == 0 ||
    (Trim(value) != "" && (op == Eq || op == Ne ==> !Contains(value, ',')) && NumbersAgree(h, op, value))
  }

  function LeafText(h: Host, attr: string, op: Operator, value: string): string {
    match CompileLeaf(h, Leaf(attr, Key(op), value))
    case None => ""
    case Some(text) => text
  }

  function RowText(h: Host, attr: string, op: Operator, value: string): string {
    RuleToQuery(h, attr, if op == Eq then "in" else if op == Ne then "notin" else Key(op), value)
  }

  lemma {:induction false} SingleItem(value: string)
    requires Trim(value) != "" && !Contains(value, ',')
    ensures SplitList(value) == [Trim(value)]
  {
    SplitOne(value, ',');
    TrimNonEmptyCons(value, []);
  }

  lemma {:induction false} PlainAttr(attr: string)
    requires Trimmed(attr) && PlainSpaces(attr)
    ensures EditorTrim(attr) == attr && Trim(attr) == attr
  {
    TrimAgrees(attr);
  }

  /** The same words around two texts: the whole is the same when the texts are. */
  lemma {:induction false} SameWrapping(attr: string, key: string, a: string, b: string)
    ensures ("(" + attr + " " + key + " " + a + ")" == "(" + attr + " " + key + " " + b + ")") <==> a == b
  {
    var head := "(" + attr + " " + key + " ";
    var x, y := head + a + ")", head + b + ")";
    if x == y {
      assert x[|head|..|x| - 1] == a && y[|head|..|y| - 1] == b;
    }
  }

  lemma {:induction false} DifferentOperators(attr: string, a: string, b: string)
    ensures "(" + attr + " eq " + a + ")" != "(" + attr + " in " + b + ")"
  {
    assert ("(" + attr + " eq " + a + ")")[|attr| + 2] == 'e';
    assert ("(" + attr + " in " + b + ")")[|attr| + 2] == 'i';
  }

  lemma {:induction false} DifferentNegations(attr: string, a: string, b: string)
    requires IsAttribute(attr)
    ensures "(" + attr + " ne " + a + ")" != "(not (" + attr + " in " + b + "))"
  {
    var x, y := "(" + attr + " ne " + a + ")", "(not (" + attr + " in " + b + "))";
    var n := |attr|;
    assert x[n + 1] == ' ';
    if n == 3 {
      assert x[5] == 'n' && y[5] == '(';
    } else if n < 3 {
      assert y[n + 1] != ' ';
    } else {
      assert x[4] == attr[3] && y[4] == ' ';
    }
  }

  /** A value with a comma prints differently from any single list item. */
  lemma {:induction false} CommaPrintsDifferently(h: Host, value: string, item: string, op: Operator)
    requires Contains(value, ',') && !Contains(item, ',') && item != "" && Trimmed(item)
    ensures FormatValue(h, value, op) != FormatValue(h, item, op)
  {
    UnquoteFormat(h, value, op);
    UnquoteFormat(h, item, op);
    NormItem(item);
    CommaStays(value);
  }

  lemma {:induction false} CommaStays(value: string)
    requires Contains(value, ',')
    ensures Contains(Norm(value), ',')
  {
    hide ToLower, TrimLeft, TrimRight;
    var left, right := TrimSplits(value);
    var t := Trim(value);
    ContainsConcat(left, t, ',');
    ContainsConcat(left + t, right, ',');
    CommaIsNoBool(t);
  }

  lemma {:induction false} CommaIsNoBool(t: string)
    requires Contains(t, ',')
    ensures !IsBoolWord(t)
  {
    hide ToLower;
    var i :| 0 <= i < |t| && t[i] == ',';
    assert ToLower(t)[i] == ',';
  }

  /** `eq` and `ne`, which the editor shows as list rows. */
  lemma {:induction false} EqualsRow(h: Host, attr: string, op: Operator, value: string)
    requires attr != "" && Trimmed(attr) && PlainSpaces(attr) && PlainSpaces(value) && Trim(value) != ""
    requires op == Eq || op == Ne
    ensures !Contains(value, ',') ==> RowText(h, attr, op, value) == LeafText(h, attr, op, value)
    ensures IsBare(attr) && RowText(h, attr, op, value) == LeafText(h, attr, op, value) ==> !Contains(value, ',')
  {
    hide Trim, EditorTrim, SplitList, EditorItems, Scalar, FormatValue, EditorList, FormatList, LookupOperator, Norm,
         Join;
    PlainAttr(attr);
    TrimAgrees(value);
    ItemsAgree(h, value);
    LookupKey(op);
    SplitListItems(value);
    var items := SplitList(value);
    var key := Key(op);
    var y := FormatValue(h, value, op);
    assert LeafText(h, attr, op, value) == "(" + attr + " " + key + " " + y + ")";
    if |items| == 1 {
      var x := Scalar(h, items[0], key);
      NoNumber(h, items[0], op);
      SameWrapping(attr, key, x, y);
      if Contains(value, ',') {
        CommaPrintsDifferently(h, value, items[0], op);
      } else {
        SingleItem(value);
        FormatTrim(h, value, op);
      }
    } else {
      if !Contains(value, ',') {
        SingleItem(value);
        assert false;
      }
      var list := EditorList(h, value);
      DifferentOperators(attr, y, list);
      if IsBare(attr) {
        DifferentNegations(attr, y, list);
      }
      Spaces(attr, y);
      assert "(not " + ("(" + attr + " in " + list + ")") + ")" == "(not (" + attr + " in " + list + "))";
    }
  }

  lemma {:induction false} Spaces(attr: string, y: string)
    ensures "(" + attr + " " + "eq" + " " + y + ")" == "(" + attr + " eq " + y + ")"
    ensures "(" + attr + " " + "ne" + " " + y + ")" == "(" + attr + " ne " + y + ")"
  {
    assert " " + "eq" + " " == " eq ";
    assert " " + "ne" + " " == " ne ";
    Spaced(attr, "eq");
    Spaced(attr, "ne");
    assert "(" + attr + " " + "eq" + " " == "(" + attr + " eq ";
    assert "(" + attr + " " + "ne" + " " == "(" + attr + " ne ";
  }

  lemma {:induction false} FormatTrim(h: Host, value: string, op: Operator)
    ensures FormatValue(h, Trim(value), op) == FormatValue(h, value, op)
  {
  }

  lemma {:induction false} NoNumber(h: Host, item: string, op: Operator)
    requires PlainSpaces(item) && !IsNumeric(op)
    ensures Scalar(h, item, Key(op)) == FormatValue(h, item, op)
  {
    ScalarAgrees(h, item, op);
  }

  lemma {:induction false} ListRow(h: Host, attr: string, op: Operator, value: string)
    requires attr != "" && Trimmed(attr) && PlainSpaces(attr) && PlainSpaces(value) && Trim(value) != ""
    requires op == In || op == NotIn
    ensures RowText(h, attr, op, value) == LeafText(h, attr, op, value)
  {
    hide Trim, EditorTrim, SplitList, EditorItems, Scalar, FormatValue, EditorList, FormatList, LookupOperator, Norm,
         Join;
    PlainAttr(attr);
    TrimAgrees(value);
    ItemsAgree(h, value);
    LookupKey(op);
    var items := SplitList(value);
    if |items| == 1 {
      NoNumber(h, items[0], Eq);
      NoNumber(h, items[0], Ne);
      Spaces(attr, FormatValue(h, items[0], Eq));
      Spaces(attr, FormatValue(h, items[0], Ne));
    } else {
      var list := EditorList(h, value);
      assert "(not " + ("(" + attr + " in " + list + ")") + ")" == "(not (" + attr + " in " + list + "))";
      Spaced(attr, "in");
      assert " " + "in" + " " == " in ";
    }
  }

  /** A row of the builder and the leaf it stands for print the same text if the value is not blank, an `eq` or `ne`
      value has no comma, and both sides agree on whether it is a number; and for plain attributes only then. */
  lemma {:induction false} RowAgreesIff(h: Host, attr: string, op: Operator, value: string)
    requires attr != "" && Trimmed(attr) && PlainSpaces(attr) && PlainSpaces(value)
    ensures RowAgrees(h, op, value) ==> RowText(h, attr, op, value) == LeafText(h, attr, op, value)
    ensures IsBare(attr) && RowText(h, attr, op, value) == LeafText(h, attr, op, value) ==> RowAgrees(h, op, value)
  {
    hide Trim, EditorTrim, SplitList, EditorItems, Scalar, FormatValue, EditorList, FormatList, LookupOperator, Norm,
         Join;
    PlainAttr(attr);
    TrimAgrees(value);
    LookupKey(op);
    if Trim(value) == "" || Arity(op) == 0 {
      Spaced(attr, Key(op));
    } else if op == Eq || op == Ne {
      EqualsRow(h, attr, op, value);
    } else if Arity(op) == 2 {
      ListRow(h, attr, op, value);
    } else {
      ScalarAgrees(h, value, op);
      SameWrapping(attr, Key(op), Scalar(h, value, Key(op)), FormatValue(h, value, op));
    }
  }

  // ---------------------------------------------------------------- whole conditions

  /** A leaf as the server sends it to the editor, whose row agrees unless it is still without an attribute. */
  ghost predicate AgreeableLeaf(h: Host, c: Condition)
    requires c.Cond?
  {
    && c.op == "" && c.children == [] && PlainSpaces(c.attribute) && PlainSpaces(c.value)
    && exists op :: Key(op) == c.operator && (Trim(c.attribute) != "" ==> RowAgrees(h, op, c.value))
  }

  ghost predicate Agreeable(h: Host, c: Condition)
    decreases c
  {
    c.Cond? &&
    if IsGroup(c) then forall i | 0 <= i < |c.children| :: Agreeable(h, c.children[i]) else AgreeableLeaf(h, c)
  }

  lemma {:induction false} AgreeableNoNil(h: Host, c: Condition)
    requires Agreeable(h, c)
    ensures NoNil(c)
    decreases c
  {
    if IsGroup(c) {
      forall i | 0 <= i < |c.children|
        ensures NoNil(c.children[i])
      {
        AgreeableNoNil(h, c.children[i]);
      }
    }
  }

  function OrEmpty(t: Option<string>): string {
    match t
    case None => ""
    case Some(text) => text
  }

  lemma {:induction false} TrimTwice(s: string)
    ensures Trim(Trim(s)) == Trim(s)
  {
  }

  lemma {:induction false} PlainTrimmed(s: string)
    requires PlainSpaces(s)
    ensures PlainSpaces(Trim(s)) && EditorTrim(s) == Trim(s) && EditorTrim(Trim(s)) == Trim(s)
  {
    hide Trim, EditorTrim;
    TrimAgrees(s);
    if !PlainSpaces(Trim(s)) {
      if Contains(Trim(s), '\U{85}') {
        ContainsTrim(s, '\U{85}');
      } else {
        ContainsTrim(s, '\U{FEFF}');
      }
    }
    TrimAgrees(Trim(s));
    TrimTwice(s);
  }

  lemma {:induction false} RowOfLeaf(h: Host, c: Condition, op: Operator, top: bool)
    requires c.Cond? && c.op == "" && NoNil(c) && Key(op) == c.operator
    ensures RenderRule(h, ChildToRule(c), top) == RowText(h, c.attribute, op, c.value)
  {
    hide RuleToQuery;
  }

  /** Both printers trim the attribute first. */
  lemma {:induction false} TrimmedAttribute(h: Host, c: Condition, op: Operator)
    requires c.Cond? && Key(op) == c.operator && PlainSpaces(c.attribute)
    ensures RowText(h, c.attribute, op, c.value) == RowText(h, Trim(c.attribute), op, c.value)
    ensures OrEmpty(CompileLeaf(h, c)) == LeafText(h, Trim(c.attribute), op, c.value)
    ensures Trim(c.attribute) == "" ==> RowText(h, c.attribute, op, c.value) == "" && CompileLeaf(h, c) == None
    ensures CompileLeaf(h, c) != Some("")
  {
    hide Trim, EditorTrim, SplitList, EditorItems, Scalar, FormatValue, EditorList, FormatList, LookupOperator;
    PlainTrimmed(c.attribute);
    TrimTwice(c.attribute);
    LookupKey(op);
  }

  lemma {:induction false} LeafAgrees(h: Host, c: Condition, top: bool)
    requires c.Cond? && AgreeableLeaf(h, c)
    ensures NoNil(c) && RenderRule(h, ChildToRule(c), top) == OrEmpty(CompileLeaf(h, c))
    ensures CompileLeaf(h, c) != Some("")
  {
    hide Trim, EditorTrim, RowAgrees, PlainSpaces, RowText, LeafText, CompileLeaf, RenderRule, ChildToRule;
    var op :| Key(op) == c.operator && (Trim(c.attribute) != "" ==> RowAgrees(h, op, c.value));
    PlainTrimmed(c.attribute);
    TrimTwice(c.attribute);
    RowOfLeaf(h, c, op, top);
    TrimmedAttribute(h, c, op);
    if Trim(c.attribute) != "" {
      RowAgreesIff(h, Trim(c.attribute), op, c.value);
    }
  }

  lemma {:induction false} NonEmptyGroup(h: Host, parts: seq<string>, join: string)
    requires forall i | 0 <= i < |parts| :: parts[i] != ""
    requires |parts| >= 2
    ensures Join(parts, " " + join + " ") != ""
  {
  }

  /** The editor and the server print every agreeable condition as the same text. */
  lemma {:induction false} PrintersAgree(h: Host, c: Condition, top: bool)
    requires Agreeable(h, c)
    ensures NoNil(c) && RenderRule(h, ChildToRule(c), top) == OrEmpty(Compile(h, c, top))
    ensures Compile(h, c, top) != Some("")
    decreases c, 1
  {
    hide CompileLeaf, RuleToQuery, AgreeableLeaf, Join;
    AgreeableNoNil(h, c);
    if IsGroup(c) {
      PartsAgree(h, c.children);
      var parts := CompileAll(h, c.children);
      if |parts| >= 2 {
        NonEmptyGroup(h, parts, c.op);
      }
    } else {
      LeafAgrees(h, c, top);
    }
  }

  lemma {:induction false} PartsAgree(h: Host, cs: seq<Condition>)
    requires forall i | 0 <= i < |cs| :: Agreeable(h, cs[i])
    ensures forall i | 0 <= i < |cs| :: NoNil(cs[i])
    ensures RenderAll(h, ChildrenToRules(cs)) == CompileAll(h, cs)
    ensures forall i | 0 <= i < |CompileAll(h, cs)| :: CompileAll(h, cs)[i] != ""
    decreases cs, 0
  {
    hide Agreeable, NoNil, RenderRule, Compile, ChildToRule;
    if cs != [] {
      PrintersAgree(h, cs[0], false);
      PartsAgree(h, cs[1..]);
      assert ChildrenToRules(cs)[1..] == ChildrenToRules(cs[1..]);
    }
  }

  /** So the text the editor shows for a condition is the text the server writes for it. */
  lemma {:induction false} EditorShowsServerText(h: Host, c: Condition)
    requires c == Nil || Agreeable(h, c)
    ensures c.Cond? ==> NoNil(c)
    ensures QueryFromCondition(h, c) == CompileCondition(h, c)
  {
    if c.Cond? {
      PrintersAgree(h, c, true);
      if !IsGroup(c) {
        PrintersAgree(h, c, false);
        var row := ChildToRule(c);
        assert [row][1..] == [];
        assert RenderAll(h, [row]) ==
               (if RenderRule(h, row, false) == "" then [] else [RenderRule(h, row, false)]) + RenderAll(h, [row][1..]);
      }
    }
  }
}
