/** Targeting conditions and their printer (internal/goff/condition.go, internal/goff/build.go). */
module Conditions {
  import opened Options
  import opened Strings
  import opened Scanner

  /** The operators of internal/goff/build.go. */
  datatype Operator = Eq | Ne | Co | Sw | Ew | In | NotIn | Gt | Ge | Lt | Le | Pr

  function Key(op: Operator): string {
    match op
    case Eq => "eq"
    case Ne => "ne"
    case Co => "co"
    case Sw => "sw"
    case Ew => "ew"
    case In => "in"
    case NotIn => "notin"
    case Gt => "gt"
    case Ge => "ge"
    case Lt => "lt"
    case Le => "le"
    case Pr => "pr"
  }

  function Arity(op: Operator): nat {
    match op
    case Pr => 0
    case In | NotIn => 2
    case _ => 1
  }

  predicate IsNumeric(op: Operator) {
    op == Gt || op == Ge || op == Lt || op == Le
  }

  function LookupOperator(key: string): Option<Operator> {
    var k := ToLower(key);
    if k == "eq" then Some(Eq)
    else if k == "ne" then Some(Ne)
    else if k == "co" then Some(Co)
    else if k == "sw" then Some(Sw)
    else if k == "ew" then Some(Ew)
    else if k == "in" then Some(In)
    else if k == "notin" then Some(NotIn)
    else if k == "gt" then Some(Gt)
    else if k == "ge" then Some(Ge)
    else if k == "lt" then Some(Lt)
    else if k == "le" then Some(Le)
    else if k == "pr" then Some(Pr)
    else None
  }

  /** `*Condition`: nil, or the one struct that is a group when `op` says so and a leaf otherwise. */
  datatype Condition =
    | Nil
    | Cond(op: string, negated: bool, children: seq<Condition>, attribute: string, operator: string, value: string)

  predicate IsGroup(c: Condition) {
    c.Cond? && (c.op == "and" || c.op == "or")
  }

  function Group(op: string, children: seq<Condition>): Condition {
    Cond(op, false, children, "", "", "")
  }

  function NotGroup(op: string, children: seq<Condition>): Condition {
    Cond(op, true, children, "", "", "")
  }

  function Leaf(attribute: string, operator: string, value: string): Condition {
    Cond("", false, [], attribute, operator, value)
  }

  // ---------------------------------------------------------------- values

  predicate IsBoolWord(s: string) {
    ToLower(s) == "true" || ToLower(s) == "false"
  }

  /** A value as it is compared: without surrounding white space, and with booleans in lower case. */
  function Norm(v: string): string {
    var t := Trim(v);
    if IsBoolWord(t) then ToLower(t) else t
  }

  predicate FloatRune(c: char) {
    '0' <= c <= '9' || 'a' <= c <= 'f' || 'A' <= c <= 'F' ||
    c == 'x' || c == 'X' || c == 'p' || c == 'P' || c == '+' || c == '-' || c == '.' || c == '_'
  }

  /** Infinity or not-a-number, in any case and perhaps with a sign. */
  predicate IsNonFinite(v: string) {
    var word := ToLower(if v != "" && (v[0] == '+' || v[0] == '-') then v[1..] else v);
    word == "inf" || word == "infinity" || word == "nan"
  }

  /** `strconv.ParseFloat` succeeds. It accepts nothing but Go numerals and the names of infinity and
      not-a-number; which of these it accepts (syntax and range) is the host's to say. */
  predicate IsFloat(h: Host, v: string) {
    && v != ""
    && (IsNonFinite(v) || forall i | 0 <= i < |v| :: FloatRune(v[i]))
    && h.float(v)
  }

  function FormatValue(h: Host, raw: string, op: Operator): string {
    var v := Trim(raw);
    if IsBoolWord(v) then ToLower(v)
    else if IsNumeric(op) && IsFloat(h, v) then v
    else Quote(v)
  }

  function TrimNonEmpty(fields: seq<string>): seq<string> {
    if fields == [] then []
    else (if Trim(fields[0]) == "" then [] else [Trim(fields[0])]) + TrimNonEmpty(fields[1..])
  }

  function SplitList(raw: string): seq<string> {
    TrimNonEmpty(Split(raw, ','))
  }

  function FormatItems(h: Host, items: seq<string>): seq<string> {
    if items == [] then [] else [FormatValue(h, items[0], Eq)] + FormatItems(h, items[1..])
  }

  function ListText(h: Host, items: seq<string>): string {
    "[" + Join(FormatItems(h, items), ", ") + "]"
  }

  function FormatList(h: Host, raw: string): string {
    ListText(h, SplitList(raw))
  }

  function UnquoteItems(fields: seq<string>): seq<string> {
    if fields == [] then []
    else (if Trim(fields[0]) == "" then [] else [Unquote(Trim(fields[0]))]) + UnquoteItems(fields[1..])
  }

  function TrimPrefix(s: string, c: char): string {
    if s != "" && s[0] == c then s[1..] else s
  }

  function TrimSuffix(s: string, c: char): string {
    if s != "" && s[|s| - 1] == c then s[..|s| - 1] else s
  }

  function UnformatList(raw: string): string {
    var s := TrimSuffix(TrimPrefix(Trim(raw), '['), ']');
    Join(UnquoteItems(Split(s, ',')), ", ")
  }

  // ---------------------------------------------------------------- the printer

  function CompileLeaf(h: Host, c: Condition): Option<string>
    requires c.Cond?
  {
    var attr := Trim(c.attribute);
    if attr == "" then None else
    match LookupOperator(c.operator)
    case None => None
    case Some(op) =>
      if Arity(op) == 0 then
        Some("(" + attr + " " + Key(op) + ")")
      else if Arity(op) == 2 then
        var items := SplitList(c.value);
        if op == NotIn then
          if |items| == 1 then Some("(" + attr + " ne " + FormatValue(h, items[0], Ne) + ")")
          else Some("(not (" + attr + " in " + FormatList(h, c.value) + "))")
        else if |items| == 1 then Some("(" + attr + " eq " + FormatValue(h, items[0], Eq) + ")")
        else Some("(" + attr + " " + Key(op) + " " + FormatList(h, c.value) + ")")
      else
        Some("(" + attr + " " + Key(op) + " " + FormatValue(h, c.value, op) + ")")
  }

  /** `compile`: the text of a condition, or nothing when no part of it can be rendered. */
  function Compile(h: Host, c: Condition, top: bool): Option<string>
    decreases c, 1
  {
    if c == Nil then None
    else if IsGroup(c) then
      var parts := CompileAll(h, c.children);
      if |parts| == 0 then None
      else if |parts| == 1 then Some(if c.negated then "(not " + parts[0] + ")" else parts[0])
      else
        var joined := Join(parts, " " + c.op + " ");
        Some(if c.negated then "(not (" + joined + "))" else if top then joined else "(" + joined + ")")
    else CompileLeaf(h, c)
  }

  function CompileAll(h: Host, cs: seq<Condition>): seq<string>
    decreases cs, 0
  {
    if cs == [] then []
    else
      var rest := CompileAll(h, cs[1..]);
      match Compile(h, cs[0], false)
      case None => rest
      case Some(text) => [text] + rest
  }

  function CompileCondition(h: Host, c: Condition): string {
    match Compile(h, c, true)
    case None => ""
    case Some(text) => text
  }
}
