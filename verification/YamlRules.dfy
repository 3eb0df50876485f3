/** Writing the targeting rules of a flag back without losing what the studio does not model
    (internal/goff/adapter.go). */
module YamlRules {
  import opened Options
  import opened YamlEdit
  import opened YamlPaths
  import opened YamlTree
  import Conditions
  import Flags
  import Meaning
  import Parser
  import Queries
  import Reading
  import Scanner
  import Shortfalls
  import Spelling

  /** A rule in memory. */
  datatype Rule = Rule(data: Flags.Rule, condition: Conditions.Condition, advanced: bool)

  /** How the yaml library writes a table of percentages and a ramp. */
  datatype Encoder = Encoder(percentage: map<string, real> -> Node, ramp: Flags.ProgressiveRollout -> Node)

  ghost predicate EncodesPlainly(enc: Encoder) {
    (forall p :: Plain(enc.percentage(p))) && (forall r :: Plain(enc.ramp(r)))
  }

  const MODELLED := {"name", "query", "percentage", "variation", "disable", "progressiveRollout"}

  // ---------------------------------------------------------------- the rules as they were

  function TextOf(n: Node): string {
    match n
    case Scalar(_, Atom(_, text), _, _) => text
    case Alias(name, _) => name
    case _ => ""
  }

  predicate IsNamed(n: Node, name: string) {
    n.Mapping? && exists i | 0 <= i < |n.entries| :: n.entries[i].key == "name" && TextOf(n.entries[i].node) == name
  }

  /** The last rule of a name. */
  function RawRule(items: seq<Node>, name: string): (raw: Option<Node>)
    ensures raw.Some? ==> raw.value.Mapping? && IsNamed(raw.value, name) && raw.value in items
    ensures raw.None? <==> forall i | 0 <= i < |items| :: !IsNamed(items[i], name)
  {
    if items == [] then None
    else if IsNamed(items[|items| - 1], name) then Some(items[|items| - 1])
    else RawRule(items[..|items| - 1], name)
  }

  /** `originalRuleNode`, for a flag loaded from this node. */
  function OriginalNode(flag: Node, name: string): Option<Node>
    requires flag.Mapping?
  {
    match FieldNode(flag.entries, "targeting")
    case Some(Sequence(items, _, _)) => if name == "" then None else RawRule(items, name)
    case _ => None
  }

  /** The author's text stays while the condition is the loaded one. */
  function EffectiveQuery(h: Scanner.Host, r: Rule, originals: map<string, Rule>): string {
    if r.advanced || r.condition.Nil? then r.data.query
    else
      var compiled := Conditions.CompileCondition(h, r.condition);
      var name := r.data.name;
      if && name in originals && name != "" && originals[name].condition.Cond?
         && r.data.query == originals[name].data.query
         && Conditions.CompileCondition(h, originals[name].condition) == compiled
      then originals[name].data.query
      else compiled
  }

  predicate Unchanged(h: Scanner.Host, r: Rule, originals: map<string, Rule>) {
    var name := r.data.name;
    && name in originals && name != ""
    && r.data.disabled == originals[name].data.disabled
    && EffectiveQuery(h, r, originals) == originals[name].data.query
    && Flags.SameOutcome(r.data.outcome, originals[name].data.outcome)
    && r.data.progressive == originals[name].data.progressive
  }

  // ---------------------------------------------------------------- the rules as they are written

  function StringNode(text: string): Node {
    Scalar("!!str", Atom("string", text), "", FRESH)
  }

  function Made(key: string, node: Node): Entry {
    Entry(key, FRESH, node)
  }

  function TextEntry(key: string, text: string): seq<Entry> {
    if text == "" then [] else [Made(key, StringNode(text))]
  }

  function OutcomeEntries(enc: Encoder, o: Flags.Outcome): seq<Entry> {
    if o.percentage != map[] then [Made("percentage", enc.percentage(o.percentage))]
    else TextEntry("variation", o.variation)
  }

  function RampEntries(enc: Encoder, ramp: Option<Flags.ProgressiveRollout>): seq<Entry> {
    match ramp
    case None => []
    case Some(r) => [Made("progressiveRollout", enc.ramp(r))]
  }

  function ModelledEntries(h: Scanner.Host, enc: Encoder, r: Rule, originals: map<string, Rule>): seq<Entry> {
    TextEntry("name", r.data.name)
    + TextEntry("query", EffectiveQuery(h, r, originals))
    + OutcomeEntries(enc, r.data.outcome)
    + (if r.data.disabled then [Made("disable", DISABLED)] else [])
    + RampEntries(enc, r.data.progressive)
  }

  /** `ruleBody`. */
  function RuleBody(h: Scanner.Host, enc: Encoder, r: Rule, originals: map<string, Rule>, flag: Node): Node
    requires flag.Mapping?
  {
    match OriginalNode(flag, r.data.name)
    case None => Mapping(ModelledEntries(h, enc, r, originals), "", FRESH)
    case Some(raw) =>
      if Unchanged(h, r, originals) then raw
      else
        var carried := if raw.Mapping? then Others(raw.entries, MODELLED) else [];
        Mapping(ModelledEntries(h, enc, r, originals) + carried, "", FRESH)
  }

  /** `ruleBodies`. */
  function RuleBodies(h: Scanner.Host, enc: Encoder, rules: seq<Rule>, originals: map<string, Rule>, flag: Node): Node
    requires flag.Mapping?
  {
    Sequence(seq(|rules|, i requires 0 <= i < |rules| => RuleBody(h, enc, rules[i], originals, flag)), "", FRESH)
  }

  // ---------------------------------------------------------------- what a written rule keeps

  predicate AreModelled(entries: seq<Entry>) {
    forall i | 0 <= i < |entries| :: entries[i].key in MODELLED && Plain(entries[i].node)
  }

  lemma {:induction false} ModelledConcat(a: seq<Entry>, b: seq<Entry>)
    requires AreModelled(a) && AreModelled(b)
    ensures AreModelled(a + b)
  {
  }

  lemma {:induction false} PartsAreModelled(enc: Encoder, d: Flags.Rule, query: string)
    requires EncodesPlainly(enc)
    ensures AreModelled(TextEntry("name", d.name)) && AreModelled(TextEntry("query", query))
    ensures AreModelled(OutcomeEntries(enc, d.outcome)) && AreModelled(RampEntries(enc, d.progressive))
    ensures AreModelled(if d.disabled then [Made("disable", DISABLED)] else [])
  {
  }

  lemma {:induction false} MadeAreModelled(h: Scanner.Host, enc: Encoder, r: Rule, originals: map<string, Rule>)
    requires EncodesPlainly(enc)
    ensures AreModelled(ModelledEntries(h, enc, r, originals))
  {
    hide EffectiveQuery, AreModelled, TextEntry, OutcomeEntries, RampEntries;
    var query := EffectiveQuery(h, r, originals);
    PartsAreModelled(enc, r.data, query);
    var name, asked := TextEntry("name", r.data.name), TextEntry("query", query);
    var outcome := OutcomeEntries(enc, r.data.outcome);
    var off := if r.data.disabled then [Made("disable", DISABLED)] else [];
    ModelledConcat(name, asked);
    ModelledConcat(name + asked, outcome);
    ModelledConcat(name + asked + outcome, off);
    ModelledConcat(name + asked + outcome + off, RampEntries(enc, r.data.progressive));
  }

  lemma {:induction false} OthersOfModelled(entries: seq<Entry>, fields: set<string>)
    requires forall i | 0 <= i < |entries| :: entries[i].key in fields
    ensures Others(entries, fields) == []
  {
    if entries != [] {
      OthersOfModelled(entries[1..], fields);
    }
  }

  lemma {:induction false} OthersOfOthers(entries: seq<Entry>, fields: set<string>)
    ensures Others(Others(entries, fields), fields) == Others(entries, fields)
  {
    OthersMore(entries, fields, fields);
  }

  /** A named rule that is still there carries every entry the studio does not model: the same nodes, in order. */
  lemma {:induction false} CarriesUnmodelled(h: Scanner.Host, enc: Encoder, r: Rule, originals: map<string, Rule>,
                                             flag: Node)
    requires flag.Mapping? && EncodesPlainly(enc) && OriginalNode(flag, r.data.name).Some?
    ensures var raw, body := OriginalNode(flag, r.data.name).value, RuleBody(h, enc, r, originals, flag);
            && raw.Mapping? && body.Mapping? && Others(body.entries, MODELLED) == Others(raw.entries, MODELLED)
  {
    hide Unchanged, EffectiveQuery, ModelledEntries;
    var raw := OriginalNode(flag, r.data.name).value;
    if !Unchanged(h, r, originals) {
      var made, carried := ModelledEntries(h, enc, r, originals), Others(raw.entries, MODELLED);
      MadeAreModelled(h, enc, r, originals);
      OthersConcat(made, carried, MODELLED);
      OthersOfModelled(made, MODELLED);
      OthersOfOthers(raw.entries, MODELLED);
    }
  }

  lemma {:induction false} OthersAnchor(entries: seq<Entry>, fields: set<string>, i: nat)
    requires i < |Others(entries, fields)|
    ensures exists j | 0 <= j < |entries| :: entries[j] == Others(entries, fields)[i]
  {
    var rest := Others(entries[1..], fields);
    if entries[0].key in fields {
      OthersAnchor(entries[1..], fields, i);
      var j :| 0 <= j < |entries| - 1 && entries[1..][j] == rest[i];
      assert entries[j + 1] == rest[i];
    } else if i > 0 {
      OthersAnchor(entries[1..], fields, i - 1);
      var j :| 0 <= j < |entries| - 1 && entries[1..][j] == rest[i - 1];
      assert entries[j + 1] == rest[i - 1];
    } else {
      assert Others(entries, fields)[0] == entries[0];
    }
  }

  /** A written rule has an anchor only if the rule it comes from has. */
  lemma {:induction false} BodyAnchor(h: Scanner.Host, enc: Encoder, r: Rule, originals: map<string, Rule>, flag: Node)
    requires flag.Mapping? && EncodesPlainly(enc) && HasAnchor(RuleBody(h, enc, r, originals, flag))
    ensures OriginalNode(flag, r.data.name).Some? && HasAnchor(OriginalNode(flag, r.data.name).value)
  {
    hide Unchanged, EffectiveQuery, ModelledEntries, OriginalNode, Others;
    var made, body := ModelledEntries(h, enc, r, originals), RuleBody(h, enc, r, originals, flag);
    MadeAreModelled(h, enc, r, originals);
    forall i | 0 <= i < |made|
      ensures !HasAnchor(made[i].node)
    {
      PlainHasNoAnchor(made[i].node);
    }
    if OriginalNode(flag, r.data.name).Some? && !Unchanged(h, r, originals) {
      var raw := OriginalNode(flag, r.data.name).value;
      assert body.entries == made + Others(raw.entries, MODELLED);
      var i :| 0 <= i < |body.entries| && HasAnchor(body.entries[i].node);
      assert i >= |made|;
      OthersAnchor(raw.entries, MODELLED, i - |made|);
      var j :| 0 <= j < |raw.entries| && raw.entries[j] == body.entries[i];
    }
  }

  /** The written rules may go into the targeting field: they bring no anchor that is not already there. */
  lemma {:induction false} RuleBodiesFit(h: Scanner.Host, enc: Encoder, rules: seq<Rule>, originals: map<string, Rule>,
                                         flag: Node)
    requires flag.Mapping? && EncodesPlainly(enc)
    ensures MayBring(flag, SetTo("targeting", RuleBodies(h, enc, rules, originals, flag)))
  {
    hide RuleBody;
    var bodies := RuleBodies(h, enc, rules, originals, flag);
    if HasAnchor(bodies) {
      var i :| 0 <= i < |bodies.items| && HasAnchor(bodies.items[i]);
      BodyAnchor(h, enc, rules[i], originals, flag);
      var was := FieldNode(flag.entries, "targeting").value;
      var raw := OriginalNode(flag, rules[i].data.name).value;
      assert raw in was.items;
      var j :| 0 <= j < |was.items| && was.items[j] == raw;
    }
  }

  // ---------------------------------------------------------------- values

  lemma {:induction false} ItemsWithoutAnchorsAt(env: Env, items: seq<Node>, i: nat)
    requires i < |items| && forall k | 0 <= k < |items| :: !HasAnchor(items[k])
    ensures |ItemsOf(env, items)| == |items| && ItemsOf(env, items)[i] == Value(env, items[i])
    decreases |items|
  {
    NoAnchorNoChange(env, items[0]);
    if i > 0 {
      ItemsWithoutAnchorsAt(env, items[1..], i - 1);
    } else if |items| > 1 {
      ItemsWithoutAnchorsAt(env, items[1..], 0);
    }
  }

  /** Without anchors inside, a field's value depends on the entries of other fields only through `Others`. */
  lemma {:induction false} FieldsOfOthers(env: Env, entries: seq<Entry>, fields: set<string>, key: string)
    requires key !in fields && forall i | 0 <= i < |entries| :: !HasAnchor(entries[i].node)
    ensures key in FieldsOf(env, entries) <==> key in FieldsOf(env, Others(entries, fields))
    ensures key in FieldsOf(env, entries) ==>
              FieldsOf(env, entries)[key] == FieldsOf(env, Others(entries, fields))[key]
    decreases |entries|
  {
    if entries != [] {
      NoAnchorNoChange(env, entries[0].node);
      FieldsOfOthers(env, entries[1..], fields, key);
      var rest := Others(entries[1..], fields);
      if entries[0].key in fields {
        assert [] + rest == rest;
      } else {
        assert ([entries[0]] + rest)[1..] == rest;
      }
    }
  }

  /** The value of a written rule has every field the studio does not model, with the value it had. */
  lemma {:induction false} BodyValue(env: Env, raw: Node, body: Node, key: string)
    requires raw.Mapping? && body.Mapping? && !HasAnchor(raw) && !HasAnchor(body)
    requires Others(body.entries, MODELLED) == Others(raw.entries, MODELLED) && key !in MODELLED
    ensures var was, now := FieldsOf(env, raw.entries), FieldsOf(env, body.entries);
            (key in was <==> key in now) && (key in was ==> now[key] == was[key])
  {
    FieldsOfOthers(env, raw.entries, MODELLED, key);
    FieldsOfOthers(env, body.entries, MODELLED, key);
  }

  /** Every unmodelled field, in every environment. */
  ghost predicate KeepsUnmodelled(env: Env, was: Node, now: Datum) {
    && was.Mapping? && now.Table?
    && forall key | key !in MODELLED ::
         && (key in FieldsOf(env, was.entries) <==> key in now.fields)
         && (key in now.fields ==> now.fields[key] == FieldsOf(env, was.entries)[key])
  }

  /** The named rules that stay carry their unmodelled fields, value by value. */
  lemma {:induction false} BodiesKeep(env: Env, h: Scanner.Host, enc: Encoder, rules: seq<Rule>,
                                      originals: map<string, Rule>, flag: Node, k: nat)
    requires flag.Mapping? && EncodesPlainly(enc) && k < |rules|
    requires OriginalNode(flag, rules[k].data.name).Some?
    requires !HasAnchor(FieldNode(flag.entries, "targeting").value)
    ensures var written := Value(env, RuleBodies(h, enc, rules, originals, flag));
            && written.List? && |written.items| == |rules|
            && KeepsUnmodelled(env, OriginalNode(flag, rules[k].data.name).value, written.items[k])
  {
    hide RuleBody, FieldsOf, Others;
    var bodies := RuleBodies(h, enc, rules, originals, flag);
    var raw, body := OriginalNode(flag, rules[k].data.name).value, bodies.items[k];
    RuleBodiesFit(h, enc, rules, originals, flag);
    assert !HasAnchor(bodies);
    var was := FieldNode(flag.entries, "targeting").value;
    var j :| 0 <= j < |was.items| && was.items[j] == raw;
    assert !HasAnchor(raw);
    ItemsWithoutAnchorsAt(env, bodies.items, k);
    CarriesUnmodelled(h, enc, rules[k], originals, flag);
    forall key | key !in MODELLED
      ensures key in FieldsOf(env, raw.entries) <==> key in FieldsOf(env, body.entries)
      ensures key in FieldsOf(env, body.entries) ==> FieldsOf(env, body.entries)[key] == FieldsOf(env, raw.entries)[key]
    {
      BodyValue(env, raw, body, key);
    }
  }

  /** `Serialize` of a loaded flag keeps every unmodelled field of each named rule it still writes. When there is an
      anchor in the rules, they stay exactly as they were, or the edit is refused. */
  lemma {:induction false} RulesSurvive(doc: seq<Entry>, i: nat, d: Draft, h: Scanner.Host, enc: Encoder,
                                        rules: seq<Rule>, originals: map<string, Rule>)
    requires i < |doc| && doc[i].node.Mapping? && SerializeIn(doc, i, d).Ok?
    requires EncodesPlainly(enc) && DraftFits(doc[i].node, d) && DistinctKeys(doc[i].node.entries)
    requires d.targeting == Some(RuleBodies(h, enc, rules, originals, doc[i].node))
    ensures var flag, now := doc[i].node, SerializeIn(doc, i, d).value[i].node;
            var here := AfterEntries(map[], doc[..i]);
            var place := EnvFor(here, flag.entries, "targeting");
            && now.Mapping? && "targeting" in FieldsOf(here, now.entries)
            && var written := FieldsOf(here, now.entries)["targeting"];
            && written == Value(place, d.targeting.value)
            && (forall k | 0 <= k < |rules| && OriginalNode(flag, rules[k].data.name).Some? ::
                  var raw, was := OriginalNode(flag, rules[k].data.name).value, FieldNode(flag.entries, "targeting");
                  if HasAnchor(was.value) then FieldNode(now.entries, "targeting") == was
                  else written.List? && |written.items| == |rules| && KeepsUnmodelled(place, raw, written.items[k]))
  {
    hide RuleBody, RuleBodies, FieldsOf, KeepsUnmodelled, KeepsRest, EnvFor, HasAnchor, DraftFits, SetFieldIn,
         InEntries;
    var here, flag, edits := AfterEntries(map[], doc[..i]), doc[i].node, SerializeEdits(d);
    var place := EnvFor(here, flag.entries, "targeting");
    SerializeEditsFit(flag, d);
    EditAllKeeps(here, flag, edits, EDITED_FIELDS);
    EditAllHolds(here, flag, edits);
    var now := EditAll(here, flag, edits).value;
    assert edits[2] == SetTo("targeting", d.targeting.value);
    assert EditHolds(here, flag.entries, now.entries, edits[2]);
    forall k | 0 <= k < |rules| && OriginalNode(flag, rules[k].data.name).Some?
      ensures var raw, was := OriginalNode(flag, rules[k].data.name).value, FieldNode(flag.entries, "targeting");
              var written := FieldsOf(here, now.entries)["targeting"];
              if HasAnchor(was.value) then FieldNode(now.entries, "targeting") == was
              else written.List? && |written.items| == |rules| && KeepsUnmodelled(place, raw, written.items[k])
    {
      if HasAnchor(FieldNode(flag.entries, "targeting").value) {
        PlaceOfKey(here, flag.entries, "targeting");
        AnchoredFieldStays(here, flag, edits, "targeting");
        InEntriesHas(here, now.entries, "targeting");
        PlaceOfKey(here, now.entries, "targeting");
      } else {
        BodiesKeep(place, h, enc, rules, originals, flag, k);
      }
    }
  }

  // ---------------------------------------------------------------- rules nobody touched

  /** There is a loaded rule of that name with the same text, and the condition still prints as its condition did. */
  predicate HasSameText(h: Scanner.Host, r: Rule, originals: map<string, Rule>) {
    var name := r.data.name;
    && name in originals && name != "" && originals[name].condition.Cond?
    && r.data.query == originals[name].data.query
    && Conditions.CompileCondition(h, originals[name].condition) == Conditions.CompileCondition(h, r.condition)
  }

  /** When a rule's own query text is what gets written: it has no condition of its own, a rule of its name stands for
      it, or it already reads as printing has it. */
  predicate WritesOwnText(h: Scanner.Host, r: Rule, originals: map<string, Rule>) {
    || r.advanced || r.condition.Nil?
    || HasSameText(h, r, originals)
    || Conditions.CompileCondition(h, r.condition) == r.data.query
  }

  /** The query text of a rule survives an edit of the flag exactly then. */
  lemma {:induction false} AuthorsTextStaysIff(h: Scanner.Host, r: Rule, originals: map<string, Rule>)
    ensures EffectiveQuery(h, r, originals) == r.data.query <==> WritesOwnText(h, r, originals)
  {
  }

  /** An edit elsewhere in a named rule never rewrites the author's query. */
  lemma {:induction false} AuthorsTextStays(h: Scanner.Host, r: Rule, originals: map<string, Rule>)
    requires r.data.name != "" && r.data.name in originals
    requires var was := originals[r.data.name];
             r.data.query == was.data.query && r.condition == was.condition && r.advanced == was.advanced
    ensures EffectiveQuery(h, r, originals) == originals[r.data.name].data.query
  {
  }

  /** A rule carries the unmodelled entries of the rule `was` exactly if the last rule of its name has the same ones,
      or, when there is none, if there is nothing to carry. */
  lemma {:induction false} CarriesExactly(h: Scanner.Host, enc: Encoder, r: Rule, originals: map<string, Rule>,
                                          flag: Node, was: Node)
    requires flag.Mapping? && was.Mapping? && EncodesPlainly(enc)
    ensures var body := RuleBody(h, enc, r, originals, flag);
            && body.Mapping?
            && (Others(body.entries, MODELLED) == Others(was.entries, MODELLED) <==>
                match OriginalNode(flag, r.data.name)
                case Some(raw) => raw.Mapping? && Others(raw.entries, MODELLED) == Others(was.entries, MODELLED)
                case None => Others(was.entries, MODELLED) == [])
  {
    hide Unchanged, EffectiveQuery, ModelledEntries;
    match OriginalNode(flag, r.data.name) {
      case Some(raw) => CarriesUnmodelled(h, enc, r, originals, flag);
      case None =>
        MadeAreModelled(h, enc, r, originals);
        OthersOfModelled(ModelledEntries(h, enc, r, originals), MODELLED);
    }
  }

  /** A rule without a name loses every entry the studio does not model, on any edit of its flag. */
  lemma {:induction false} UnnamedRuleLosesUnmodelled(h: Scanner.Host, enc: Encoder, r: Rule,
                                                      originals: map<string, Rule>, flag: Node)
    requires flag.Mapping? && EncodesPlainly(enc) && r.data.name == ""
    ensures var body := RuleBody(h, enc, r, originals, flag);
            && body == Mapping(ModelledEntries(h, enc, r, originals), "", FRESH)
            && Others(body.entries, MODELLED) == []
  {
    MadeAreModelled(h, enc, r, originals);
    OthersOfModelled(ModelledEntries(h, enc, r, originals), MODELLED);
  }

  /** A rule as it is loaded. A query the parser never ends on would keep the flag from being loaded at all. */
  function LoadedRule(h: Scanner.Host, data: Flags.Rule): Rule {
    match Parser.ParseQuery(h, data.query)
    case ParsedQuery(condition, true) => Rule(data, condition, false)
    case _ => Rule(data, Conditions.Nil, true)
  }

  /** A handwritten query that is not the text of a rule of its name in the file, as for a rule without a name or a text
      just typed, is written as the printed one: `not (q) and (r)` becomes the negation of both. */
  lemma {:induction false} HandwrittenIsRewritten(h: Scanner.Host, data: Flags.Rule, q: Queries.Query, join: string,
                                                  r: Queries.Query, originals: map<string, Rule>)
    requires join == "and" || join == "or"
    requires data.query == Shortfalls.Handwritten(h, q, join, r)
    requires data.name != "" && data.name in originals ==> originals[data.name].data.query != data.query
    requires Queries.WellFormed(q) && Queries.WellFormed(r) && Meaning.Printable(h, q) && Meaning.Printable(h, r)
    ensures var rule := LoadedRule(h, data);
            && !rule.advanced && !WritesOwnText(h, rule, originals)
            && EffectiveQuery(h, rule, originals)
               == Queries.Text(h, Queries.Negation(Queries.Chain(join, [q, r]))) != data.query
  {
    hide Conditions.CompileCondition, Parser.ParseExpr, Reading.Reread, Queries.Text, Queries.Body, Meaning.Printable,
         Queries.WellFormed, Shortfalls.Handwritten;
    Shortfalls.ReadHandwritten(h, q, join, r);
    AuthorsTextStaysIff(h, LoadedRule(h, data), originals);
  }

  /** A query with both joining words is not shown in the builder and stays as it is written. */
  lemma {:induction false} MixedStaysAsWritten(h: Scanner.Host, data: Flags.Rule, q: Queries.Query, j: string,
                                               r: Queries.Query, k: string, t: Queries.Query,
                                               originals: map<string, Rule>)
    requires Queries.WellFormed(q) && Queries.WellFormed(r) && Queries.WellFormed(t)
    requires (j == "and" || j == "or") && (k == "and" || k == "or") && j != k
    requires data.query == Queries.Text(h, q) + (" " + j + " ") + Queries.Text(h, r) + (" " + k + " ")
                           + Queries.Text(h, t)
    ensures LoadedRule(h, data) == Rule(data, Conditions.Nil, true)
    ensures EffectiveQuery(h, LoadedRule(h, data), originals) == data.query
  {
    hide Parser.ParseQuery, Queries.Text, Queries.WellFormed;
    Spelling.MixedIsRefused(h, q, j, r, k, t);
  }

  /** Such a rule, of any name: a user with neither attribute does not match the text that was written, but does match
      the text that is written back. */
  lemma {:induction false} HandwrittenServesOthers(h: Scanner.Host, name: string, originals: map<string, Rule>)
    returns (data: Flags.Rule, env: Meaning.Assignment)
    requires var q, r := Queries.Present("beta"), Queries.Present("staff");
             name != "" && name in originals ==>
               originals[name].data.query != Shortfalls.Handwritten(h, q, "and", r)
    ensures data.name == name && EffectiveQuery(h, LoadedRule(h, data), originals) != data.query
    ensures var q, r := Queries.Present("beta"), Queries.Present("staff");
            && data.query == Shortfalls.Handwritten(h, q, "and", r)
            && EffectiveQuery(h, LoadedRule(h, data), originals)
               == Queries.Text(h, Queries.Negation(Queries.Chain("and", [q, r])))
            && Meaning.Means(env, Queries.Negation(Queries.Chain("and", [q, r])))
            && !Meaning.Means(env, Queries.Chain("and", [Queries.Negation(q), r]))
  {
    hide Shortfalls.Handwritten, Queries.Text, EffectiveQuery, LoadedRule, WritesOwnText, Meaning.Means,
         Meaning.TestHolds, Queries.WellFormed, Meaning.Printable;
    var q, r := Queries.Present("beta"), Queries.Present("staff");
    data := Flags.Rule(name, Shortfalls.Handwritten(h, q, "and", r), false, Flags.Outcome("on", map[]), None);
    env := (_, _, _) => false;
    Shortfalls.WordPrints(h, "beta");
    Shortfalls.WordPrints(h, "staff");
    HandwrittenIsRewritten(h, data, q, "and", r, originals);
    Shortfalls.TwoMean(env, q, r);
    Shortfalls.TwoMean(env, Queries.Negation(q), r);
    Shortfalls.NotMeans(env, Queries.Chain("and", [q, r]));
    NobodyMeans("beta");
    NobodyMeans("staff");
  }

  lemma {:induction false} NobodyMeans(attr: string)
    ensures !Meaning.Means((_, _, _) => false, Queries.Present(attr))
  {
  }

  /** The loaded rules by name; of two with one name the last. */
  function ByName(rules: seq<Rule>): map<string, Rule> {
    if rules == [] then map[]
    else
      var last := rules[|rules| - 1];
      var before := ByName(rules[..|rules| - 1]);
      if last.data.name == "" then before else before[last.data.name := last]
  }

  predicate IsLastOfName(rules: seq<Rule>, k: nat)
    requires k < |rules|
  {
    rules[k].data.name != "" && forall j | k < j < |rules| :: rules[j].data.name != rules[k].data.name
  }

  lemma {:induction false} ByNameHas(rules: seq<Rule>, k: nat)
    requires k < |rules| && IsLastOfName(rules, k)
    ensures rules[k].data.name in ByName(rules) && ByName(rules)[rules[k].data.name] == rules[k]
    decreases |rules|
  {
    var last := |rules| - 1;
    if k < last {
      var front := rules[..last];
      assert forall j | 0 <= j < last :: front[j] == rules[j];
      assert IsLastOfName(front, k);
      ByNameHas(front, k);
    }
  }

  lemma {:induction false} RawRuleIsTheLast(items: seq<Node>, name: string, k: nat)
    requires k < |items| && IsNamed(items[k], name) && forall j | k < j < |items| :: !IsNamed(items[j], name)
    ensures RawRule(items, name) == Some(items[k])
    decreases |items|
  {
    hide IsNamed;
    var last := |items| - 1;
    if k < last {
      var front := items[..last];
      assert forall j | 0 <= j < last :: front[j] == items[j];
      RawRuleIsTheLast(front, name, k);
    }
  }

  /** Rules that come back as they were loaded: the last rule of a name is written as the very node it came from, and a
      rule without a name is written anew, with only what the studio models. */
  lemma {:induction false} UneditedRulesStay(h: Scanner.Host, enc: Encoder, rules: seq<Rule>, flag: Node,
                                             items: seq<Node>)
    requires flag.Mapping? && FieldNode(flag.entries, "targeting").Some? && EncodesPlainly(enc)
    requires var was := FieldNode(flag.entries, "targeting").value; was.Sequence? && was.items == items
    requires |rules| == |items|
    requires forall k, j | 0 <= k < |rules| && 0 <= j < |items| && rules[k].data.name != "" ::
               IsNamed(items[j], rules[k].data.name) <==> rules[j].data.name == rules[k].data.name
    ensures var written := RuleBodies(h, enc, rules, ByName(rules), flag).items;
            && |written| == |items|
            && (forall k | 0 <= k < |rules| && IsLastOfName(rules, k) :: written[k] == items[k])
            && (forall k | 0 <= k < |rules| && rules[k].data.name == "" ::
                  written[k] == Mapping(ModelledEntries(h, enc, rules[k], ByName(rules)), "", FRESH))
  {
    hide IsNamed, RawRule, ModelledEntries, ByName;
    forall k | 0 <= k < |rules| && IsLastOfName(rules, k)
      ensures RuleBody(h, enc, rules[k], ByName(rules), flag) == items[k]
    {
      RawRuleIsTheLast(items, rules[k].data.name, k);
      ByNameHas(rules, k);
      AuthorsTextStays(h, rules[k], ByName(rules));
    }
  }
}
