/** What a written rule and a written flag say when they are read again (internal/goff/adapter.go). */
module FlagReading {
  import opened Collections
  import opened Options
  import opened YamlTree
  import opened YamlPaths
  import opened YamlEdit
  import opened YamlRules
  import Conditions
  import Flags
  import Promotion
  import PromotedDrift
  import Scanner

  // ---------------------------------------------------------------- the fields of a written rule

  function TextDatum(text: string): Option<Datum> {
    if text == "" then None else Some(Atom("string", text))
  }

  lemma {:induction false} KeysElsewhere(env: Env, entries: seq<Entry>, fields: set<string>, key: string)
    requires key in fields
    ensures key !in FieldsOf(env, Others(entries, fields))
    decreases |entries|
  {
    if entries != [] {
      KeysElsewhere(env, entries[1..], fields, key);
      var rest := Others(entries[1..], fields);
      if entries[0].key in fields {
        assert [] + rest == rest;
      } else {
        assert ([entries[0]] + rest)[1..] == rest;
        KeysElsewhere(After(env, entries[0].node), entries[1..], fields, key);
      }
    }
  }

  /** The fields of one optional entry. */
  function OneField(key: string, value: Option<Datum>): map<string, Datum> {
    match value
    case Some(d) => map[key := d]
    case None => map[]
  }

  lemma {:induction false} FieldsOfText(env: Env, key: string, text: string)
    ensures FieldsOf(env, TextEntry(key, text)) == OneField(key, TextDatum(text))
    ensures AfterEntries(env, TextEntry(key, text)) == env
  {
    if text != "" {
      assert TextEntry(key, text)[1..] == [];
    }
  }

  lemma {:induction false} FieldsOfMade(env: Env, key: string, node: Node)
    requires Plain(node)
    ensures FieldsOf(env, [Made(key, node)]) == OneField(key, Some(Value(map[], node)))
    ensures AfterEntries(env, [Made(key, node)]) == env
  {
    assert [Made(key, node)][1..] == [];
    PlainHasNoAnchor(node);
    NoAnchorNoChange(env, node);
    PlainValue(env, map[], node);
  }

  function PercentageDatum(enc: Encoder, o: Flags.Outcome): Option<Datum> {
    if o.percentage == map[] then None else Some(Value(map[], enc.percentage(o.percentage)))
  }

  /** Without percentages the variation is written, if there is one. */
  function VariationDatum(o: Flags.Outcome): Option<Datum> {
    if o.percentage == map[] then TextDatum(o.variation) else None
  }

  function RampDatum(enc: Encoder, ramp: Option<Flags.ProgressiveRollout>): Option<Datum> {
    match ramp
    case None => None
    case Some(p) => Some(Value(map[], enc.ramp(p)))
  }

  function DisableDatum(disabled: bool): Option<Datum> {
    if disabled then Some(Atom("bool", "true")) else None
  }

  lemma {:induction false} FieldsOfOutcome(env: Env, enc: Encoder, o: Flags.Outcome)
    requires EncodesPlainly(enc)
    ensures FieldsOf(env, OutcomeEntries(enc, o))
         == OneField("percentage", PercentageDatum(enc, o)) + OneField("variation", VariationDatum(o))
    ensures AfterEntries(env, OutcomeEntries(enc, o)) == env
  {
    if o.percentage != map[] {
      FieldsOfMade(env, "percentage", enc.percentage(o.percentage));
    } else {
      FieldsOfText(env, "variation", o.variation);
    }
  }

  /** What a rule says in the file, field by field. */
  ghost predicate RuleSays(enc: Encoder, fields: map<string, Datum>, data: Flags.Rule, query: string) {
    && Lookup(fields, "name") == TextDatum(data.name)
    && Lookup(fields, "query") == TextDatum(query)
    && Lookup(fields, "percentage") == PercentageDatum(enc, data.outcome)
    && Lookup(fields, "variation") == VariationDatum(data.outcome)
    && Lookup(fields, "disable") == DisableDatum(data.disabled)
    && Lookup(fields, "progressiveRollout") == RampDatum(enc, data.progressive)
  }

  function Lookup(fields: map<string, Datum>, key: string): Option<Datum> {
    if key in fields then Some(fields[key]) else None
  }

  lemma {:induction false} TwoParts(env: Env, a: seq<Entry>, b: seq<Entry>, x: map<string, Datum>,
                                    y: map<string, Datum>)
    requires FieldsOf(env, a) == x && AfterEntries(env, a) == env
    requires FieldsOf(env, b) == y && AfterEntries(env, b) == env
    ensures FieldsOf(env, a + b) == x + y && AfterEntries(env, a + b) == env
  {
    EntriesConcat(env, a, b);
  }

  lemma {:induction false} ModelledSay(env: Env, h: Scanner.Host, enc: Encoder, r: Rule, originals: map<string, Rule>)
    requires EncodesPlainly(enc)
    ensures var made := ModelledEntries(h, enc, r, originals);
            && AfterEntries(env, made) == env
            && RuleSays(enc, FieldsOf(env, made), r.data, EffectiveQuery(h, r, originals))
  {
    hide EffectiveQuery, FieldsOf, AfterEntries, TextEntry, OutcomeEntries, RampEntries, Value, TextDatum, OneField,
         PercentageDatum, VariationDatum, DisableDatum, RampDatum, Lookup;
    var query := EffectiveQuery(h, r, originals);
    var name, asked := TextEntry("name", r.data.name), TextEntry("query", query);
    var outcome := OutcomeEntries(enc, r.data.outcome);
    var off := if r.data.disabled then [Made("disable", DISABLED)] else [];
    var ramp := RampEntries(enc, r.data.progressive);
    FieldsOfText(env, "name", r.data.name);
    FieldsOfText(env, "query", query);
    FieldsOfOutcome(env, enc, r.data.outcome);
    FieldsOfRest(env, enc, r.data);
    var a, b := OneField("name", TextDatum(r.data.name)), OneField("query", TextDatum(query));
    var c := OneField("percentage", PercentageDatum(enc, r.data.outcome))
           + OneField("variation", VariationDatum(r.data.outcome));
    var d, e := OneField("disable", DisableDatum(r.data.disabled)),
                OneField("progressiveRollout", RampDatum(enc, r.data.progressive));
    TwoParts(env, name, asked, a, b);
    TwoParts(env, name + asked, outcome, a + b, c);
    TwoParts(env, name + asked + outcome, off, a + b + c, d);
    TwoParts(env, name + asked + outcome + off, ramp, a + b + c + d, e);
    AllFields(TextDatum(r.data.name), TextDatum(query), PercentageDatum(enc, r.data.outcome),
              VariationDatum(r.data.outcome), DisableDatum(r.data.disabled), RampDatum(enc, r.data.progressive));
  }

  lemma {:induction false} AllFields(name: Option<Datum>, query: Option<Datum>, percentage: Option<Datum>,
                                     variation: Option<Datum>, disable: Option<Datum>, ramp: Option<Datum>)
    ensures var all := OneField("name", name) + OneField("query", query)
                       + (OneField("percentage", percentage) + OneField("variation", variation))
                       + OneField("disable", disable) + OneField("progressiveRollout", ramp);
            && Lookup(all, "name") == name && Lookup(all, "query") == query
            && Lookup(all, "percentage") == percentage && Lookup(all, "variation") == variation
            && Lookup(all, "disable") == disable && Lookup(all, "progressiveRollout") == ramp
  {
    hide OneField, Lookup;
    var a, b := OneField("name", name), OneField("query", query);
    var c1, c2 := OneField("percentage", percentage), OneField("variation", variation);
    var d, e := OneField("disable", disable), OneField("progressiveRollout", ramp);
    NoField("name", name);
    FieldBeside(a, "query", query);
    FieldBeside(c1, "variation", variation);
    NoField("percentage", percentage);
    FieldsBeside(a + b, c1 + c2);
    FieldBeside(a + b + (c1 + c2), "disable", disable);
    FieldBeside(a + b + (c1 + c2) + d, "progressiveRollout", ramp);
  }

  lemma {:induction false} NoField(key: string, value: Option<Datum>)
    ensures forall k :: Lookup(OneField(key, value), k) == if k == key then value else None
  {
  }

  lemma {:induction false} FieldBeside(fields: map<string, Datum>, key: string, value: Option<Datum>)
    ensures forall k :: Lookup(fields + OneField(key, value), k)
                     == if k == key && value.Some? then value else Lookup(fields, k)
  {
  }

  lemma {:induction false} FieldsBeside(a: map<string, Datum>, b: map<string, Datum>)
    ensures forall k :: Lookup(a + b, k) == if Lookup(b, k).Some? then Lookup(b, k) else Lookup(a, k)
  {
  }

  lemma {:induction false} FieldsOfRest(env: Env, enc: Encoder, data: Flags.Rule)
    requires EncodesPlainly(enc)
    ensures var off := if data.disabled then [Made("disable", DISABLED)] else [];
            && FieldsOf(env, off) == OneField("disable", DisableDatum(data.disabled)) && AfterEntries(env, off) == env
    ensures var ramp := RampEntries(enc, data.progressive);
            && FieldsOf(env, ramp) == OneField("progressiveRollout", RampDatum(enc, data.progressive))
            && AfterEntries(env, ramp) == env
  {
    FieldsOfMade(env, "disable", DISABLED);
    if data.progressive.Some? {
      FieldsOfMade(env, "progressiveRollout", enc.ramp(data.progressive.value));
    }
  }

  /** A rule is written anew unless the file has one of its name that it is taken for. */
  predicate IsWrittenAnew(h: Scanner.Host, r: Rule, originals: map<string, Rule>, flag: Node)
    requires flag.Mapping?
  {
    OriginalNode(flag, r.data.name).None? || !Unchanged(h, r, originals)
  }

  /** A rule that is written anew says its own settings, with the effective query, and nothing where it has nothing to
      say; whatever it carries along. */
  lemma {:induction false} BodySays(env: Env, h: Scanner.Host, enc: Encoder, r: Rule, originals: map<string, Rule>,
                                    flag: Node)
    requires flag.Mapping? && EncodesPlainly(enc) && IsWrittenAnew(h, r, originals, flag)
    ensures var body := RuleBody(h, enc, r, originals, flag);
            && body.Mapping?
            && RuleSays(enc, FieldsOf(env, body.entries), r.data, EffectiveQuery(h, r, originals))
  {
    hide EffectiveQuery, Unchanged, FieldsOf, ModelledEntries, OriginalNode, TextDatum, PercentageDatum, VariationDatum,
         DisableDatum, RampDatum, AfterEntries;
    ModelledSay(env, h, enc, r, originals);
    if OriginalNode(flag, r.data.name).Some? {
      var made, raw := ModelledEntries(h, enc, r, originals), OriginalNode(flag, r.data.name).value;
      var carried := if raw.Mapping? then Others(raw.entries, MODELLED) else [];
      EntriesConcat(env, made, carried);
      forall key | key in MODELLED
        ensures key !in FieldsOf(env, carried)
      {
        if raw.Mapping? {
          KeysElsewhere(env, raw.entries, MODELLED, key);
        } else {
          NoFields(env);
        }
      }
    }
  }

  lemma {:induction false} NoFields(env: Env)
    ensures FieldsOf(env, []) == map[]
  {
  }

  // ---------------------------------------------------------------- reading a rule

  /** How the yaml library reads what it wrote. */
  datatype Decoder = Decoder(percentage: Datum -> map<string, real>, ramp: Datum -> Flags.ProgressiveRollout)

  ghost predicate Undoes(dec: Decoder, enc: Encoder) {
    && (forall p :: dec.percentage(Value(map[], enc.percentage(p))) == p)
    && (forall r :: dec.ramp(Value(map[], enc.ramp(r))) == r)
  }

  function TextIn(fields: map<string, Datum>, key: string): string {
    match Lookup(fields, key)
    case Some(Atom(_, text)) => text
    case _ => ""
  }

  predicate TrueIn(fields: map<string, Datum>, key: string) {
    Lookup(fields, key) == Some(Atom("bool", "true"))
  }

  /** `outcomeOf`: percentages, if there are any, and otherwise the variation. */
  function ReadOutcome(dec: Decoder, fields: map<string, Datum>): Flags.Outcome {
    match Lookup(fields, "percentage")
    case Some(d) =>
      if dec.percentage(d) != map[] then Flags.Outcome("", dec.percentage(d))
      else Flags.Outcome(TextIn(fields, "variation"), map[])
    case None => Flags.Outcome(TextIn(fields, "variation"), map[])
  }

  /** `fromInternalRule`. */
  function ReadRule(dec: Decoder, d: Datum): Flags.Rule {
    var fields := if d.Table? then d.fields else map[];
    Flags.Rule(TextIn(fields, "name"), TextIn(fields, "query"), TrueIn(fields, "disable"), ReadOutcome(dec, fields),
               match Lookup(fields, "progressiveRollout") case Some(p) => Some(dec.ramp(p)) case None => None)
  }

  lemma {:induction false} SaysReadsBack(enc: Encoder, dec: Decoder, fields: map<string, Datum>, data: Flags.Rule,
                                         query: string)
    requires Undoes(dec, enc) && RuleSays(enc, fields, data, query)
    ensures ReadRule(dec, Table(fields))
         == data.(query := query, outcome := PromotedDrift.OutcomeBack(data.outcome))
  {
    hide Value;
  }

  /** What the loaded rules by name are to the file: a rule that one of them is taken for is read from its node. */
  ghost predicate LoadedFromFile(h: Scanner.Host, dec: Decoder, env: Env, r: Rule, originals: map<string, Rule>,
                                 flag: Node)
    requires flag.Mapping?
  {
    Unchanged(h, r, originals) ==>
      && OriginalNode(flag, r.data.name).Some?
      && originals[r.data.name].data == ReadRule(dec, Value(env, OriginalNode(flag, r.data.name).value))
  }

  /** A written rule is read back as `RuleBack` says. */
  lemma {:induction false} BodyReadsBack(env: Env, h: Scanner.Host, enc: Encoder, dec: Decoder, r: Rule,
                                         originals: map<string, Rule>, flag: Node)
    requires flag.Mapping? && EncodesPlainly(enc) && Undoes(dec, enc)
    requires LoadedFromFile(h, dec, env, r, originals, flag)
    ensures ReadRule(dec, Value(env, RuleBody(h, enc, r, originals, flag))) == PromotedDrift.RuleBack(h, r, originals)
  {
    hide EffectiveQuery, Unchanged, FieldsOf, ModelledEntries, OriginalNode, RuleSays, ReadRule, EncodesPlainly, Undoes;
    if IsWrittenAnew(h, r, originals, flag) {
      BodySays(env, h, enc, r, originals, flag);
      var body := RuleBody(h, enc, r, originals, flag);
      SaysReadsBack(enc, dec, FieldsOf(env, body.entries), r.data, EffectiveQuery(h, r, originals));
    }
  }

  // ---------------------------------------------------------------- writing and reading a flag

  datatype FlagEncoder = FlagEncoder(rule: Encoder, variations: seq<Flags.Variation> -> Node,
                                     experimentation: Flags.Experimentation -> Node,
                                     metadata: map<string, Flags.Value> -> Node)

  datatype FlagDecoder = FlagDecoder(rule: Decoder, variations: Datum -> seq<Flags.Variation>,
                                     experimentation: Datum -> Flags.Experimentation,
                                     metadata: Datum -> map<string, Flags.Value>)

  ghost predicate FlagsPlainly(enc: FlagEncoder) {
    && EncodesPlainly(enc.rule) && (forall v :: Plain(enc.variations(v)))
    && (forall e :: Plain(enc.experimentation(e))) && (forall m :: Plain(enc.metadata(m)))
  }

  ghost predicate UndoesFlags(dec: FlagDecoder, enc: FlagEncoder) {
    && Undoes(dec.rule, enc.rule)
    && (forall v :: dec.variations(Value(map[], enc.variations(v))) == v)
    && (forall e :: dec.experimentation(Value(map[], enc.experimentation(e))) == e)
    && (forall m :: dec.metadata(Value(map[], enc.metadata(m))) == m)
  }

  /** `outcomeBody`. */
  function OutcomeBody(enc: Encoder, o: Flags.Outcome): Node {
    Mapping([if o.percentage != map[] then Made("percentage", enc.percentage(o.percentage))
             else Made("variation", StringNode(o.variation))], "", FRESH)
  }

  /** What `Serialize` takes from a flag in memory, whose rules come with their conditions. */
  function DraftOf(h: Scanner.Host, enc: FlagEncoder, f: Flags.Flag, rules: seq<Rule>, originals: map<string, Rule>,
                   node: Node): Draft
    requires node.Mapping?
  {
    Draft(enc.variations(f.variations), f.enabled,
          if rules == [] then None else Some(RuleBodies(h, enc.rule, rules, originals, node)),
          OutcomeBody(enc.rule, f.default),
          match f.experimentation case None => None case Some(e) => Some(enc.experimentation(e)),
          if f.bucketingKey == "" then None else Some(StringNode(f.bucketingKey)),
          if f.metadata == map[] then None else Some(enc.metadata(f.metadata)))
  }

  function ReadRules(dec: Decoder, targeting: Option<Datum>): seq<Flags.Rule> {
    match targeting
    case Some(List(items)) => seq(|items|, i requires 0 <= i < |items| => ReadRule(dec, items[i]))
    case _ => []
  }

  /** `fromInternal`. */
  function ReadFlag(dec: FlagDecoder, key: string, fields: map<string, Datum>): Flags.Flag {
    Flags.Flag(key, !TrueIn(fields, "disable"),
               match Lookup(fields, "variations") case Some(d) => dec.variations(d) case None => [],
               ReadRules(dec.rule, Lookup(fields, "targeting")),
               (match Lookup(fields, "defaultRule")
                case Some(Table(inside)) => ReadOutcome(dec.rule, inside)
                case _ => Flags.Outcome("", map[])),
               match Lookup(fields, "experimentation") case Some(d) => Some(dec.experimentation(d)) case None => None,
               TextIn(fields, "bucketingKey"),
               match Lookup(fields, "metadata") case Some(d) => dec.metadata(d) case None => map[])
  }

  lemma {:induction false} DraftOfFits(h: Scanner.Host, enc: FlagEncoder, f: Flags.Flag, rules: seq<Rule>,
                                       originals: map<string, Rule>, node: Node)
    requires node.Mapping? && FlagsPlainly(enc)
    ensures DraftFits(node, DraftOf(h, enc, f, rules, originals, node))
  {
    hide RuleBodies, MayBring;
    OutcomePlain(enc.rule, f.default);
    if rules != [] {
      RuleBodiesFit(h, enc.rule, rules, originals, node);
    }
  }

  lemma {:induction false} OutcomePlain(enc: Encoder, o: Flags.Outcome)
    requires EncodesPlainly(enc)
    ensures Plain(OutcomeBody(enc, o))
  {
    var n := OutcomeBody(enc, o);
    assert n.entries[0].node == if o.percentage != map[] then enc.percentage(o.percentage) else StringNode(o.variation);
  }

  lemma {:induction false} OutcomeReadsBack(enc: Encoder, dec: Decoder, o: Flags.Outcome)
    requires EncodesPlainly(enc) && Undoes(dec, enc)
    ensures var d := Value(map[], OutcomeBody(enc, o));
            d.Table? && ReadOutcome(dec, d.fields) == PromotedDrift.OutcomeBack(o)
  {
    if o.percentage != map[] {
      FieldsOfMade(map[], "percentage", enc.percentage(o.percentage));
    } else {
      FieldsOfMade(map[], "variation", StringNode(o.variation));
    }
  }

  /** Where the `k`th item of a list is read. */
  function EnvOfItem(env: Env, items: seq<Node>, k: nat): Env
    requires k <= |items|
  {
    AfterItems(env, items[..k])
  }

  lemma {:induction false} ItemsAt(env: Env, items: seq<Node>)
    ensures |ItemsOf(env, items)| == |items|
    ensures forall k | 0 <= k < |items| :: ItemsOf(env, items)[k] == Value(EnvOfItem(env, items, k), items[k])
    decreases |items|
  {
    hide Value, After;
    if items != [] {
      var rest, there := items[1..], After(env, items[0]);
      ItemsAt(there, rest);
      forall k | 0 <= k < |items|
        ensures ItemsOf(env, items)[k] == Value(EnvOfItem(env, items, k), items[k])
      {
        if k > 0 {
          assert items[..k][1..] == rest[..k - 1] && items[..k][0] == items[0];
          assert items[k] == rest[k - 1];
        }
      }
    }
  }

  /** All rules that are taken for one in the file are read from it, each where it is written. */
  ghost predicate AllLoadedFromFile(h: Scanner.Host, enc: Encoder, dec: Decoder, place: Env, rules: seq<Rule>,
                                    originals: map<string, Rule>, flag: Node)
    requires flag.Mapping?
  {
    forall k | 0 <= k < |rules| ::
      LoadedFromFile(h, dec, EnvOfItem(place, RuleBodies(h, enc, rules, originals, flag).items, k), rules[k], originals,
                     flag)
  }

  lemma {:induction false} RulesReadBack(h: Scanner.Host, enc: Encoder, dec: Decoder, place: Env, rules: seq<Rule>,
                                         originals: map<string, Rule>, flag: Node)
    requires flag.Mapping? && EncodesPlainly(enc) && Undoes(dec, enc)
    requires AllLoadedFromFile(h, enc, dec, place, rules, originals, flag)
    ensures ReadRules(dec, Some(Value(place, RuleBodies(h, enc, rules, originals, flag))))
         == PromotedDrift.RulesBack(h, rules, originals)
  {
    hide RuleBody, ReadRule, PromotedDrift.RuleBack, LoadedFromFile, EnvOfItem, EncodesPlainly, Undoes;
    var bodies := RuleBodies(h, enc, rules, originals, flag).items;
    ItemsAt(place, bodies);
    forall k | 0 <= k < |rules|
      ensures ReadRule(dec, ItemsOf(place, bodies)[k]) == PromotedDrift.RuleBack(h, rules[k], originals)
    {
      BodyReadsBack(EnvOfItem(place, bodies, k), h, enc, dec, rules[k], originals, flag);
    }
  }

  /** A flag that is written over its old self and read again is the flag that was in memory: its rules as `RuleBack`
      says, its outcomes in one form, and metadata only where it had any. */
  lemma {:induction false} FlagReadsBack(doc: seq<Entry>, i: nat, h: Scanner.Host, enc: FlagEncoder, dec: FlagDecoder,
                                         f: Flags.Flag, rules: seq<Rule>, originals: map<string, Rule>)
    requires i < |doc| && doc[i].node.Mapping? && DistinctKeys(doc[i].node.entries)
    requires FlagsPlainly(enc) && UndoesFlags(dec, enc)
    requires SerializeIn(doc, i, DraftOf(h, enc, f, rules, originals, doc[i].node)).Ok?
    requires AllLoadedFromFile(h, enc.rule, dec.rule,
                               EnvFor(AfterEntries(map[], doc[..i]), doc[i].node.entries, "targeting"), rules,
                               originals, doc[i].node)
    ensures var now, here := SerializeIn(doc, i, DraftOf(h, enc, f, rules, originals, doc[i].node)).value[i].node,
                             AfterEntries(map[], doc[..i]);
            && now.Mapping?
            && var read := ReadFlag(dec, f.key, FieldsOf(here, now.entries));
               read.(metadata := f.metadata)
               == f.(rules := PromotedDrift.RulesBack(h, rules, originals),
                     default := PromotedDrift.OutcomeBack(f.default))
               && (f.metadata != map[] ==> read.metadata == f.metadata)
  {
    hide RuleBodies, FieldsOf, AfterEntries, EnvFor, SerializeIn, AllLoadedFromFile, Value, PromotedDrift.RulesBack,
         PromotedDrift.OutcomeBack, EncodesPlainly, Undoes, ReadRules, ReadOutcome, OutcomeBody, DraftFits, InEntries;
    var flag, here := doc[i].node, AfterEntries(map[], doc[..i]);
    var d := DraftOf(h, enc, f, rules, originals, flag);
    DraftOfFits(h, enc, f, rules, originals, flag);
    SerializeWrites(doc, i, d);
    OutcomeReadsBack(enc.rule, dec.rule, f.default);
    if rules != [] {
      RulesReadBack(h, enc.rule, dec.rule, EnvFor(here, flag.entries, "targeting"), rules, originals, flag);
    } else {
      NoRules(h, dec.rule, originals);
    }
    StringReads(f.bucketingKey);
  }

  lemma {:induction false} NoRules(h: Scanner.Host, dec: Decoder, originals: map<string, Rule>)
    ensures ReadRules(dec, None) == PromotedDrift.RulesBack(h, [], originals)
  {
  }

  lemma {:induction false} StringReads(text: string)
    ensures Value(map[], StringNode(text)) == Atom("string", text)
  {
  }

  // ---------------------------------------------------------------- flags as they are loaded

  /** The rules of a file, by name, as they are loaded. */
  function OriginalsInFile(h: Scanner.Host, dec: Decoder, items: seq<Node>): map<string, Rule> {
    ByName(RulesInFile(h, dec, items))
  }

  function RulesInFile(h: Scanner.Host, dec: Decoder, items: seq<Node>): (r: seq<Rule>)
    ensures |r| == |items|
    ensures forall k | 0 <= k < |items| :: r[k] == LoadedRule(h, ReadRule(dec, Value(map[], items[k])))
  {
    seq(|items|, k requires 0 <= k < |items| => LoadedRule(h, ReadRule(dec, Value(map[], items[k]))))
  }

  predicate IsPlainRule(n: Node) {
    n.Mapping? && Plain(n) && DistinctKeys(n.entries)
  }

  lemma {:induction false} PlainRuleName(dec: Decoder, n: Node, name: string)
    requires IsPlainRule(n) && name != ""
    ensures ReadRule(dec, Value(map[], n)).name == name <==> IsNamed(n, name)
  {
    var fields := FieldsOf(map[], n.entries);
    FieldsKeys(map[], n.entries, "name");
    if HasKey(n.entries, "name") {
      var i :| 0 <= i < |n.entries| && n.entries[i].key == "name";
      FieldAt(map[], n.entries, i);
      TextOfPlain(AfterEntries(map[], n.entries[..i]), n.entries[i].node);
      assert TextIn(fields, "name") == TextOf(n.entries[i].node);
      assert IsNamed(n, name) <==> TextOf(n.entries[i].node) == name;
    } else {
      assert TextIn(fields, "name") == "" && !IsNamed(n, name);
    }
  }

  lemma {:induction false} TextOfPlain(env: Env, n: Node)
    requires Plain(n)
    ensures TextOf(n) == match Value(env, n) case Atom(_, text) => text case _ => ""
  {
  }

  lemma {:induction false} NamedInFile(h: Scanner.Host, dec: Decoder, items: seq<Node>, name: string)
    requires forall k | 0 <= k < |items| :: IsPlainRule(items[k])
    requires name in OriginalsInFile(h, dec, items)
    ensures name != "" && RawRule(items, name).Some?
    ensures OriginalsInFile(h, dec, items)[name].data == ReadRule(dec, Value(map[], RawRule(items, name).value))
    decreases |items|
  {
    hide IsNamed, ReadRule, IsPlainRule, LoadedRule;
    var n := |items| - 1;
    var rules := RulesInFile(h, dec, items);
    PromotedDrift.ByNameNames(rules);
    assert rules != [];
    assert rules[..n] == RulesInFile(h, dec, items[..n]);
    LoadedKeepsData(h, ReadRule(dec, Value(map[], items[n])));
    if rules[n].data.name == "" {
      NamedInFile(h, dec, items[..n], name);
      PlainRuleName(dec, items[n], name);
    } else {
      PlainRuleName(dec, items[n], name);
      if rules[n].data.name != name {
        NamedInFile(h, dec, items[..n], name);
      }
    }
  }

  lemma {:induction false} LoadedKeepsData(h: Scanner.Host, data: Flags.Rule)
    ensures LoadedRule(h, data).data == data
  {
  }

  /** So whatever rules are in memory, those of a file without anchors and aliases in its rules are what is asked for
      above. */
  lemma {:induction false} LoadedIsFromFile(h: Scanner.Host, enc: Encoder, dec: Decoder, place: Env, rules: seq<Rule>,
                                            flag: Node, items: seq<Node>)
    requires flag.Mapping? && FieldNode(flag.entries, "targeting").Some?
    requires var was := FieldNode(flag.entries, "targeting").value; was.Sequence? && was.items == items
    requires forall k | 0 <= k < |items| :: IsPlainRule(items[k])
    ensures AllLoadedFromFile(h, enc, dec, place, rules, OriginalsInFile(h, dec, items), flag)
  {
    hide ReadRule, IsNamed, LoadedRule, EffectiveQuery, RuleBody, EnvOfItem, OriginalsInFile;
    var originals := OriginalsInFile(h, dec, items);
    forall k | 0 <= k < |rules|
      ensures LoadedFromFile(h, dec, EnvOfItem(place, RuleBodies(h, enc, rules, originals, flag).items, k), rules[k],
                             originals, flag)
    {
      if Unchanged(h, rules[k], originals) {
        NamedInFile(h, dec, items, rules[k].data.name);
        var raw := RawRule(items, rules[k].data.name).value;
        PlainValue(EnvOfItem(place, RuleBodies(h, enc, rules, originals, flag).items, k), map[], raw);
      }
    }
  }

  // ---------------------------------------------------------------- a flag that is not in the file yet

  function Optional(key: string, node: Option<Node>): seq<Entry> {
    match node
    case Some(n) => [Made(key, n)]
    case None => []
  }

  /** `newFlagBody`. */
  function NewFlagBody(d: Draft): Node {
    Mapping([Made("variations", d.variations)]
            + Optional("targeting", d.targeting)
            + [Made("defaultRule", d.default)]
            + (if d.enabled then [] else [Made("disable", DISABLED)])
            + Optional("experimentation", d.experimentation)
            + Optional("bucketingKey", d.bucketingKey)
            + Optional("metadata", d.metadata), "", FRESH)
  }

  const EMPTY := Mapping([], "", FRESH)

  lemma {:induction false} FieldsOfOptional(env: Env, key: string, node: Option<Node>)
    requires node.Some? ==> Plain(node.value)
    ensures FieldsOf(env, Optional(key, node)) == OneField(key, PlainDatum(node))
    ensures AfterEntries(env, Optional(key, node)) == env
  {
    if node.Some? {
      FieldsOfMade(env, key, node.value);
    }
  }

  ghost predicate AllPlain(d: Draft) {
    && Plain(d.variations) && Plain(d.default)
    && (d.targeting.Some? ==> Plain(d.targeting.value)) && (d.experimentation.Some? ==> Plain(d.experimentation.value))
    && (d.bucketingKey.Some? ==> Plain(d.bucketingKey.value)) && (d.metadata.Some? ==> Plain(d.metadata.value))
  }

  lemma {:induction false} NewFlagFields(env: Env, d: Draft)
    requires AllPlain(d)
    ensures FieldsOf(env, NewFlagBody(d).entries)
         == OneField("variations", PlainDatum(Some(d.variations))) + OneField("targeting", PlainDatum(d.targeting))
            + OneField("defaultRule", PlainDatum(Some(d.default))) + OneField("disable", DisableDatum(!d.enabled))
            + OneField("experimentation", PlainDatum(d.experimentation))
            + OneField("bucketingKey", PlainDatum(d.bucketingKey)) + OneField("metadata", PlainDatum(d.metadata))
  {
    hide FieldsOf, AfterEntries, Value, OneField, Optional, Plain;
    var a, b, c := [Made("variations", d.variations)], Optional("targeting", d.targeting),
                   [Made("defaultRule", d.default)];
    var off := if d.enabled then [] else [Made("disable", DISABLED)];
    var e, k, m := Optional("experimentation", d.experimentation), Optional("bucketingKey", d.bucketingKey),
                   Optional("metadata", d.metadata);
    FieldsOfMade(env, "variations", d.variations);
    FieldsOfOptional(env, "targeting", d.targeting);
    FieldsOfMade(env, "defaultRule", d.default);
    FieldsOfSwitch(env, d.enabled);
    FieldsOfOptional(env, "experimentation", d.experimentation);
    FieldsOfOptional(env, "bucketingKey", d.bucketingKey);
    FieldsOfOptional(env, "metadata", d.metadata);
    var x := FieldsOf(env, a);
    TwoParts(env, a, b, x, FieldsOf(env, b));
    TwoParts(env, a + b, c, x + FieldsOf(env, b), FieldsOf(env, c));
    TwoParts(env, a + b + c, off, x + FieldsOf(env, b) + FieldsOf(env, c), FieldsOf(env, off));
    TwoParts(env, a + b + c + off, e, FieldsOf(env, a + b + c + off), FieldsOf(env, e));
    TwoParts(env, a + b + c + off + e, k, FieldsOf(env, a + b + c + off + e), FieldsOf(env, k));
    TwoParts(env, a + b + c + off + e + k, m, FieldsOf(env, a + b + c + off + e + k), FieldsOf(env, m));
  }

  lemma {:induction false} FieldsOfSwitch(env: Env, enabled: bool)
    ensures var off := if enabled then [] else [Made("disable", DISABLED)];
            FieldsOf(env, off) == OneField("disable", DisableDatum(!enabled)) && AfterEntries(env, off) == env
  {
    FieldsOfMade(env, "disable", DISABLED);
  }

  /** What a new flag says, field by field. */
  lemma {:induction false} NewFlagSays(env: Env, d: Draft)
    requires AllPlain(d)
    ensures var fields := FieldsOf(env, NewFlagBody(d).entries);
            && Lookup(fields, "variations") == PlainDatum(Some(d.variations))
            && Lookup(fields, "targeting") == PlainDatum(d.targeting)
            && Lookup(fields, "defaultRule") == PlainDatum(Some(d.default))
            && Lookup(fields, "disable") == DisableDatum(!d.enabled)
            && Lookup(fields, "experimentation") == PlainDatum(d.experimentation)
            && Lookup(fields, "bucketingKey") == PlainDatum(d.bucketingKey)
            && Lookup(fields, "metadata") == PlainDatum(d.metadata)
  {
    hide FieldsOf, OneField, Lookup, PlainDatum, DisableDatum, NewFlagBody, AllPlain;
    NewFlagFields(env, d);
    var a, b := OneField("variations", PlainDatum(Some(d.variations))), PlainDatum(d.targeting);
    var c, off := PlainDatum(Some(d.default)), DisableDatum(!d.enabled);
    var e, k, m := PlainDatum(d.experimentation), PlainDatum(d.bucketingKey), PlainDatum(d.metadata);
    NoField("variations", PlainDatum(Some(d.variations)));
    FieldBeside(a, "targeting", b);
    FieldBeside(a + OneField("targeting", b), "defaultRule", c);
    var abc := a + OneField("targeting", b) + OneField("defaultRule", c);
    FieldBeside(abc, "disable", off);
    FieldBeside(abc + OneField("disable", off), "experimentation", e);
    var abcoe := abc + OneField("disable", off) + OneField("experimentation", e);
    FieldBeside(abcoe, "bucketingKey", k);
    FieldBeside(abcoe + OneField("bucketingKey", k), "metadata", m);
  }

  lemma {:induction false} NewRulesPlain(h: Scanner.Host, enc: Encoder, rules: seq<Rule>)
    requires EncodesPlainly(enc)
    ensures Plain(RuleBodies(h, enc, rules, map[], EMPTY))
  {
    hide ModelledEntries;
    var bodies := RuleBodies(h, enc, rules, map[], EMPTY);
    forall k | 0 <= k < |rules|
      ensures Plain(bodies.items[k])
    {
      MadeAreModelled(h, enc, rules[k], map[]);
    }
  }

  /** A flag that is added to a file and read again is the flag that was in memory. */
  lemma {:induction false} NewFlagReadsBack(env: Env, h: Scanner.Host, enc: FlagEncoder, dec: FlagDecoder,
                                            f: Flags.Flag, rules: seq<Rule>)
    requires FlagsPlainly(enc) && UndoesFlags(dec, enc)
    ensures ReadFlag(dec, f.key, FieldsOf(env, NewFlagBody(DraftOf(h, enc, f, rules, map[], EMPTY)).entries))
         == f.(rules := PromotedDrift.RulesBack(h, rules, map[]), default := PromotedDrift.OutcomeBack(f.default))
  {
    hide RuleBodies, FieldsOf, Value, PromotedDrift.RulesBack, PromotedDrift.OutcomeBack, EncodesPlainly, Undoes,
         ReadRules, ReadOutcome, OutcomeBody, NewFlagBody;
    var d := DraftOf(h, enc, f, rules, map[], EMPTY);
    OutcomePlain(enc.rule, f.default);
    NewRulesPlain(h, enc.rule, rules);
    NewFlagSays(env, d);
    OutcomeReadsBack(enc.rule, dec.rule, f.default);
    NothingToTake(h, enc.rule, dec.rule, rules);
    RulesReadBack(h, enc.rule, dec.rule, map[], rules, map[], EMPTY);
    NoRules(h, dec.rule, map[]);
    StringReads(f.bucketingKey);
  }

  lemma {:induction false} NothingToTake(h: Scanner.Host, enc: Encoder, dec: Decoder, rules: seq<Rule>)
    ensures AllLoadedFromFile(h, enc, dec, map[], rules, map[], EMPTY)
  {
    hide RuleBody, EffectiveQuery;
  }

  // ---------------------------------------------------------------- a promotion, in the file

  /** The promoted flag that `PromotedDrift.Saved` speaks of is the one that is read from the file. */
  lemma {:induction false} SavedIsInFile(doc: seq<Entry>, i: nat, h: Scanner.Host, enc: FlagEncoder, dec: FlagDecoder,
                                         source: Flags.Flag, fields: set<Promotion.Field>, now: real,
                                         target: Flags.Flag, stamp: Flags.Value, edited: Flags.Flag)
    requires edited == Promotion.Promoted(source, fields, now, target)
    requires i < |doc| && doc[i].node.Mapping? && DistinctKeys(doc[i].node.entries)
    requires FlagsPlainly(enc) && UndoesFlags(dec, enc)
    requires var rules := PromotedDrift.RulesInMemory(h, source, fields, now, target);
             var originals := PromotedDrift.OriginalsOf(h, target);
             var d := DraftOf(h, enc, edited.(metadata := edited.metadata["updatedAt" := stamp]), rules, originals,
                              doc[i].node);
             && SerializeIn(doc, i, d).Ok?
             && AllLoadedFromFile(h, enc.rule, dec.rule,
                                  EnvFor(AfterEntries(map[], doc[..i]), doc[i].node.entries, "targeting"), rules,
                                  originals, doc[i].node)
    ensures var rules := PromotedDrift.RulesInMemory(h, source, fields, now, target);
            var originals := PromotedDrift.OriginalsOf(h, target);
            var d := DraftOf(h, enc, edited.(metadata := edited.metadata["updatedAt" := stamp]), rules, originals,
                             doc[i].node);
            var node := SerializeIn(doc, i, d).value[i].node;
            && node.Mapping?
            && ReadFlag(dec, target.key, FieldsOf(AfterEntries(map[], doc[..i]), node.entries))
               == PromotedDrift.Saved(h, source, fields, now, target, stamp)
  {
    hide RuleBodies, FieldsOf, AfterEntries, EnvFor, SerializeIn, AllLoadedFromFile, ReadFlag, DraftOf, FlagsPlainly,
         UndoesFlags, PromotedDrift.RulesBack, PromotedDrift.OutcomeBack, PromotedDrift.RulesInMemory,
         PromotedDrift.OriginalsOf, Promotion.MergedMetadata, Promotion.FrozenRules;
    var f := edited.(metadata := edited.metadata["updatedAt" := stamp]);
    assert "updatedAt" in f.metadata;
    FlagReadsBack(doc, i, h, enc, dec, f, PromotedDrift.RulesInMemory(h, source, fields, now, target),
                  PromotedDrift.OriginalsOf(h, target));
  }
}
