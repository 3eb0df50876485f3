/** Promotions once they are written and read back, and what the drift report says then: rules come back as `Serialize`
    writes them (internal/server/promote.go, internal/server/compare.go, internal/goff/adapter.go). */
module PromotedDrift {
  import opened Flags
  import opened Options
  import opened Promotion
  import Conditions
  import Literals
  import Meaning
  import Parser
  import Queries
  import Reading
  import RoundTrip
  import Scanner
  import Shortfalls
  import Strings
  import YamlRules

  // ---------------------------------------------------------------- writing and reading back

  function LoadedRules(h: Scanner.Host, rules: seq<Rule>): (r: seq<YamlRules.Rule>)
    ensures |r| == |rules|
    ensures forall i | 0 <= i < |rules| :: r[i].data == rules[i]
  {
    seq(|rules|, i requires 0 <= i < |rules| => YamlRules.LoadedRule(h, rules[i]))
  }

  function OriginalsOf(h: Scanner.Host, target: Flag): map<string, YamlRules.Rule> {
    YamlRules.ByName(LoadedRules(h, target.rules))
  }

  /** An outcome has percentages or a variation, not both: a loaded one always. */
  predicate OneForm(o: Outcome) {
    o.variation == "" || o.percentage == map[]
  }

  predicate AsLoaded(f: Flag) {
    OneForm(f.default) && forall i | 0 <= i < |f.rules| :: OneForm(f.rules[i].outcome)
  }

  /** An outcome as it is written and read back. */
  function OutcomeBack(o: Outcome): Outcome {
    if o.percentage != map[] then Outcome("", o.percentage) else o
  }

  /** A rule as it is written and read back: the rule of its name that is in the file, if it is taken for unchanged, and
      otherwise its own settings with the effective query. */
  function RuleBack(h: Scanner.Host, r: YamlRules.Rule, originals: map<string, YamlRules.Rule>): Rule {
    if YamlRules.Unchanged(h, r, originals) then originals[r.data.name].data
    else r.data.(query := YamlRules.EffectiveQuery(h, r, originals), outcome := OutcomeBack(r.data.outcome))
  }

  function RulesBack(h: Scanner.Host, rules: seq<YamlRules.Rule>, originals: map<string, YamlRules.Rule>): seq<Rule> {
    seq(|rules|, i requires 0 <= i < |rules| => RuleBack(h, rules[i], originals))
  }

  /** The rules the mutator leaves in memory: the source's with their ramps frozen, or the target's own. */
  function RulesInMemory(h: Scanner.Host, source: Flag, fields: set<Field>, now: real, target: Flag):
    (r: seq<YamlRules.Rule>)
    ensures |r| == if Rules in fields then |source.rules| else |target.rules|
  {
    if Rules in fields then
      var rules := LoadedRules(h, source.rules);
      seq(|rules|, i requires 0 <= i < |rules| => rules[i].(data := FrozenRule(rules[i].data, now)))
    else LoadedRules(h, target.rules)
  }

  /** The target after the promotion was saved, as the drift report loads it. */
  function Saved(h: Scanner.Host, source: Flag, fields: set<Field>, now: real, target: Flag, stamp: Value): Flag {
    var edited := Promoted(source, fields, now, target);
    edited.(rules := RulesBack(h, RulesInMemory(h, source, fields, now, target), OriginalsOf(h, target)),
            default := OutcomeBack(edited.default),
            metadata := edited.metadata["updatedAt" := stamp])
  }

  // ---------------------------------------------------------------- rules that come back as they were

  /** A rule comes back as it is: its text is what gets written, and the rule it is taken for, if any, has the very same
      shares. */
  predicate ComesBack(h: Scanner.Host, r: YamlRules.Rule, originals: map<string, YamlRules.Rule>) {
    && YamlRules.WritesOwnText(h, r, originals)
    && (YamlRules.Unchanged(h, r, originals) ==> r.data.outcome == originals[r.data.name].data.outcome)
  }

  lemma {:induction false} ByNameNames(rules: seq<YamlRules.Rule>)
    ensures forall n | n in YamlRules.ByName(rules) :: YamlRules.ByName(rules)[n].data.name == n != ""
  {
    if rules != [] {
      ByNameNames(rules[..|rules| - 1]);
    }
  }

  lemma {:induction false} RuleBackIsSame(h: Scanner.Host, r: YamlRules.Rule, rules: seq<YamlRules.Rule>)
    requires OneForm(r.data.outcome)
    ensures RuleBack(h, r, YamlRules.ByName(rules)) == r.data <==> ComesBack(h, r, YamlRules.ByName(rules))
  {
    hide YamlRules.EffectiveQuery, YamlRules.WritesOwnText, YamlRules.ByName, SameOutcome;
    ByNameNames(rules);
    YamlRules.AuthorsTextStaysIff(h, r, YamlRules.ByName(rules));
  }

  lemma {:induction false} RulesBackAreSame(h: Scanner.Host, rules: seq<Rule>, originals: seq<YamlRules.Rule>)
    requires forall i | 0 <= i < |rules| :: OneForm(rules[i].outcome)
    ensures var loaded, names := LoadedRules(h, rules), YamlRules.ByName(originals);
            RulesBack(h, loaded, names) == rules <==> forall i | 0 <= i < |rules| :: ComesBack(h, loaded[i], names)
  {
    hide RuleBack, ComesBack, YamlRules.ByName, YamlRules.LoadedRule;
    var loaded, names := LoadedRules(h, rules), YamlRules.ByName(originals);
    forall i | 0 <= i < |rules|
      ensures RulesBack(h, loaded, names)[i] == rules[i] <==> ComesBack(h, loaded[i], names)
    {
      RuleBackIsSame(h, loaded[i], originals);
    }
  }

  /** A rule that has a name of its own is never changed by an edit of something else. */
  lemma {:induction false} OwnNameComesBack(h: Scanner.Host, target: Flag, i: nat)
    requires i < |target.rules| && YamlRules.IsLastOfName(LoadedRules(h, target.rules), i)
    ensures ComesBack(h, LoadedRules(h, target.rules)[i], OriginalsOf(h, target))
  {
    hide Conditions.CompileCondition, Parser.ParseQuery, YamlRules.ByName;
    YamlRules.ByNameHas(LoadedRules(h, target.rules), i);
  }

  // ---------------------------------------------------------------- the report

  lemma {:induction false} FrozenBackHasNoRamp(h: Scanner.Host, r: YamlRules.Rule, now: real,
                                               originals: map<string, YamlRules.Rule>)
    ensures RuleBack(h, r.(data := FrozenRule(r.data, now)), originals).progressive.None?
  {
    hide YamlRules.EffectiveQuery, SameOutcome, FrozenOutcome;
  }

  /** Rules without ramps are promoted as they are. */
  lemma {:induction false} NoRampInMemory(h: Scanner.Host, source: Flag, fields: set<Field>, now: real, target: Flag)
    requires Rules in fields && !HasRamp(source.rules)
    ensures RulesInMemory(h, source, fields, now, target) == LoadedRules(h, source.rules)
    ensures forall stamp :: Saved(h, source, fields, now, target, stamp).rules
                         == RulesBack(h, LoadedRules(h, source.rules), OriginalsOf(h, target))
  {
    hide YamlRules.LoadedRule, FrozenRule, RulesBack, OriginalsOf, FrozenRules, MergedMetadata;
    var loaded, memory := LoadedRules(h, source.rules), RulesInMemory(h, source, fields, now, target);
    forall i | 0 <= i < |loaded|
      ensures memory[i] == loaded[i]
    {
      NothingToFreeze(loaded[i].data, now);
    }
    assert memory == loaded;
  }

  /** Promoted rules are gone from the report exactly if the source has no ramp and every rule comes back as it is. */
  lemma {:induction false} PromotedRules(h: Scanner.Host, source: Flag, fields: set<Field>, now: real, target: Flag)
    requires AsLoaded(source) && Rules in fields
    ensures var names := OriginalsOf(h, target);
            RulesBack(h, RulesInMemory(h, source, fields, now, target), names) == source.rules <==>
            && !HasRamp(source.rules)
            && forall i | 0 <= i < |source.rules| :: ComesBack(h, LoadedRules(h, source.rules)[i], names)
  {
    hide RuleBack, ComesBack, YamlRules.ByName, YamlRules.LoadedRule, FrozenRule;
    var loaded, names := LoadedRules(h, source.rules), OriginalsOf(h, target);
    var memory := RulesInMemory(h, source, fields, now, target);
    if HasRamp(source.rules) {
      var i :| 0 <= i < |source.rules| && source.rules[i].progressive.Some?;
      FrozenBackHasNoRamp(h, loaded[i], now, names);
      assert RulesBack(h, memory, names)[i] == RuleBack(h, memory[i], names);
    } else {
      NoRampInMemory(h, source, fields, now, target);
      RulesBackAreSame(h, source.rules, LoadedRules(h, target.rules));
    }
  }

  lemma {:induction false} NothingToFreeze(r: Rule, now: real)
    requires r.progressive.None?
    ensures FrozenRule(r, now) == r
  {
  }

  lemma {:induction false} StampedStrips(metadata: map<string, Value>, stamp: Value)
    ensures Stripped(metadata["updatedAt" := stamp]) == Stripped(metadata)
  {
  }

  /** The report after a promotion is saved. Promoted fields are gone from it, but variations of a name with two values;
      and the rules are, exactly if the source has no ramp and every one of them comes back as it is. Fields that were
      not promoted are in it exactly if they were before. The rules too, if those of the target come back as they are;
      and if they were not in it before, they stay out of it exactly then. */
  lemma {:induction false} PromotionClearsDrift(h: Scanner.Host, source: Flag, fields: set<Field>, now: real,
                                                target: Flag, stamp: Value)
    requires AsLoaded(source) && AsLoaded(target)
    ensures var after, names := Saved(h, source, fields, now, target, stamp), OriginalsOf(h, target);
            && (forall f | f != Rules ::
                  f in Drift(source, after) <==>
                  if f in fields then f == Variations && !Unambiguous(source.variations)
                  else f in Drift(source, target))
            && (Rules in fields ==>
                  (Rules !in Drift(source, after) <==>
                   && !HasRamp(source.rules)
                   && forall i | 0 <= i < |source.rules| :: ComesBack(h, LoadedRules(h, source.rules)[i], names)))
            && (Rules !in fields
                && (forall i | 0 <= i < |target.rules| :: ComesBack(h, LoadedRules(h, target.rules)[i], names)) ==>
                  (Rules in Drift(source, after) <==> Rules in Drift(source, target)))
            && (Rules !in fields && Rules !in Drift(source, target) ==>
                  (Rules !in Drift(source, after) <==>
                   forall i | 0 <= i < |target.rules| :: ComesBack(h, LoadedRules(h, target.rules)[i], names)))
  {
    hide Stripped, MergedMetadata, SameVariations, Unambiguous, HasRamp, RulesBack, RulesInMemory, ComesBack,
         YamlRules.ByName, FrozenRules;
    MergedStrips(source.metadata, target.metadata);
    SameAsThemselves(source.variations);
    StampedStrips(Promoted(source, fields, now, target).metadata, stamp);
    if Rules in fields {
      PromotedRules(h, source, fields, now, target);
    } else {
      UntouchedRules(h, source, fields, now, target);
    }
  }

  lemma {:induction false} UntouchedRules(h: Scanner.Host, source: Flag, fields: set<Field>, now: real, target: Flag)
    requires AsLoaded(target) && Rules !in fields
    ensures var names := OriginalsOf(h, target);
            RulesBack(h, RulesInMemory(h, source, fields, now, target), names) == target.rules <==>
            forall i | 0 <= i < |target.rules| :: ComesBack(h, LoadedRules(h, target.rules)[i], names)
  {
    hide RulesBack, ComesBack, YamlRules.ByName;
    RulesBackAreSame(h, target.rules, LoadedRules(h, target.rules));
  }

  // ---------------------------------------------------------------- the same promotion again

  /** A rule that was loaded; its settings may have been changed since, but for its text. */
  predicate IsLoaded(h: Scanner.Host, r: YamlRules.Rule) {
    r == YamlRules.LoadedRule(h, r.data)
  }

  /** What is written of a rule is written of it again, if no other rule of its name was written after it. */
  lemma {:induction false} WrittenAgain(h: Scanner.Host, r: YamlRules.Rule, before: map<string, YamlRules.Rule>,
                                        after: map<string, YamlRules.Rule>)
    requires IsLoaded(h, r) && (r.data.name in before ==> IsLoaded(h, before[r.data.name]))
    requires r.data.name != "" ==>
               r.data.name in after && after[r.data.name] == YamlRules.LoadedRule(h, RuleBack(h, r, before))
    ensures RuleBack(h, r, after) == RuleBack(h, r, before)
  {
    hide Conditions.CompileCondition, Parser.ParseQuery, SameOutcome;
  }

  lemma {:induction false} LooksUpItsName(h: Scanner.Host, r: YamlRules.Rule, a: map<string, YamlRules.Rule>,
                                          b: map<string, YamlRules.Rule>)
    requires r.data.name in a && r.data.name in b && a[r.data.name] == b[r.data.name]
    ensures RuleBack(h, r, a) == RuleBack(h, r, b)
  {
    hide Conditions.CompileCondition, SameOutcome;
  }

  lemma {:induction false} MemoryIsLoaded(h: Scanner.Host, source: Flag, fields: set<Field>, now: real, target: Flag)
    requires Rules in fields
    ensures var memory := RulesInMemory(h, source, fields, now, target);
            forall i | 0 <= i < |memory| :: IsLoaded(h, memory[i]) && memory[i].data.name == source.rules[i].name
  {
    hide Parser.ParseQuery, FrozenOutcome;
  }

  lemma {:induction false} LastOfItsName(rules: seq<YamlRules.Rule>, i: nat) returns (j: nat)
    requires i < |rules| && rules[i].data.name != ""
    ensures i <= j < |rules| && YamlRules.IsLastOfName(rules, j) && rules[j].data.name == rules[i].data.name
  {
    j := |rules| - 1;
    while rules[j].data.name != rules[i].data.name
      invariant i <= j < |rules|
      invariant forall k | j < k < |rules| :: rules[k].data.name != rules[i].data.name
      decreases j
    {
      j := j - 1;
    }
  }

  /** A rule is written twice alike in the company of a later rule of its name. */
  predicate Settles(h: Scanner.Host, r: YamlRules.Rule, later: YamlRules.Rule, names: map<string, YamlRules.Rule>) {
    RuleBack(h, r, map[r.data.name := YamlRules.LoadedRule(h, RuleBack(h, later, names))]) == RuleBack(h, r, names)
  }

  predicate Settled(h: Scanner.Host, memory: seq<YamlRules.Rule>, names: map<string, YamlRules.Rule>) {
    forall i, j | 0 <= i < j < |memory| && YamlRules.IsLastOfName(memory, j)
                  && memory[i].data.name == memory[j].data.name ::
      Settles(h, memory[i], memory[j], names)
  }

  lemma {:induction false} BackKeepsName(h: Scanner.Host, r: YamlRules.Rule, rules: seq<YamlRules.Rule>)
    ensures RuleBack(h, r, YamlRules.ByName(rules)).name == r.data.name
  {
    hide YamlRules.EffectiveQuery, YamlRules.ByName, SameOutcome;
    ByNameNames(rules);
  }

  lemma {:induction false} OriginalsAmong(rules: seq<YamlRules.Rule>)
    ensures forall n | n in YamlRules.ByName(rules) :: YamlRules.ByName(rules)[n] in rules
  {
    if rules != [] {
      OriginalsAmong(rules[..|rules| - 1]);
    }
  }

  lemma {:induction false} OriginalsAreLoaded(h: Scanner.Host, rules: seq<Rule>)
    ensures var names := YamlRules.ByName(LoadedRules(h, rules));
            forall n | n in names :: IsLoaded(h, names[n])
  {
    hide YamlRules.ByName, Parser.ParseQuery;
    OriginalsAmong(LoadedRules(h, rules));
  }

  /** The rules in the file after a promotion, by name. */
  lemma {:induction false} OriginalsAfter(h: Scanner.Host, memory: seq<YamlRules.Rule>, before: seq<YamlRules.Rule>,
                                          j: nat)
    requires j < |memory| && YamlRules.IsLastOfName(memory, j)
    ensures var names := YamlRules.ByName(before);
            var after := YamlRules.ByName(LoadedRules(h, RulesBack(h, memory, names)));
            && memory[j].data.name in after
            && after[memory[j].data.name] == YamlRules.LoadedRule(h, RuleBack(h, memory[j], names))
  {
    hide YamlRules.ByName, RuleBack, YamlRules.LoadedRule;
    var names := YamlRules.ByName(before);
    var back := RulesBack(h, memory, names);
    var loaded := LoadedRules(h, back);
    forall k | 0 <= k < |memory|
      ensures loaded[k].data.name == memory[k].data.name
    {
      BackKeepsName(h, memory[k], before);
    }
    YamlRules.ByNameHas(loaded, j);
  }

  /** One rule, written twice. */
  lemma {:induction false} RuleTwice(h: Scanner.Host, memory: seq<YamlRules.Rule>, before: seq<Rule>, i: nat)
    returns (j: nat)
    requires i < |memory| && forall k | 0 <= k < |memory| :: IsLoaded(h, memory[k])
    ensures var names := YamlRules.ByName(LoadedRules(h, before));
            var after := YamlRules.ByName(LoadedRules(h, RulesBack(h, memory, names)));
            if memory[i].data.name == "" then RuleBack(h, memory[i], after) == RuleBack(h, memory[i], names)
            else
              && i <= j < |memory| && YamlRules.IsLastOfName(memory, j) && memory[j].data.name == memory[i].data.name
              && (RuleBack(h, memory[i], after) == RuleBack(h, memory[i], names) <==>
                  i < j ==> Settles(h, memory[i], memory[j], names))
  {
    hide YamlRules.ByName, RuleBack, YamlRules.LoadedRule, RulesBack, IsLoaded;
    var names := YamlRules.ByName(LoadedRules(h, before));
    var after := YamlRules.ByName(LoadedRules(h, RulesBack(h, memory, names)));
    OriginalsAreLoaded(h, before);
    ByNameNames(LoadedRules(h, before));
    j := 0;
    if memory[i].data.name == "" {
      WrittenAgain(h, memory[i], names, after);
    } else {
      j := LastOfItsName(memory, i);
      OriginalsAfter(h, memory, LoadedRules(h, before), j);
      if i == j {
        WrittenAgain(h, memory[i], names, after);
      } else {
        var name := memory[i].data.name;
        LooksUpItsName(h, memory[i], after, map[name := YamlRules.LoadedRule(h, RuleBack(h, memory[j], names))]);
      }
    }
  }

  lemma {:induction false} RulesTwice(h: Scanner.Host, memory: seq<YamlRules.Rule>, before: seq<Rule>)
    requires forall k | 0 <= k < |memory| :: IsLoaded(h, memory[k])
    ensures var names := YamlRules.ByName(LoadedRules(h, before));
            var once := RulesBack(h, memory, names);
            RulesBack(h, memory, YamlRules.ByName(LoadedRules(h, once))) == once <==> Settled(h, memory, names)
  {
    hide YamlRules.ByName, RuleBack, YamlRules.LoadedRule, IsLoaded, Settles;
    var names := YamlRules.ByName(LoadedRules(h, before));
    var once := RulesBack(h, memory, names);
    var after := YamlRules.ByName(LoadedRules(h, once));
    var twice := RulesBack(h, memory, after);
    if Settled(h, memory, names) {
      forall i | 0 <= i < |memory|
        ensures twice[i] == once[i]
      {
        var j := RuleTwice(h, memory, before, i);
      }
    }
    if twice == once {
      forall i, j | 0 <= i < j < |memory| && YamlRules.IsLastOfName(memory, j)
                    && memory[i].data.name == memory[j].data.name
        ensures Settles(h, memory[i], memory[j], names)
      {
        assert twice[i] == once[i];
        var last := RuleTwice(h, memory, before, i);
        OneLast(memory, j, last);
      }
    }
  }

  lemma {:induction false} OneLast(rules: seq<YamlRules.Rule>, i: nat, j: nat)
    requires i < |rules| && j < |rules| && rules[i].data.name == rules[j].data.name
    requires YamlRules.IsLastOfName(rules, i) && YamlRules.IsLastOfName(rules, j)
    ensures i == j && rules[i].data.name != ""
  {
  }

  /** The same promotion, saved a second time, changes nothing but the stamp, exactly if every rule is written twice
      alike in the company of the last rule of its name. */
  lemma {:induction false} SavedAgain(h: Scanner.Host, source: Flag, fields: set<Field>, now: real, target: Flag,
                                      stamp: Value, later: Value)
    requires Rules in fields
    ensures var once := Saved(h, source, fields, now, target, stamp);
            Saved(h, source, fields, now, once, later) == once.(metadata := once.metadata["updatedAt" := later]) <==>
            Settled(h, RulesInMemory(h, source, fields, now, target), OriginalsOf(h, target))
  {
    hide YamlRules.ByName, RuleBack, YamlRules.LoadedRule, IsLoaded, Settled, RulesBack, FrozenRule, Stripped;
    var memory := RulesInMemory(h, source, fields, now, target);
    MemoryIsLoaded(h, source, fields, now, target);
    RulesTwice(h, memory, target.rules);
    var once := Saved(h, source, fields, now, target, stamp);
    var twice := Saved(h, source, fields, now, once, later);
    StampedTwice(source.metadata, target.metadata, stamp, later);
    assert RulesInMemory(h, source, fields, now, once) == memory;
    assert twice.rules == RulesBack(h, memory, OriginalsOf(h, once));
    assert twice == once.(metadata := once.metadata["updatedAt" := later], rules := twice.rules);
  }

  lemma {:induction false} StampedTwice(source: map<string, Value>, target: map<string, Value>, stamp: Value,
                                        later: Value)
    ensures var once := MergedMetadata(source, target)["updatedAt" := stamp];
            MergedMetadata(source, once)["updatedAt" := later] == once["updatedAt" := later]
    ensures target["updatedAt" := stamp]["updatedAt" := later] == target["updatedAt" := later]
  {
  }

  predicate OwnNames(rules: seq<Rule>) {
    forall i, j | 0 <= i < j < |rules| && rules[i].name != "" :: rules[i].name != rules[j].name
  }

  /** So it changes nothing but the stamp if the source's named rules have names of their own. */
  lemma {:induction false} OwnNamesSettle(h: Scanner.Host, source: Flag, fields: set<Field>, now: real, target: Flag,
                                          stamp: Value, later: Value)
    requires Rules in fields && OwnNames(source.rules)
    ensures var once := Saved(h, source, fields, now, target, stamp);
            Saved(h, source, fields, now, once, later) == once.(metadata := once.metadata["updatedAt" := later])
  {
    hide YamlRules.ByName, RuleBack, YamlRules.LoadedRule, IsLoaded, Settles, Saved;
    MemoryIsLoaded(h, source, fields, now, target);
    SavedAgain(h, source, fields, now, target, stamp, later);
  }

  /** Two rules of one name that differ in a share of nought: both are written, but the next time the first is taken for
      the second, which stands in the file by then. */
  lemma {:induction false} SharedNameChangesAgain(h: Scanner.Host, now: real, stamp: Value, later: Value)
    returns (source: Flag, target: Flag)
    ensures !OwnNames(source.rules) && !HasRamp(source.rules) && target.rules == []
    ensures var once := Saved(h, source, {Rules}, now, target, stamp);
            && once.rules == source.rules
            && Saved(h, source, {Rules}, now, once, later).rules == [source.rules[1], source.rules[1]] != once.rules
  {
    hide YamlRules.LoadedRule, YamlRules.ByName, SameOutcome, RuleBack, Saved;
    var a, b := SharesOfNought();
    target := Flag("f", true, [], [], Outcome("on", map[]), None, "", map[]);
    source := target.(rules := [a, b]);
    assert source.rules[0].name == source.rules[1].name;
    var once := Saved(h, source, {Rules}, now, target, stamp);
    NoRampInMemory(h, source, {Rules}, now, target);
    NothingInFile(h, a);
    NothingInFile(h, b);
    assert once.rules == [a, b];
    NoRampInMemory(h, source, {Rules}, now, once);
    TakenForTheOther(h, a, b, once.rules);
    TakenForTheOther(h, b, b, once.rules);
    assert Saved(h, source, {Rules}, now, once, later).rules == [b, b];
  }

  lemma {:induction false} EmptyQuery(h: Scanner.Host, data: Rule)
    requires data.query == ""
    ensures YamlRules.LoadedRule(h, data) == YamlRules.Rule(data, Conditions.Nil, false)
  {
  }

  lemma {:induction false} NothingInFile(h: Scanner.Host, r: Rule)
    requires r.query == "" && OneForm(r.outcome)
    ensures RuleBack(h, YamlRules.LoadedRule(h, r), YamlRules.ByName(LoadedRules(h, []))) == r
  {
    hide SameOutcome, Parser.ParseQuery;
    EmptyQuery(h, r);
  }

  /** Of two rules that compare as the same, the one in the file is taken for the other, and kept. */
  lemma {:induction false} TakenForTheOther(h: Scanner.Host, a: Rule, b: Rule, rules: seq<Rule>)
    requires rules != [] && rules[|rules| - 1] == b && b.name != "" && b.query == ""
    requires a == b.(outcome := a.outcome) && SameOutcome(a.outcome, b.outcome)
    ensures var names := YamlRules.ByName(LoadedRules(h, rules));
            && YamlRules.Unchanged(h, YamlRules.LoadedRule(h, a), names)
            && names[b.name].data == b && RuleBack(h, YamlRules.LoadedRule(h, a), names) == b
  {
    hide SameOutcome, Parser.ParseQuery, YamlRules.ByName;
    EmptyQuery(h, a);
    EmptyQuery(h, b);
    YamlRules.ByNameHas(LoadedRules(h, rules), |rules| - 1);
  }

  /** Two rules that differ in shares of nought only, which the comparison does not see. */
  lemma {:induction false} SharesOfNought() returns (a: Rule, b: Rule)
    ensures a == Rule("all", "", false, Outcome("", map["on" := 100.0, "off" := 0.0]), None)
    ensures b == Rule("all", "", false, Outcome("", map["on" := 100.0, "beta" := 0.0]), None)
    ensures a != b && SameOutcome(a.outcome, b.outcome) && SameOutcome(b.outcome, b.outcome)
    ensures RuleServes(a) == {"on", "off"} && RuleServes(b) == {"on", "beta"}
  {
    var x, y := map["on" := 100.0, "off" := 0.0], map["on" := 100.0, "beta" := 0.0];
    assert "off" in x && "off" !in y;
    assert |x| == 2 && |y| == 2;
    a, b := Rule("all", "", false, Outcome("", x), None), Rule("all", "", false, Outcome("", y), None);
    assert x.Keys == {"on", "off"} && y.Keys == {"on", "beta"};
  }

  /** Without the rules selected, a second save rewrites exactly the rules that do not come back as they are. */
  lemma {:induction false} SavedAgainWithoutRules(h: Scanner.Host, source: Flag, fields: set<Field>, now: real,
                                                  target: Flag, stamp: Value, later: Value)
    requires Rules !in fields && AsLoaded(target)
    ensures var once := Saved(h, source, fields, now, target, stamp);
            Saved(h, source, fields, now, once, later).rules == once.rules <==>
            forall i | 0 <= i < |once.rules| :: ComesBack(h, LoadedRules(h, once.rules)[i], OriginalsOf(h, once))
  {
    hide YamlRules.ByName, RuleBack, YamlRules.LoadedRule, ComesBack, Stripped, MergedMetadata, OneForm;
    var once := Saved(h, source, fields, now, target, stamp);
    forall i | 0 <= i < |once.rules|
      ensures OneForm(once.rules[i].outcome)
    {
      BackHasOneForm(h, target, i);
    }
    RulesBackAreSame(h, once.rules, LoadedRules(h, once.rules));
  }

  lemma {:induction false} BackHasOneForm(h: Scanner.Host, target: Flag, i: nat)
    requires AsLoaded(target) && i < |target.rules|
    ensures OneForm(RuleBack(h, LoadedRules(h, target.rules)[i], OriginalsOf(h, target)).outcome)
  {
    hide YamlRules.EffectiveQuery, SameOutcome, YamlRules.LoadedRule;
    OriginalsAmong(LoadedRules(h, target.rules));
  }

  // ---------------------------------------------------------------- variations the saved flag must have

  /** The rule that stands in the file for one in memory, but for its text. */
  function InFile(h: Scanner.Host, r: YamlRules.Rule, originals: map<string, YamlRules.Rule>): Rule {
    if YamlRules.Unchanged(h, r, originals) then originals[r.data.name].data else r.data
  }

  lemma {:induction false} BackServes(h: Scanner.Host, r: YamlRules.Rule, originals: map<string, YamlRules.Rule>)
    ensures RuleServes(RuleBack(h, r, originals)) == RuleServes(InFile(h, r, originals))
  {
    hide YamlRules.EffectiveQuery, SameOutcome;
  }

  lemma {:induction false} DefaultServes(o: Outcome)
    ensures Serves(OutcomeBack(o)) == Serves(o)
  {
  }

  /** A rule of the target that stands for one in memory serves only what the target has. */
  lemma {:induction false} KeptServes(h: Scanner.Host, target: Flag, r: YamlRules.Rule, names: set<string>)
    requires RulesServeOnly(target.rules, names) && YamlRules.Unchanged(h, r, OriginalsOf(h, target))
    ensures RuleServes(InFile(h, r, OriginalsOf(h, target))) <= names
  {
    hide YamlRules.EffectiveQuery, SameOutcome, YamlRules.ByName, YamlRules.LoadedRule, RuleServes;
    OriginalsAmong(LoadedRules(h, target.rules));
  }

  /** A rule in memory serves what the source's or the target's does. */
  lemma {:induction false} MemoryServes(h: Scanner.Host, source: Flag, fields: set<Field>, now: real, target: Flag,
                                        i: nat)
    requires var memory := RulesInMemory(h, source, fields, now, target); i < |memory|
    ensures RuleServes(RulesInMemory(h, source, fields, now, target)[i].data)
         == RuleServes(if Rules in fields then source.rules[i] else target.rules[i])
  {
    hide RuleServes, FrozenRule, YamlRules.LoadedRule;
    if Rules in fields {
      FreezingServes(source.rules[i], now);
    }
  }

  /** The rules a promotion leaves in the file serve only variations the flag has then. */
  predicate FileServesOnly(h: Scanner.Host, memory: seq<YamlRules.Rule>, originals: map<string, YamlRules.Rule>,
                           names: set<string>) {
    forall i | 0 <= i < |memory| :: RuleServes(InFile(h, memory[i], originals)) <= names
  }

  lemma {:induction false} BackServeOnly(h: Scanner.Host, memory: seq<YamlRules.Rule>,
                                         originals: map<string, YamlRules.Rule>, names: set<string>)
    ensures RulesServeOnly(RulesBack(h, memory, originals), names) <==> FileServesOnly(h, memory, originals, names)
  {
    hide RuleBack, InFile, RuleServes;
    var back := RulesBack(h, memory, originals);
    forall i | 0 <= i < |memory|
      ensures RuleServes(back[i]) == RuleServes(InFile(h, memory[i], originals))
    {
      BackServes(h, memory[i], originals);
    }
    if RulesServeOnly(back, names) {
      forall i | 0 <= i < |memory|
        ensures RuleServes(InFile(h, memory[i], originals)) <= names
      {
        assert RuleServes(back[i]) <= names;
      }
    }
  }

  /** With the target's variations kept, what is in the file serves only those. */
  lemma {:induction false} KeptVariations(h: Scanner.Host, source: Flag, target: Flag, fields: set<Field>, now: real)
    requires var names := Names(target.variations);
             RulesServeOnly(target.rules, names) && (Rules in fields ==> RulesServeOnly(source.rules, names))
    ensures FileServesOnly(h, RulesInMemory(h, source, fields, now, target), OriginalsOf(h, target),
                           Names(target.variations))
  {
    hide YamlRules.Unchanged, OriginalsOf, RuleServes, Names, RulesInMemory;
    var memory, originals := RulesInMemory(h, source, fields, now, target), OriginalsOf(h, target);
    forall i | 0 <= i < |memory|
      ensures RuleServes(InFile(h, memory[i], originals)) <= Names(target.variations)
    {
      MemoryServes(h, source, fields, now, target, i);
      if YamlRules.Unchanged(h, memory[i], originals) {
        KeptServes(h, target, memory[i], Names(target.variations));
      }
    }
  }

  /** With the source's variations, only the rules that stay the target's own are in question. */
  lemma {:induction false} NewVariations(h: Scanner.Host, source: Flag, target: Flag, fields: set<Field>, now: real)
    requires RulesServeOnly(source.rules, Names(source.variations))
    ensures var memory, originals := RulesInMemory(h, source, fields, now, target), OriginalsOf(h, target);
            FileServesOnly(h, memory, originals, Names(source.variations)) <==>
            forall i | 0 <= i < |memory| && (Rules in fields ==> YamlRules.Unchanged(h, memory[i], originals)) ::
              RuleServes(InFile(h, memory[i], originals)) <= Names(source.variations)
  {
    hide YamlRules.Unchanged, OriginalsOf, RuleServes, Names, RulesInMemory;
    var memory := RulesInMemory(h, source, fields, now, target);
    forall i | 0 <= i < |memory|
      ensures Rules in fields ==> RuleServes(memory[i].data) <= Names(source.variations)
    {
      MemoryServes(h, source, fields, now, target, i);
    }
  }

  /** After a promotion that was checked at an earlier time and saved the target still serves only variations it has,
      exactly if its variations were not replaced under settings of its own that serve others: its default, its rules,
      or those of its rules that are taken for the promoted ones and stay in the file. */
  lemma {:induction false} SavedStaysClosed(h: Scanner.Host, source: Flag, target: Flag, fields: set<Field>,
                                            checked: real, now: real, stamp: Value)
    requires Closed(source) && Closed(target) && Promotable(source, target, fields, checked)
    ensures var memory, originals := RulesInMemory(h, source, fields, now, target), OriginalsOf(h, target);
            Closed(Saved(h, source, fields, now, target, stamp)) <==>
            (Variations in fields ==>
               && (Default !in fields ==> Serves(target.default) <= Names(source.variations))
               && forall i | 0 <= i < |memory| && (Rules in fields ==> YamlRules.Unchanged(h, memory[i], originals)) ::
                    RuleServes(InFile(h, memory[i], originals)) <= Names(source.variations))
  {
    hide Serves, Names, RulesServeOnly, RulesInMemory, OriginalsOf, RulesBack, MergedMetadata, Promotable, FrozenRules,
         FileServesOnly, YamlRules.Unchanged, RuleServes, InFile;
    var memory, originals := RulesInMemory(h, source, fields, now, target), OriginalsOf(h, target);
    var after := Saved(h, source, fields, now, target, stamp);
    PromotableAnyTime(source, target, fields, checked);
    BackServeOnly(h, memory, originals, Names(after.variations));
    DefaultServes(if Default in fields then source.default else target.default);
    if Variations in fields {
      NewVariations(h, source, target, fields, now);
    } else {
      KeptVariations(h, source, target, fields, now);
    }
  }

  /** Rules and variations promoted together, and what is in memory serves only variations it has; but the target's own
      rule stays in the file, with a share of nought for a variation that is gone. */
  lemma {:induction false} KeptRuleStrands(h: Scanner.Host, now: real, stamp: Value)
    returns (source: Flag, target: Flag)
    ensures var fields := {Rules, Variations};
            && Closed(source) && Closed(target) && Promotable(source, target, fields, now)
            && Closed(Promoted(source, fields, now, target))
            && Saved(h, source, fields, now, target, stamp).rules == target.rules
            && !Closed(Saved(h, source, fields, now, target, stamp))
  {
    hide YamlRules.LoadedRule, YamlRules.ByName, FrozenRule, SameOutcome, RuleBack, RuleServes, Serves, Names;
    var on, off, beta := Variation("on", Value("bool", "true")), Variation("off", Value("bool", "false")),
                         Variation("beta", Value("bool", "false"));
    var a, b := SharesOfNought();
    source := Flag("f", true, [on, off], [a], Outcome("on", map[]), None, "", map[]);
    target := Flag("f", true, [on, beta], [b], Outcome("on", map[]), None, "", map[]);
    TwoNames(on, off);
    TwoNames(on, beta);
    ServesOne("on");
    NothingToFreeze(a, now);
    FreezingServes(a, now);
    TakenForTheOther(h, a, b, target.rules);
    var after := Saved(h, source, {Rules, Variations}, now, target, stamp);
    assert after.rules == [b];
    assert RuleServes(after.rules[0]) == {"on", "beta"} && Names(after.variations) == {"on", "off"};
    assert "beta" in RuleServes(after.rules[0]) && "beta" !in Names(after.variations);
  }

  lemma {:induction false} ServesOne(variation: string)
    requires variation != ""
    ensures Serves(Outcome(variation, map[])) == {variation}
  {
  }

  lemma {:induction false} TwoNames(a: Variation, b: Variation)
    ensures Names([a, b]) == {a.name, b.name}
  {
    assert [a, b][0] == a && [a, b][1] == b;
  }

  // ---------------------------------------------------------------- two ways to stay in the report

  /** A rule with one test, handwritten without parentheses. */
  lemma {:induction false} UnprintedText(h: Scanner.Host, q: Queries.Query, data: Rule)
    requires Queries.IsLeafQuery(q) && Queries.WellFormed(q) && Meaning.Printable(h, q)
    requires data.query == Queries.Body(h, q)
    ensures var r := YamlRules.LoadedRule(h, data);
            && !r.advanced && r.condition.Cond?
            && Conditions.CompileCondition(h, r.condition) == Queries.Text(h, q) != data.query
  {
    hide Conditions.CompileCondition, Parser.ParseExpr, Queries.Text, Queries.Body, Meaning.Printable, Reading.Reread;
    Shortfalls.PrintOfRead(h, q);
    RoundTrip.ParsePrinted(h, q);
    Queries.BodyEnds(h, q);
    Shortfalls.BodyIsNotText(h, q);
    Meaning.PrintableReads(h, (_, _, _) => true, q);
  }

  lemma {:induction false} NotByThatText(h: Scanner.Host, r: YamlRules.Rule, originals: map<string, YamlRules.Rule>)
    requires !r.advanced && r.condition.Cond? && Conditions.CompileCondition(h, r.condition) != r.data.query
    requires r.data.name in originals ==> originals[r.data.name].data.query != r.data.query
    ensures !ComesBack(h, r, originals)
    ensures RuleBack(h, r, originals).query == Conditions.CompileCondition(h, r.condition)
  {
    hide Conditions.CompileCondition, SameOutcome;
  }

  /** A rule whose handwritten text printing would give otherwise, promoted to a target without a rule of its name: it
      is still in the report after the promotion, and after the next one. */
  lemma {:induction false} HandwrittenRuleStays(h: Scanner.Host, q: Queries.Query, source: Flag, target: Flag,
                                                now: real, stamp: Value)
    requires Queries.IsLeafQuery(q) && Queries.WellFormed(q) && Meaning.Printable(h, q)
    requires AsLoaded(source) && |source.rules| == 1 && source.rules[0].query == Queries.Body(h, q)
    requires AsLoaded(target) && target.rules == []
    ensures var once := Saved(h, source, {Rules}, now, target, stamp);
            var twice := Saved(h, source, {Rules}, now, once, stamp);
            && |once.rules| == 1 && once.rules[0].query == Queries.Text(h, q)
            && Rules in Drift(source, once) && Rules in Drift(source, twice)
  {
    hide Conditions.CompileCondition, Parser.ParseQuery, Queries.Text, Queries.Body, Meaning.Printable, ComesBack,
         RuleBack, Stripped, SameVariations, MergedMetadata, FrozenOutcome;
    var data := source.rules[0];
    UnprintedText(h, q, data);
    var once := Saved(h, source, {Rules}, now, target, stamp);
    var r := LoadedRules(h, source.rules)[0];
    var frozen := r.(data := FrozenRule(r.data, now));
    assert OriginalsOf(h, target) == map[];
    NotByThatText(h, frozen, OriginalsOf(h, target));
    assert once.rules == [RuleBack(h, frozen, OriginalsOf(h, target))];
    OneOriginal(h, once);
    NotByThatText(h, frozen, OriginalsOf(h, once));
  }

  /** Two flags with the same unnamed rule, whose handwritten text printing would give otherwise: promoting anything but
      the rules brings the rules into the report. */
  lemma {:induction false} UnselectedRulesDrift(h: Scanner.Host, q: Queries.Query, source: Flag, fields: set<Field>,
                                                now: real, target: Flag, stamp: Value)
    requires Rules !in fields
    requires Queries.IsLeafQuery(q) && Queries.WellFormed(q) && Meaning.Printable(h, q)
    requires |source.rules| == 1 && source.rules[0].query == Queries.Body(h, q) && source.rules[0].name == ""
    requires target.rules == source.rules
    ensures Rules !in Drift(source, target) && Rules in Drift(source, Saved(h, source, fields, now, target, stamp))
  {
    hide Conditions.CompileCondition, Parser.ParseQuery, Queries.Text, Queries.Body, Meaning.Printable, ComesBack,
         RuleBack, Stripped, SameVariations, MergedMetadata;
    UnprintedText(h, q, target.rules[0]);
    var r, names := LoadedRules(h, target.rules)[0], OriginalsOf(h, target);
    ByNameNames(LoadedRules(h, target.rules));
    NotByThatText(h, r, names);
    assert Saved(h, source, fields, now, target, stamp).rules[0] == RuleBack(h, r, names);
  }

  lemma {:induction false} OneOriginal(h: Scanner.Host, f: Flag)
    requires |f.rules| == 1
    ensures forall n | n in OriginalsOf(h, f) :: OriginalsOf(h, f)[n].data == f.rules[0]
  {
    hide YamlRules.LoadedRule;
    var rules := LoadedRules(h, f.rules);
    assert rules[..|rules| - 1] == [];
    assert YamlRules.ByName([]) == map[];
  }

  /** Such a rule: `tier eq "gold"`, which is written as `(tier eq "gold")`. */
  lemma {:induction false} GoldTier(h: Scanner.Host)
    ensures var q := Queries.Test("tier", Conditions.Eq, "gold");
            && Queries.IsLeafQuery(q) && Queries.WellFormed(q) && Meaning.Printable(h, q)
            && Queries.Body(h, q) == "tier eq \"gold\"" && Queries.Text(h, q) == "(tier eq \"gold\")"
  {
    hide Literals.JoinFree, Conditions.FormatValue, Conditions.Norm, Scanner.IsBare;
    JoinFreeTier(h);
    GoldValue(h);
    var quoted := "\"gold\"";
    assert "tier" + " " + ("eq" + " " + quoted) == "tier eq \"gold\"";
    assert "(" + "tier eq \"gold\"" + ")" == "(tier eq \"gold\")";
    assert Queries.Tail(h, Queries.Test("tier", Conditions.Eq, "gold")) == "eq" + " " + quoted;
  }

  lemma {:induction false} JoinFreeTier(h: Scanner.Host)
    ensures Literals.JoinFree(h, false, "tier") && Scanner.IsBare("tier")
  {
  }

  lemma {:induction false} GoldValue(h: Scanner.Host)
    ensures Conditions.FormatValue(h, "gold", Conditions.Eq) == "\"gold\""
    ensures Conditions.Norm("gold") == "gold"
  {
    hide Strings.TrimLeft, Strings.TrimRight, Strings.ToLower, Conditions.IsFloat;
    assert Strings.Trimmed("gold");
    assert Strings.ToLower("gold")[0] == 'g';
    assert "true"[0] == 't' && "false"[0] == 'f';
    assert Scanner.Escape("gold") == "gold" by {
      assert "gold"[1..] == "old" && "old"[1..] == "ld" && "ld"[1..] == "d" && "d"[1..] == "";
    }
  }

  /** Two rules of one name that differ in a share of nought: the target's is taken for unchanged and kept, so promoting
      the rules changes nothing. */
  lemma {:induction false} ZeroShareIsKept(h: Scanner.Host, now: real, stamp: Value)
    returns (source: Flag, target: Flag)
    ensures AsLoaded(source) && AsLoaded(target) && !HasRamp(source.rules)
    ensures var after := Saved(h, source, {Rules}, now, target, stamp);
            after.rules == target.rules != source.rules && Rules in Drift(source, after)
  {
    hide YamlRules.LoadedRule, YamlRules.ByName, SameOutcome, RuleBack, Saved;
    var rule, other := SharesOfNought();
    source := Flag("f", true, [], [rule], Outcome("on", map[]), None, "", map[]);
    target := source.(rules := [other]);
    TakenForTheOther(h, rule, other, target.rules);
    NoRampInMemory(h, source, {Rules}, now, target);
    assert Saved(h, source, {Rules}, now, target, stamp).rules == [other];
  }
}
