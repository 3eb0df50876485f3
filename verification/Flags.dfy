/** Flags as the server models them (internal/goff/model.go), and when two of them are the same to a user
    (internal/server/service.go). */
module Flags {
  import opened Collections
  import opened Options

  /** A decoded value: its dynamic type and how it prints. */
  datatype Value = Value(kind: string, text: string)

  datatype Variation = Variation(name: string, value: Value)

  /** Percentages are reals here. */
  datatype Outcome = Outcome(variation: string, percentage: map<string, real>)

  datatype RolloutStep = RolloutStep(variation: string, percentage: real, date: Option<real>)

  datatype ProgressiveRollout = ProgressiveRollout(initial: RolloutStep, end: RolloutStep)

  datatype Rule = Rule(name: string, query: string, disabled: bool, outcome: Outcome,
                       progressive: Option<ProgressiveRollout>)

  datatype Experimentation = Experimentation(start: string, end: string)

  datatype Flag = Flag(key: string, enabled: bool, variations: seq<Variation>, rules: seq<Rule>, default: Outcome,
                       experimentation: Option<Experimentation>, bucketingKey: string, metadata: map<string, Value>)

  /** A Go map read: a missing key reads as zero. */
  function Share(percentage: map<string, real>, name: string): real {
    if name in percentage then percentage[name] else 0.0
  }

  function Lookup(metadata: map<string, Value>, name: string): Option<Value> {
    if name in metadata then Some(metadata[name]) else None
  }

  predicate SameOutcome(a: Outcome, b: Outcome) {
    && a.variation == b.variation
    && |a.percentage| == |b.percentage|
    && forall k | k in a.percentage :: Share(b.percentage, k) == a.percentage[k]
  }

  predicate SameVariation(a: Variation, b: Variation) {
    a.name == b.name && a.value.text == b.value.text
  }

  predicate SameRule(a: Rule, b: Rule) {
    a.name == b.name && a.query == b.query && a.disabled == b.disabled && SameOutcome(a.outcome, b.outcome)
  }

  /** `sameFlagState`. */
  predicate SameFlagState(a: Flag, b: Flag) {
    && a.enabled == b.enabled
    && Lookup(a.metadata, "description") == Lookup(b.metadata, "description")
    && SameOutcome(a.default, b.default)
    && |a.variations| == |b.variations|
    && (forall i | 0 <= i < |a.variations| :: SameVariation(a.variations[i], b.variations[i]))
    && |a.rules| == |b.rules|
    && (forall i | 0 <= i < |a.rules| :: SameRule(a.rules[i], b.rules[i]))
  }

  lemma {:induction false} SameAsItself(a: Flag)
    ensures SameFlagState(a, a)
  {
  }

  // ---------------------------------------------------------------- when the comparison is equality

  predicate AllNonZero(percentage: map<string, real>) {
    forall k | k in percentage :: percentage[k] != 0.0
  }

  /** A name longer than every name of a map. */
  lemma {:induction false} FreshName(names: set<string>) returns (unused: string)
    ensures unused !in names && forall n | n in names :: |n| < |unused|
  {
    if names == {} {
      unused := "x";
    } else {
      var n :| n in names;
      var rest := FreshName(names - {n});
      unused := rest + n + "x";
      assert forall m | m in names :: m == n || m in names - {n};
    }
  }

  lemma {:induction false} NonZeroMeansEqual(a: Outcome, b: Outcome)
    requires SameOutcome(a, b) && AllNonZero(a.percentage)
    ensures a == b
  {
    SubsetOfSameSize(a.percentage.Keys, b.percentage.Keys);
    assert a.percentage == b.percentage;
  }

  /** A zero share can be renamed without the comparison seeing it. */
  lemma {:induction false} ZeroCanBeRenamed(a: Outcome, k: string) returns (b: Outcome)
    requires k in a.percentage && a.percentage[k] == 0.0
    ensures SameOutcome(a, b) && a != b
  {
    var unused := FreshName(a.percentage.Keys);
    var rest := a.percentage - {k};
    b := Outcome(a.variation, rest[unused := 1.0]);
    assert rest.Keys == a.percentage.Keys - {k};
    assert b.percentage.Keys == rest.Keys + {unused};
    assert |rest.Keys| == |a.percentage.Keys| - 1;
    assert |b.percentage.Keys| == |rest.Keys| + 1;
    assert |b.percentage| == |b.percentage.Keys| && |a.percentage| == |a.percentage.Keys|;
    assert unused in b.percentage && unused !in a.percentage;
  }

  /** The comparison of outcomes is equality exactly for the outcomes without a zero share. */
  lemma {:induction false} SameOutcomeIsEquality(a: Outcome)
    ensures (forall b :: SameOutcome(a, b) ==> a == b) <==> AllNonZero(a.percentage)
  {
    if AllNonZero(a.percentage) {
      forall b | SameOutcome(a, b)
        ensures a == b
      {
        NonZeroMeansEqual(a, b);
      }
    } else {
      var k :| k in a.percentage && a.percentage[k] == 0.0;
      var b := ZeroCanBeRenamed(a, k);
    }
  }

  // ---------------------------------------------------------------- what the comparison sees

  datatype RuleView = RuleView(name: string, query: string, disabled: bool, outcome: Outcome)

  /** What of a flag is compared: not its ramps, its experimentation, its bucketing key or its other metadata, and of
      values only how they print. */
  datatype View = View(enabled: bool, description: Option<Value>, default: Outcome,
                       variations: seq<(string, string)>, rules: seq<RuleView>)

  function RuleViewOf(r: Rule): RuleView {
    RuleView(r.name, r.query, r.disabled, r.outcome)
  }

  function ViewOf(f: Flag): View {
    View(f.enabled, Lookup(f.metadata, "description"), f.default,
         seq(|f.variations|, i requires 0 <= i < |f.variations| => (f.variations[i].name, f.variations[i].value.text)),
         seq(|f.rules|, i requires 0 <= i < |f.rules| => RuleViewOf(f.rules[i])))
  }

  predicate NoZeroShares(f: Flag) {
    AllNonZero(f.default.percentage) && forall i | 0 <= i < |f.rules| :: AllNonZero(f.rules[i].outcome.percentage)
  }

  /** Two flags compare as the same when their views are equal, whatever else differs; and for a flag without zero
      shares only then. */
  lemma {:induction false} SameFlagStateIsSameView(a: Flag, b: Flag)
    ensures ViewOf(a) == ViewOf(b) ==> SameFlagState(a, b)
    ensures NoZeroShares(a) ==> (SameFlagState(a, b) <==> ViewOf(a) == ViewOf(b))
  {
    var va, vb := ViewOf(a), ViewOf(b);
    if va == vb {
      forall i | 0 <= i < |a.variations|
        ensures |va.variations| == |vb.variations| && SameVariation(a.variations[i], b.variations[i])
      {
        assert va.variations[i] == vb.variations[i];
      }
      forall i | 0 <= i < |a.rules|
        ensures |va.rules| == |vb.rules| && SameRule(a.rules[i], b.rules[i])
      {
        assert va.rules[i] == vb.rules[i];
      }
    }
    if NoZeroShares(a) && SameFlagState(a, b) {
      NonZeroMeansEqual(a.default, b.default);
      forall i | 0 <= i < |a.rules|
        ensures RuleViewOf(a.rules[i]) == RuleViewOf(b.rules[i])
      {
        assert SameRule(a.rules[i], b.rules[i]);
        NonZeroMeansEqual(a.rules[i].outcome, b.rules[i].outcome);
      }
      forall i | 0 <= i < |a.variations|
        ensures va.variations[i] == vb.variations[i]
      {
        assert SameVariation(a.variations[i], b.variations[i]);
      }
    }
  }

  /** What the comparison leaves open: these can be set at will. */
  lemma {:induction false} LeftOpen(a: Flag, experimentation: Option<Experimentation>, bucketingKey: string,
                                    metadata: map<string, Value>, ramp: Option<ProgressiveRollout>, i: nat)
    requires Lookup(metadata, "description") == Lookup(a.metadata, "description") && i < |a.rules|
    ensures SameFlagState(a, a.(experimentation := experimentation, bucketingKey := bucketingKey,
                                metadata := metadata, rules := a.rules[i := a.rules[i].(progressive := ramp)]))
  {
    var b := a.(experimentation := experimentation, bucketingKey := bucketingKey, metadata := metadata,
                rules := a.rules[i := a.rules[i].(progressive := ramp)]);
    assert ViewOf(a).rules == ViewOf(b).rules;
    SameFlagStateIsSameView(a, b);
  }

  /** Two flags of which one has a ramp to everybody and the other to nobody compare as the same. */
  lemma {:induction false} RampsGoUnnoticed() returns (a: Flag, b: Flag)
    ensures SameFlagState(a, b) && |a.rules| == |b.rules| == 1
    ensures a.rules[0].progressive.Some? && b.rules[0].progressive.Some?
    ensures a.rules[0].progressive.value.end.percentage == 100.0 && b.rules[0].progressive.value.end.percentage == 0.0
  {
    var from, all, none :=
      RolloutStep("on", 50.0, Some(0.0)), RolloutStep("off", 100.0, Some(1.0)), RolloutStep("off", 0.0, Some(1.0));
    var rule := Rule("beta", "", false, Outcome("", map[]), Some(ProgressiveRollout(from, all)));
    a := Flag("f", true, [], [rule], Outcome("on", map[]), None, "", map[]);
    b := a.(rules := [rule.(progressive := Some(ProgressiveRollout(from, none)))]);
    LeftOpen(a, None, "", map[], Some(ProgressiveRollout(from, none)), 0);
    assert a.rules[0 := b.rules[0]] == b.rules;
  }
}
