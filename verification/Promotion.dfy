/** Copying settings of a flag from one environment to another, and the drift report that says what differs
    (internal/server/promote.go, internal/server/compare.go). */
module Promotion {
  import opened Flags
  import opened Options

  datatype Field = Enabled | Variations | Default | Rules | Experiment | BucketingKey | Metadata

  const STUDIO_METADATA := {"team", "createdAt", "updatedAt"}

  // ---------------------------------------------------------------- the drift report

  function NamedValue(variations: seq<Variation>, name: string): Option<Value> {
    if variations == [] then None
    else
      var last := variations[|variations| - 1];
      if last.name == name then Some(last.value) else NamedValue(variations[..|variations| - 1], name)
  }

  /** The same names with the same values, in any order. */
  predicate SameVariations(a: seq<Variation>, b: seq<Variation>) {
    |a| == |b| && forall i | 0 <= i < |a| :: NamedValue(b, a[i].name) == Some(a[i].value)
  }

  /** `sameVariations`. */
  method CompareVariations(a: seq<Variation>, b: seq<Variation>) returns (same: bool)
    ensures same <==> SameVariations(a, b)
  {
    if |a| != |b| {
      return false;
    }
    var byName: map<string, Value> := map[];
    var i := 0;
    while i < |b|
      invariant 0 <= i <= |b|
      invariant forall n :: Lookup(byName, n) == NamedValue(b[..i], n)
    {
      assert b[..i + 1][..i] == b[..i];
      byName := byName[b[i].name := b[i].value];
      i := i + 1;
    }
    assert b[..i] == b;
    i := 0;
    while i < |a|
      invariant 0 <= i <= |a|
      invariant forall k | 0 <= k < i :: NamedValue(b, a[k].name) == Some(a[k].value)
    {
      if Lookup(byName, a[i].name) != Some(a[i].value) {
        return false;
      }
      i := i + 1;
    }
    return true;
  }

  function Stripped(metadata: map<string, Value>): map<string, Value> {
    map k | k in metadata && k !in STUDIO_METADATA :: metadata[k]
  }

  /** Whether two flags agree in a field, for the drift report. */
  predicate Same(f: Field, source: Flag, target: Flag) {
    match f
    case Enabled => source.enabled == target.enabled
    case Variations => SameVariations(source.variations, target.variations)
    case Default => source.default == target.default
    case Rules => source.rules == target.rules
    case Experiment => source.experimentation == target.experimentation
    case BucketingKey => source.bucketingKey == target.bucketingKey
    case Metadata => Stripped(source.metadata) == Stripped(target.metadata)
  }

  /** `diffFields`. */
  function Drift(source: Flag, target: Flag): set<Field> {
    set f: Field | !Same(f, source, target)
  }

  lemma {:induction false} NamedValueAmong(variations: seq<Variation>, name: string)
    ensures match NamedValue(variations, name)
            case None => forall v | v in variations :: v.name != name
            case Some(value) => Variation(name, value) in variations
  {
    if variations != [] {
      NamedValueAmong(variations[..|variations| - 1], name);
    }
  }

  /** Variations that count as the same are the same in another order, if no name is there twice. */
  lemma {:induction false} SameInAnyOrder(a: seq<Variation>, b: seq<Variation>)
    requires forall i, j | 0 <= i < j < |b| :: b[i].name != b[j].name
    ensures SameVariations(a, b) <==> |a| == |b| && forall v | v in a :: v in b
  {
    hide NamedValue;
    forall v | v in a
      ensures NamedValue(b, v.name) == Some(v.value) <==> v in b
    {
      NamedValueAmong(b, v.name);
      if v in b {
        var i :| 0 <= i < |b| && b[i] == v;
        var w := Variation(v.name, NamedValue(b, v.name).value);
        var j :| 0 <= j < |b| && b[j] == w;
        assert i == j;
      }
    }
  }

  /** What the report tells apart: without drift the target is the source but for its key, the order of its variations
      and the metadata that is the studio's own; and any other difference is in it. */
  lemma {:induction false} NoDriftMeans(source: Flag, target: Flag)
    ensures Drift(source, target) == {} <==>
              && target == source.(key := target.key, variations := target.variations, metadata := target.metadata)
              && SameVariations(source.variations, target.variations)
              && forall k | k != "team" && k != "createdAt" && k != "updatedAt" ::
                   Lookup(source.metadata, k) == Lookup(target.metadata, k)
  {
    hide SameVariations, Stripped;
    StrippedAlike(source.metadata, target.metadata);
    var drift := Drift(source, target);
    if drift == {} {
      forall f: Field
        ensures Same(f, source, target)
      {
        assert f !in drift;
      }
      assert Same(Enabled, source, target) && Same(Variations, source, target) && Same(Default, source, target);
      assert Same(Rules, source, target) && Same(Experiment, source, target) && Same(BucketingKey, source, target);
      assert Same(Metadata, source, target);
    } else {
      var f :| f in drift;
      assert !Same(f, source, target);
    }
  }

  lemma {:induction false} StrippedAlike(a: map<string, Value>, b: map<string, Value>)
    ensures Stripped(a) == Stripped(b) <==>
              forall k | k != "team" && k != "createdAt" && k != "updatedAt" :: Lookup(a, k) == Lookup(b, k)
  {
    var x, y := Stripped(a), Stripped(b);
    assert forall k | k !in STUDIO_METADATA :: Lookup(x, k) == Lookup(a, k) && Lookup(y, k) == Lookup(b, k);
    if forall k | k !in STUDIO_METADATA :: Lookup(a, k) == Lookup(b, k) {
      assert forall k :: Lookup(x, k) == Lookup(y, k);
      assert x.Keys == y.Keys by {
        forall k
          ensures k in x <==> k in y
        {
          assert Lookup(x, k) == Lookup(y, k);
        }
      }
      assert forall k | k in x :: Lookup(x, k) == Lookup(y, k);
    }
  }

  // ---------------------------------------------------------------- frozen ramps

  /** The part of the way that is behind. */
  function Elapsed(start: real, now: real, end: real): real
    requires start < end
  {
    (now - start) / (end - start)
  }

  function Along(from: real, to: real, part: real): real {
    from + (to - from) * part
  }

  /** `reachedPercentage`; a date is none when it cannot be read. */
  function Reached(p: ProgressiveRollout, now: real): real {
    if p.initial.date.None? || p.end.date.None? then p.end.percentage
    else
      var start, end := p.initial.date.value, p.end.date.value;
      if end <= start then p.end.percentage
      else if now < start then p.initial.percentage
      else if now > end then p.end.percentage
      else Along(p.initial.percentage, p.end.percentage, Elapsed(start, now, end))
  }

  /** `frozenOutcome`. */
  function FrozenOutcome(p: ProgressiveRollout, now: real): Outcome {
    var reached := Reached(p, now);
    if p.initial.variation == p.end.variation then Outcome("", map[p.end.variation := reached])
    else Outcome("", map[p.end.variation := reached, p.initial.variation := 100.0 - reached])
  }

  function FrozenRule(r: Rule, now: real): Rule {
    match r.progressive
    case None => r
    case Some(p) => r.(outcome := FrozenOutcome(p, now), progressive := None)
  }

  function FrozenRules(rules: seq<Rule>, now: real): seq<Rule> {
    seq(|rules|, i requires 0 <= i < |rules| => FrozenRule(rules[i], now))
  }

  /** `frozenRules`. */
  method FreezeRules(rules: seq<Rule>, now: real) returns (out: seq<Rule>)
    ensures out == FrozenRules(rules, now)
  {
    out := [];
    var i := 0;
    while i < |rules|
      invariant 0 <= i <= |rules| && |out| == i
      invariant forall k | 0 <= k < i :: out[k] == FrozenRule(rules[k], now)
    {
      var r := rules[i];
      if r.progressive.Some? {
        r := r.(outcome := FrozenOutcome(r.progressive.value, now));
        r := r.(progressive := None);
      }
      out := out + [r];
      i := i + 1;
    }
  }

  predicate HasRamp(rules: seq<Rule>) {
    exists i | 0 <= i < |rules| :: rules[i].progressive.Some?
  }

  lemma {:induction false} ElapsedGrows(start: real, now: real, later: real, end: real)
    requires start <= now <= later <= end && start < end
    ensures 0.0 <= Elapsed(start, now, end) <= Elapsed(start, later, end) <= 1.0
  {
    Divided(0.0, now - start, end - start);
    Divided(now - start, later - start, end - start);
    Divided(later - start, end - start, end - start);
  }

  lemma {:induction false} Divided(x: real, y: real, d: real)
    requires x <= y && d > 0.0
    ensures x / d <= y / d
  {
  }

  lemma {:induction false} AlongGrows(from: real, to: real, t: real, u: real)
    requires 0.0 <= t <= u <= 1.0
    ensures from <= to ==> from <= Along(from, to, t) <= Along(from, to, u) <= to
    ensures from >= to ==> from >= Along(from, to, t) >= Along(from, to, u) >= to
  {
    hide Along, Times;
    AlongIsMix(from, to, t);
    AlongIsMix(from, to, u);
    if from <= to {
      Scaled(to - from, 0.0, t);
      Scaled(to - from, t, u);
      Scaled(to - from, u, 1.0);
    } else {
      Scaled(from - to, 0.0, t);
      Scaled(from - to, t, u);
      Scaled(from - to, u, 1.0);
    }
  }

  function Times(x: real, y: real): real {
    x * y
  }

  lemma {:induction false} AlongIsMix(from: real, to: real, t: real)
    ensures Along(from, to, t) == from + Times(to - from, t) == from - Times(from - to, t)
  {
  }

  lemma {:induction false} Scaled(d: real, t: real, u: real)
    requires d >= 0.0 && t <= u
    ensures Times(d, t) <= Times(d, u)
    ensures Times(d, 0.0) == 0.0 && Times(d, 1.0) == d
  {
  }

  /** As time goes on a ramp only ever moves towards its end, and it is always between its two percentages. */
  lemma {:induction false} ReachedIsMonotone(p: ProgressiveRollout, now: real, later: real)
    requires now <= later
    ensures var a, b := p.initial.percentage, p.end.percentage;
            if a <= b then a <= Reached(p, now) <= Reached(p, later) <= b
            else a >= Reached(p, now) >= Reached(p, later) >= b
  {
    hide Along, Elapsed;
    if p.initial.date.Some? && p.end.date.Some? {
      var start, end := p.initial.date.value, p.end.date.value;
      if start < end {
        var from, to := if now < start then start else now, if later > end then end else later;
        if from <= to {
          ElapsedGrows(start, from, to, end);
          AlongGrows(p.initial.percentage, p.end.percentage, Elapsed(start, from, end), Elapsed(start, to, end));
        }
      }
    }
  }

  /** Between its dates a ramp has gone as much of its way as of its time; before them it is where it starts, and after
      them, or where they make no sense, where it ends. */
  lemma {:induction false} ReachedIsLinear(p: ProgressiveRollout, now: real)
    ensures var a, b := p.initial.percentage, p.end.percentage;
            if p.initial.date.None? || p.end.date.None? || p.end.date.value <= p.initial.date.value then
              Reached(p, now) == b
            else
              var start, end := p.initial.date.value, p.end.date.value;
              && (now < start ==> Reached(p, now) == a)
              && (now > end ==> Reached(p, now) == b)
              && (start <= now <= end ==> Times(Reached(p, now) - a, end - start) == Times(b - a, now - start))
  {
    hide Along, Elapsed, Times;
    if p.initial.date.Some? && p.end.date.Some? && p.end.date.value > p.initial.date.value {
      var start, end := p.initial.date.value, p.end.date.value;
      if start <= now <= end {
        LinearPart(p.initial.percentage, p.end.percentage, start, now, end);
      }
    }
  }

  lemma {:induction false} LinearPart(a: real, b: real, start: real, now: real, end: real)
    requires start < end
    ensures Times(Along(a, b, Elapsed(start, now, end)) - a, end - start) == Times(b - a, now - start)
  {
    hide Along, Times;
    var t := Elapsed(start, now, end);
    AlongIsMix(a, b, t);
    PartOfTime(b - a, t, end - start, now - start);
  }

  lemma {:induction false} PartOfTime(way: real, t: real, whole: real, part: real)
    requires whole > 0.0 && t == part / whole
    ensures Times(Times(way, t), whole) == Times(way, part)
  {
    assert t * whole == part;
    assert way * t * whole == way * (t * whole);
  }

  /** The variations of a table with one or two rows, and what they add up to. */
  predicate SharesOf(percentage: map<string, real>, a: string, b: string, total: real) {
    && percentage.Keys == {a, b}
    && total == if a == b then percentage[a] else percentage[a] + percentage[b]
  }

  /** When a ramp to and from the same variation serves everybody: told from its dates and percentages. */
  predicate ServesAll(p: ProgressiveRollout, now: real) {
    if p.initial.date.None? || p.end.date.None? || p.end.date.value <= p.initial.date.value then
      p.end.percentage == 100.0
    else if now <= p.initial.date.value then p.initial.percentage == 100.0
    else if now >= p.end.date.value then p.end.percentage == 100.0
    else p.initial.percentage == 100.0 && p.end.percentage == 100.0
  }

  lemma {:induction false} AlongBelow(from: real, to: real, t: real)
    requires 0.0 < t < 1.0 && from <= 100.0 && to <= 100.0
    ensures Along(from, to, t) == 100.0 <==> from == 100.0 && to == 100.0
  {
    hide Along, Times;
    AlongIsMix(from, to, t);
    if from < to {
      ScaledStrictly(to - from, t);
    } else if from > to {
      ScaledStrictly(from - to, t);
    } else {
      ScaledNothing(t);
    }
  }

  lemma {:induction false} ScaledStrictly(d: real, t: real)
    requires d > 0.0 && 0.0 < t < 1.0
    ensures 0.0 < Times(d, t) < d
  {
    Positive(d, t);
    Positive(d, 1.0 - t);
    assert Times(d, 1.0 - t) == d - Times(d, t);
  }

  lemma {:induction false} Positive(x: real, y: real)
    requires x > 0.0 && y > 0.0
    ensures Times(x, y) > 0.0
  {
  }

  lemma {:induction false} ScaledNothing(t: real)
    ensures Times(0.0, t) == 0.0
  {
  }

  lemma {:induction false} ElapsedInside(start: real, now: real, end: real)
    requires start <= now <= end && start < end
    ensures Elapsed(start, start, end) == 0.0 && Elapsed(start, end, end) == 1.0
    ensures start < now < end ==> 0.0 < Elapsed(start, now, end) < 1.0
  {
    Ratio(0.0, end - start);
    Ratio(end - start, end - start);
    Ratio(now - start, end - start);
  }

  lemma {:induction false} Ratio(x: real, d: real)
    requires d > 0.0
    ensures x == 0.0 ==> x / d == 0.0
    ensures x == d ==> x / d == 1.0
    ensures 0.0 < x < d ==> 0.0 < x / d < 1.0
  {
    hide Times;
    var q := x / d;
    RatioTimes(x, d);
    SameSign(q, d);
    SameSign(q - 1.0, d);
    LessOne(q, d);
  }

  lemma {:induction false} RatioTimes(x: real, d: real)
    requires d > 0.0
    ensures Times(x / d, d) == x
  {
  }

  lemma {:induction false} SameSign(q: real, d: real)
    requires d > 0.0
    ensures q > 0.0 <==> Times(q, d) > 0.0
    ensures q < 0.0 <==> Times(q, d) < 0.0
  {
    if q > 0.0 {
      Positive(q, d);
    } else if q < 0.0 {
      Positive(-q, d);
      assert Times(-q, d) == -Times(q, d);
    }
  }

  lemma {:induction false} LessOne(q: real, d: real)
    ensures Times(q - 1.0, d) == Times(q, d) - d
  {
  }

  lemma {:induction false} AlongEnds(from: real, to: real)
    ensures Along(from, to, 0.0) == from && Along(from, to, 1.0) == to
  {
    hide Along, Times;
    AlongIsMix(from, to, 0.0);
    AlongIsMix(from, to, 1.0);
    ByNoughtAndOne(to - from);
  }

  lemma {:induction false} ByNoughtAndOne(d: real)
    ensures Times(d, 0.0) == 0.0 && Times(d, 1.0) == d
  {
  }

  lemma {:induction false} ReachesAll(p: ProgressiveRollout, now: real)
    requires p.initial.percentage <= 100.0 && p.end.percentage <= 100.0
    ensures Reached(p, now) == 100.0 <==> ServesAll(p, now)
  {
    hide Along, Elapsed;
    if p.initial.date.Some? && p.end.date.Some? {
      var start, end := p.initial.date.value, p.end.date.value;
      if start <= now <= end && start < end {
        ElapsedInside(start, now, end);
        AlongEnds(p.initial.percentage, p.end.percentage);
        if start < now < end {
          AlongBelow(p.initial.percentage, p.end.percentage, Elapsed(start, now, end));
        }
      }
    }
  }

  /** A frozen ramp serves the ramp's two variations, whatever the time. With two different ones its shares always total
      one hundred; with one, and percentages up to one hundred, exactly when the ramp serves everybody at that time. */
  lemma {:induction false} FrozenTotals(p: ProgressiveRollout, now: real)
    ensures var frozen, a, b := FrozenOutcome(p, now), p.initial.variation, p.end.variation;
            && frozen.percentage.Keys == {a, b}
            && Share(frozen.percentage, b) == Reached(p, now)
            && (a != b ==> SharesOf(frozen.percentage, a, b, 100.0))
            && (p.initial.percentage <= 100.0 && p.end.percentage <= 100.0 ==>
                  (SharesOf(frozen.percentage, a, b, 100.0) <==> a != b || ServesAll(p, now)))
  {
    hide Reached, ServesAll;
    if p.initial.percentage <= 100.0 && p.end.percentage <= 100.0 {
      ReachesAll(p, now);
    }
    var frozen := FrozenOutcome(p, now);
    assert frozen.percentage.Keys == {p.initial.variation, p.end.variation};
  }

  lemma {:induction false} FrozenNames(p: ProgressiveRollout, now: real)
    ensures FrozenOutcome(p, now).percentage.Keys == {p.initial.variation, p.end.variation}
  {
    hide Reached;
  }

  /** A ramp of one variation from nothing to everybody, half way: its only share is fifty. */
  lemma {:induction false} OneVariationFallsShort() returns (p: ProgressiveRollout)
    ensures p.initial.variation == p.end.variation
    ensures FrozenOutcome(p, 1.0).percentage == map[p.end.variation := 50.0]
    ensures !SharesOf(FrozenOutcome(p, 1.0).percentage, p.initial.variation, p.end.variation, 100.0)
  {
    p := ProgressiveRollout(RolloutStep("on", 0.0, Some(0.0)), RolloutStep("on", 100.0, Some(2.0)));
    assert Elapsed(0.0, 1.0, 2.0) == 0.5;
    assert Along(0.0, 100.0, 0.5) == 50.0;
  }

  // ---------------------------------------------------------------- promoting

  /** The source's own keys, and the target's for those that describe the target. */
  function MergedMetadata(source: map<string, Value>, target: map<string, Value>): map<string, Value> {
    Stripped(source) + map k | k in target && k in STUDIO_METADATA :: target[k]
  }

  /** Copies the entries that are the studio's own, or those that are not. */
  method CopyEntries(from: map<string, Value>, own: bool) returns (out: map<string, Value>)
    ensures out == map k | k in from && (k in STUDIO_METADATA) == own :: from[k]
  {
    out := map[];
    var left := from.Keys;
    while left != {}
      invariant left <= from.Keys
      invariant forall k :: k in out <==> k in from && k !in left && (k in STUDIO_METADATA) == own
      invariant forall k | k in out :: k in from && out[k] == from[k]
      decreases left
    {
      var k :| k in left;
      left := left - {k};
      if (k in STUDIO_METADATA) == own {
        out := out[k := from[k]];
      }
    }
  }

  /** `mergedMetadata`. */
  method MergeMetadata(source: map<string, Value>, target: map<string, Value>) returns (out: map<string, Value>)
    ensures out == MergedMetadata(source, target)
  {
    var copied := CopyEntries(source, false);
    var kept := CopyEntries(target, true);
    assert copied == Stripped(source);
    assert kept == map k | k in target && k in STUDIO_METADATA :: target[k];
    return copied + kept;
  }

  /** `promoteMutator`. */
  function Promoted(source: Flag, fields: set<Field>, now: real, target: Flag): Flag {
    target.(
      variations := if Variations in fields then source.variations else target.variations,
      default := if Default in fields then source.default else target.default,
      rules := if Rules in fields then FrozenRules(source.rules, now) else target.rules,
      experimentation := if Experiment in fields then source.experimentation else target.experimentation,
      bucketingKey := if BucketingKey in fields then source.bucketingKey else target.bucketingKey,
      metadata := if Metadata in fields then MergedMetadata(source.metadata, target.metadata) else target.metadata,
      enabled := if Enabled in fields then source.enabled else target.enabled)
  }

  /** A flag in memory, which the mutator changes field by field. */
  class Draft {
    var flag: Flag

    constructor (flag: Flag)
      ensures this.flag == flag
    {
      this.flag := flag;
    }

    /** The mutator itself. */
    method Promote(source: Flag, fields: set<Field>, now: real)
      modifies this
      ensures flag == Promoted(source, fields, now, old(flag))
    {
      if Variations in fields {
        flag := flag.(variations := source.variations);
      }
      if Default in fields {
        flag := flag.(default := source.default);
      }
      if Rules in fields {
        var rules := FreezeRules(source.rules, now);
        flag := flag.(rules := rules);
      }
      if Experiment in fields {
        flag := flag.(experimentation := source.experimentation);
      }
      if BucketingKey in fields {
        flag := flag.(bucketingKey := source.bucketingKey);
      }
      if Metadata in fields {
        var metadata := MergeMetadata(source.metadata, flag.metadata);
        flag := flag.(metadata := metadata);
      }
      if Enabled in fields {
        flag := flag.(enabled := source.enabled);
      }
    }
  }

  lemma {:induction false} MergedStrips(source: map<string, Value>, target: map<string, Value>)
    ensures Stripped(MergedMetadata(source, target)) == Stripped(source)
    ensures forall k | k in STUDIO_METADATA :: Lookup(MergedMetadata(source, target), k) == Lookup(target, k)
    ensures MergedMetadata(source, MergedMetadata(source, target)) == MergedMetadata(source, target)
  {
  }

  /** Promoted metadata has every key of the source but the studio's own three, which are the target's. */
  lemma {:induction false} MergedExactly(source: map<string, Value>, target: map<string, Value>, key: string)
    ensures Lookup(MergedMetadata(source, target), key) ==
            if key == "team" || key == "createdAt" || key == "updatedAt" then Lookup(target, key)
            else Lookup(source, key)
  {
  }

  /** A promotion in memory leaves the key and every field that is not selected as they are in the target. */
  lemma {:induction false} UnselectedStay(source: Flag, fields: set<Field>, now: real, target: Flag)
    ensures var after := Promoted(source, fields, now, target);
            && after.key == target.key
            && (Enabled !in fields ==> after.enabled == target.enabled)
            && (Variations !in fields ==> after.variations == target.variations)
            && (Default !in fields ==> after.default == target.default)
            && (Rules !in fields ==> after.rules == target.rules)
            && (Experiment !in fields ==> after.experimentation == target.experimentation)
            && (BucketingKey !in fields ==> after.bucketingKey == target.bucketingKey)
            && (Metadata !in fields ==> after.metadata == target.metadata)
  {
    hide MergedMetadata, FrozenRules;
  }

  /** Promoted rules are the source's, one by one, but for ramps, which become the shares they have reached. */
  lemma {:induction false} PromotedRulesAre(source: Flag, fields: set<Field>, now: real, target: Flag, i: nat)
    requires Rules in fields && i < |source.rules|
    ensures var after, was := Promoted(source, fields, now, target).rules, source.rules[i];
            && |after| == |source.rules|
            && after[i].name == was.name && after[i].query == was.query && after[i].disabled == was.disabled
            && after[i].progressive == None
            && (was.progressive.None? ==> after[i].outcome == was.outcome)
            && (was.progressive.Some? ==>
                  && after[i].outcome.variation == ""
                  && Share(after[i].outcome.percentage, was.progressive.value.end.variation)
                     == Reached(was.progressive.value, now))
  {
    hide MergedMetadata, Reached;
  }

  /** In memory, promoting twice is promoting both selections at once; so the order does not matter, and the mutator
      applied again changes nothing more. What saving twice does is told by `PromotedDrift.SavedAgain`. */
  lemma {:induction false} PromotingTwice(source: Flag, first: set<Field>, second: set<Field>, now: real, target: Flag)
    ensures Promoted(source, second, now, Promoted(source, first, now, target)) ==
            Promoted(source, first + second, now, target)
  {
    MergedStrips(source.metadata, target.metadata);
  }

  lemma {:induction false} FrozenIsSame(rules: seq<Rule>, now: real)
    ensures FrozenRules(rules, now) == rules <==> !HasRamp(rules)
  {
    hide FrozenOutcome;
    var frozen := FrozenRules(rules, now);
    if HasRamp(rules) {
      var i :| 0 <= i < |rules| && rules[i].progressive.Some?;
      assert frozen[i].progressive.None?;
    } else {
      forall i | 0 <= i < |rules|
        ensures frozen[i] == rules[i]
      {
      }
    }
  }

  /** No two variations of one name with different values. */
  predicate Unambiguous(variations: seq<Variation>) {
    forall i, j | 0 <= i < j < |variations| && variations[i].name == variations[j].name ::
      variations[i].value == variations[j].value
  }

  lemma {:induction false} NamedValueIs(variations: seq<Variation>, name: string)
    ensures match NamedValue(variations, name)
            case None => forall i | 0 <= i < |variations| :: variations[i].name != name
            case Some(v) => exists i | 0 <= i < |variations| ::
              && variations[i] == Variation(name, v)
              && forall j | i < j < |variations| :: variations[j].name != name
  {
    if variations != [] {
      var last, front := variations[|variations| - 1], variations[..|variations| - 1];
      if last.name == name {
        assert variations[|variations| - 1] == Variation(name, last.value);
      } else {
        NamedValueIs(front, name);
        match NamedValue(front, name) {
          case None =>
          case Some(v) =>
            var i :| 0 <= i < |front| && front[i] == Variation(name, v)
                     && forall j | i < j < |front| :: front[j].name != name;
            assert variations[i] == Variation(name, v);
            forall j | i < j < |variations|
              ensures variations[j].name != name
            {
              assert j < |front| ==> variations[j] == front[j];
            }
        }
      }
    }
  }

  /** A flag's variations count as the same as themselves exactly when no name has two values. */
  lemma {:induction false} SameAsThemselves(variations: seq<Variation>)
    ensures SameVariations(variations, variations) <==> Unambiguous(variations)
  {
    hide NamedValue;
    forall i | 0 <= i < |variations|
      ensures NamedValue(variations, variations[i].name).Some?
      ensures Unambiguous(variations) ==> NamedValue(variations, variations[i].name) == Some(variations[i].value)
    {
      NamedValueIs(variations, variations[i].name);
    }
    if SameVariations(variations, variations) {
      forall i, j | 0 <= i < j < |variations| && variations[i].name == variations[j].name
        ensures variations[i].value == variations[j].value
      {
        assert NamedValue(variations, variations[i].name) == Some(variations[i].value);
        assert NamedValue(variations, variations[j].name) == Some(variations[j].value);
      }
    }
  }

  /** What the mutator does to the drift, before anything is written: the promoted fields are gone, except the rules
      when the source has a ramp, which cannot be copied, and variations of a name that has two values; every other
      field differs exactly if it did before. */
  lemma {:induction false} MutatorClearsDrift(source: Flag, fields: set<Field>, now: real, target: Flag)
    ensures var after := Promoted(source, fields, now, target);
            forall f :: f in Drift(source, after) <==>
              if f !in fields then f in Drift(source, target)
              else (f == Rules && HasRamp(source.rules)) || (f == Variations && !Unambiguous(source.variations))
  {
    hide Stripped, MergedMetadata, FrozenRules, SameVariations, Unambiguous, HasRamp;
    MergedStrips(source.metadata, target.metadata);
    FrozenIsSame(source.rules, now);
    SameAsThemselves(source.variations);
  }

  // ---------------------------------------------------------------- variations the target must have

  /** `outcomeVariations`. */
  function Serves(o: Outcome): set<string> {
    if o.percentage != map[] then o.percentage.Keys
    else if o.variation != "" then {o.variation}
    else {}
  }

  /** What a rule can serve, now or later. */
  function RuleServes(r: Rule): set<string> {
    match r.progressive
    case Some(p) => {p.initial.variation, p.end.variation}
    case None => Serves(r.outcome)
  }

  function Names(variations: seq<Variation>): set<string> {
    set i | 0 <= i < |variations| :: variations[i].name
  }

  predicate RulesServeOnly(rules: seq<Rule>, names: set<string>) {
    forall i | 0 <= i < |rules| :: RuleServes(rules[i]) <= names
  }

  /** Every variation a flag can serve is one it has. */
  predicate Closed(f: Flag) {
    RulesServeOnly(f.rules, Names(f.variations)) && Serves(f.default) <= Names(f.variations)
  }

  /** `checkPromotable` accepts. */
  predicate Promotable(source: Flag, target: Flag, fields: set<Field>, now: real) {
    var names := Names(target.variations);
    || Variations in fields
    || ( && (Rules in fields ==>
               forall i | 0 <= i < |source.rules| :: Serves(FrozenRules(source.rules, now)[i].outcome) <= names)
         && (Default in fields ==> Serves(source.default) <= names))
  }

  /** `checkPromotable`. */
  method CheckPromotable(source: Flag, target: Flag, fields: set<Field>, now: real) returns (missing: set<string>)
    ensures missing == {} <==> Promotable(source, target, fields, now)
    ensures missing !! Names(target.variations)
  {
    hide Serves;
    if Variations in fields || (Rules !in fields && Default !in fields) {
      return {};
    }
    var available: set<string> := {};
    var i := 0;
    while i < |target.variations|
      invariant 0 <= i <= |target.variations|
      invariant available == set k | 0 <= k < i :: target.variations[k].name
    {
      available := available + {target.variations[i].name};
      i := i + 1;
    }
    var promoted: seq<Outcome> := [];
    if Rules in fields {
      var rules := FreezeRules(source.rules, now);
      promoted := seq(|rules|, k requires 0 <= k < |rules| => rules[k].outcome);
    }
    ghost var ruled := |promoted|;
    if Default in fields {
      promoted := promoted + [source.default];
    }
    missing := {};
    i := 0;
    while i < |promoted|
      invariant 0 <= i <= |promoted|
      invariant missing == {} <==> forall k | 0 <= k < i :: Serves(promoted[k]) <= available
      invariant missing !! available
    {
      missing := missing + (Serves(promoted[i]) - available);
      i := i + 1;
    }
    assert available == Names(target.variations);
    assert Default in fields ==> promoted[ruled] == source.default;
    if missing == {} && Rules in fields {
      forall k | 0 <= k < |source.rules|
        ensures Serves(FrozenRules(source.rules, now)[k].outcome) <= available
      {
        assert promoted[k] == FrozenRules(source.rules, now)[k].outcome;
      }
    }
    if Promotable(source, target, fields, now) {
      forall k | 0 <= k < |promoted|
        ensures Serves(promoted[k]) <= available
      {
        assert k < ruled ==> promoted[k] == FrozenRules(source.rules, now)[k].outcome;
      }
    }
  }

  lemma {:induction false} FreezingServes(r: Rule, now: real)
    ensures Serves(FrozenRule(r, now).outcome) == RuleServes(r) == RuleServes(FrozenRule(r, now))
  {
    if r.progressive.Some? {
      FrozenNames(r.progressive.value, now);
      assert r.progressive.value.end.variation in FrozenOutcome(r.progressive.value, now).percentage;
    }
  }

  /** The check does not depend on the time, so it still holds when the copy is made later; and it asks exactly that
      the target has what the promoted settings can serve. */
  lemma {:induction false} PromotableAnyTime(source: Flag, target: Flag, fields: set<Field>, now: real)
    ensures Promotable(source, target, fields, now) <==>
            || Variations in fields
            || ( && (Rules in fields ==> RulesServeOnly(source.rules, Names(target.variations)))
                 && (Default in fields ==> Serves(source.default) <= Names(target.variations)))
  {
    hide Serves, Names, RuleServes, FrozenRule;
    forall i | 0 <= i < |source.rules|
      ensures Serves(FrozenRules(source.rules, now)[i].outcome) == RuleServes(source.rules[i])
    {
      FreezingServes(source.rules[i], now);
    }
  }

  lemma {:induction false} FrozenServeOnly(rules: seq<Rule>, now: real, names: set<string>)
    ensures RulesServeOnly(FrozenRules(rules, now), names) <==> RulesServeOnly(rules, names)
  {
    hide Serves, RuleServes, FrozenRule;
    var frozen := FrozenRules(rules, now);
    forall i | 0 <= i < |rules|
      ensures RuleServes(frozen[i]) == RuleServes(rules[i])
    {
      FreezingServes(rules[i], now);
    }
    if RulesServeOnly(frozen, names) {
      forall i | 0 <= i < |rules|
        ensures RuleServes(rules[i]) <= names
      {
        assert RuleServes(frozen[i]) <= names;
      }
    }
  }

  /** In memory, after a promotion that was checked at an earlier time the target still serves only variations it has,
      exactly if its variations were not replaced under settings of its own that serve others. Of the file
      `PromotedDrift.SavedStaysClosed` tells. */
  lemma {:induction false} PromotionStaysClosed(source: Flag, target: Flag, fields: set<Field>, checked: real,
                                                now: real)
    requires Closed(source) && Closed(target) && Promotable(source, target, fields, checked)
    ensures Closed(Promoted(source, fields, now, target)) <==>
            (Variations in fields ==>
               && (Rules !in fields ==> RulesServeOnly(target.rules, Names(source.variations)))
               && (Default !in fields ==> Serves(target.default) <= Names(source.variations)))
  {
    hide Serves, Names, RulesServeOnly, FrozenRules, MergedMetadata, Promotable;
    PromotableAnyTime(source, target, fields, checked);
    FrozenServeOnly(source.rules, now, Names(source.variations));
    FrozenServeOnly(source.rules, now, Names(target.variations));
  }

  /** Promoting the variations alone can leave a rule serving one that is gone. */
  lemma {:induction false} VariationsAloneCanStrand() returns (source: Flag, target: Flag)
    ensures Closed(source) && Closed(target) && Promotable(source, target, {Variations}, 0.0)
    ensures !Closed(Promoted(source, {Variations}, 0.0, target))
  {
    var on, off := Variation("on", Value("bool", "true")), Variation("off", Value("bool", "false"));
    source := Flag("f", true, [off], [], Outcome("off", map[]), None, "", map[]);
    target := Flag("f", true, [on, off], [], Outcome("on", map[]), None, "", map[]);
    assert target.variations[0].name == "on" && source.variations[0].name == "off";
    assert Names(source.variations) == {"off"};
    assert "on" in Names(target.variations) && "on" !in Names(source.variations);
  }
}
