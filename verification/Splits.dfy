/** Percentage shares that always total one hundred (web/src/lib/split.ts). Numbers are reals here. */
module Splits {
  import opened Collections

  function Sum(xs: seq<real>): real {
    if xs == [] then 0.0 else xs[0] + Sum(xs[1..])
  }

  function Total(xs: seq<int>): int {
    if xs == [] then 0 else xs[0] + Total(xs[1..])
  }

  function Remainder(x: real): (r: real)
    ensures 0.0 <= r < 1.0
  {
    x - x.Floor as real
  }

  /** The exact share of each name: in proportion, or even when there is nothing to go by. */
  function Quota(weights: seq<real>, amount: nat, i: nat): real
    requires i < |weights|
  {
    var sum := Sum(weights);
    if sum > 0.0 then weights[i] / sum * amount as real else amount as real / |weights| as real
  }

  function Quotas(weights: seq<real>, amount: nat): (qs: seq<real>)
    ensures |qs| == |weights|
  {
    seq(|weights|, i requires 0 <= i < |weights| => Quota(weights, amount, i))
  }

  /** First in line for a left-over: the larger remainder, or the earlier name. */
  predicate Before(qs: seq<real>, i: nat, j: nat)
    requires i < |qs| && j < |qs|
  {
    Remainder(qs[i]) > Remainder(qs[j]) || (Remainder(qs[i]) == Remainder(qs[j]) && i < j)
  }

  /** Largest-remainder rounding, without saying how: whole shares that sum to the amount, each its quota rounded down
      or one more, the extra ones going to those first in line. */
  predicate Rounded(qs: seq<real>, amount: int, shares: seq<int>) {
    && |shares| == |qs|
    && Total(shares) == amount
    && (forall i | 0 <= i < |qs| :: shares[i] == qs[i].Floor || shares[i] == qs[i].Floor + 1)
    && (forall i, j | 0 <= i < |qs| && 0 <= j < |qs| && shares[i] > qs[i].Floor && shares[j] == qs[j].Floor ::
          Before(qs, i, j))
  }

  // ---------------------------------------------------------------- sums

  lemma {:induction false} SumScaled(xs: seq<real>, ys: seq<real>, f: real)
    requires |xs| == |ys| && forall i | 0 <= i < |xs| :: ys[i] == xs[i] * f
    ensures Sum(ys) == Sum(xs) * f
  {
    if xs != [] {
      SumScaled(xs[1..], ys[1..], f);
      Distribute(xs[0], Sum(xs[1..]), f);
    }
  }

  lemma {:induction false} Distribute(x: real, y: real, f: real)
    ensures (x + y) * f == x * f + y * f
  {
  }

  lemma {:induction false} SumEven(xs: seq<real>, x: real)
    requires forall i | 0 <= i < |xs| :: xs[i] == x
    ensures Sum(xs) == |xs| as real * x
  {
    if xs != [] {
      SumEven(xs[1..], x);
      Distribute(1.0, |xs[1..]| as real, x);
    }
  }

  lemma {:induction false} Scale(w: real, sum: real, a: real)
    requires sum > 0.0
    ensures w / sum * a == w * (a / sum) && sum * (a / sum) == a
  {
  }

  /** The quotas share out exactly the amount. */
  lemma {:induction false} QuotasSum(weights: seq<real>, amount: nat)
    requires weights != []
    ensures Sum(Quotas(weights, amount)) == amount as real
  {
    var sum, qs, a := Sum(weights), Quotas(weights, amount), amount as real;
    if sum > 0.0 {
      forall i | 0 <= i < |weights|
        ensures qs[i] == weights[i] * (a / sum)
      {
        Scale(weights[i], sum, a);
      }
      SumScaled(weights, qs, a / sum);
      Scale(sum, sum, a);
    } else {
      SumEven(qs, a / |weights| as real);
      Scale(1.0, |weights| as real, a);
    }
  }

  /** Rounding down loses less than one for each name. */
  lemma {:induction false} FloorsSum(qs: seq<real>, floors: seq<int>)
    requires |floors| == |qs| && forall i | 0 <= i < |qs| :: floors[i] == qs[i].Floor
    ensures Total(floors) as real <= Sum(qs)
    ensures qs != [] ==> Sum(qs) < (Total(floors) + |qs|) as real
  {
    if qs != [] {
      FloorsSum(qs[1..], floors[1..]);
    }
  }

  lemma {:induction false} TotalUpdate(xs: seq<int>, i: nat, x: int)
    requires i < |xs|
    ensures Total(xs[i := x]) == Total(xs) - xs[i] + x
  {
    if i == 0 {
      assert xs[0 := x][1..] == xs[1..];
    } else {
      assert xs[i := x][1..] == xs[1..][i - 1 := x];
      TotalUpdate(xs[1..], i - 1, x);
    }
  }

  // ---------------------------------------------------------------- the order of the left-overs

  predicate IsOrder(qs: seq<real>, order: seq<nat>, n: nat)
    requires n <= |qs|
  {
    && |order| == n
    && (forall k | 0 <= k < n :: order[k] < n)
    && (forall k, l | 0 <= k < l < n :: order[k] != order[l])
    && (forall k, l | 0 <= k < l < n :: Before(qs, order[k], order[l]))
  }

  function InsertLast(qs: seq<real>, order: seq<nat>, i: nat): seq<nat>
    requires i < |qs| && forall k | 0 <= k < |order| :: order[k] < |qs|
  {
    if order == [] then [i]
    else if Before(qs, i, order[0]) then [i] + order
    else [order[0]] + InsertLast(qs, order[1..], i)
  }

  lemma {:induction false} InsertedInOrder(qs: seq<real>, order: seq<nat>, i: nat)
    requires i < |qs| && forall k | 0 <= k < |order| :: order[k] < i
    requires forall k, l | 0 <= k < l < |order| :: order[k] != order[l] && Before(qs, order[k], order[l])
    ensures var r := InsertLast(qs, order, i);
            && |r| == |order| + 1
            && (forall k | 0 <= k < |r| :: r[k] <= i && (r[k] == i || r[k] in order))
            && (forall k, l | 0 <= k < l < |r| :: r[k] != r[l] && Before(qs, r[k], r[l]))
  {
    if order != [] && !Before(qs, i, order[0]) {
      InsertedInOrder(qs, order[1..], i);
      var rest := InsertLast(qs, order[1..], i);
      forall l | 0 <= l < |rest|
        ensures order[0] != rest[l] && Before(qs, order[0], rest[l])
      {
      }
    }
  }

  /** The indices by falling remainder; the sort is stable. */
  function ByRemainder(qs: seq<real>, n: nat): (order: seq<nat>)
    requires n <= |qs|
    ensures forall k | 0 <= k < |order| :: order[k] < n
    ensures IsOrder(qs, order, n)
  {
    if n == 0 then []
    else
      InsertedInOrder(qs, ByRemainder(qs, n - 1), n - 1);
      InsertLast(qs, ByRemainder(qs, n - 1), n - 1)
  }

  /** The numbers of `shareOut`. */
  method Shares(weights: seq<real>, amount: nat) returns (out: seq<int>)
    ensures |out| == |weights|
    ensures weights != [] ==> Rounded(Quotas(weights, amount), amount, out)
  {
    hide Quota, Quotas, Sum, Total, ByRemainder, Remainder;
    var raw := Quotas(weights, amount);
    var floors := seq(|raw|, i requires 0 <= i < |raw| => raw[i].Floor);
    out := floors;
    var left := amount - Total(out);
    var order := ByRemainder(raw, |raw|);
    if weights != [] {
      QuotasSum(weights, amount);
      FloorsSum(raw, floors);
      assert 0 <= left < |raw|;
    }
    var k := 0;
    while k < |order| && left > 0
      invariant 0 <= k <= |order| && |out| == |raw|
      invariant left == amount - Total(out)
      invariant weights != [] ==> 0 <= left < |raw| - k
      invariant forall i | 0 <= i < k :: out[order[i]] == raw[order[i]].Floor + 1
      invariant forall i | 0 <= i < |raw| :: out[i] == raw[i].Floor || i in order[..k]
    {
      var i := order[k];
      assert i !in order[..k];
      TotalUpdate(out, i, out[i] + 1);
      out := out[i := out[i] + 1];
      left := left - 1;
      k := k + 1;
      assert order[..k] == order[..k - 1] + [i];
    }
    if weights != [] {
      LeftOversAreFirst(raw, order, k, out);
    }
  }

  function Below(n: nat): (r: set<nat>)
    ensures |r| == n && forall i: nat :: i in r <==> i < n
  {
    if n == 0 then {} else Below(n - 1) + {n - 1}
  }

  /** Distinct numbers below `n`, as many as there are, leave none out. */
  lemma {:induction false} NoneLeftOut(order: seq<nat>, n: nat, j: nat)
    requires |order| == n && j < n && forall k | 0 <= k < n :: order[k] < n
    requires forall k, l | 0 <= k < l < n :: order[k] != order[l]
    ensures exists k | 0 <= k < n :: order[k] == j
  {
    var seen := set k | 0 <= k < n :: order[k];
    ImageSize(order, n);
    if j !in seen {
      SmallerSubset(seen, Below(n) - {j});
    }
  }

  lemma {:induction false} ImageSize(order: seq<nat>, n: nat)
    requires n <= |order| && forall k, l | 0 <= k < l < n :: order[k] != order[l]
    ensures |set k | 0 <= k < n :: order[k]| == n
  {
    var image := set k | 0 <= k < n :: order[k];
    if n == 0 {
      assert image == {};
    } else {
      ImageSize(order, n - 1);
      var before := set k | 0 <= k < n - 1 :: order[k];
      assert image == before + {order[n - 1]};
      assert order[n - 1] !in before;
    }
  }

  /** Those that got one more are the first in line. */
  lemma {:induction false} LeftOversAreFirst(qs: seq<real>, order: seq<nat>, given: nat, out: seq<int>)
    requires IsOrder(qs, order, |qs|) && given <= |order| && |out| == |qs|
    requires forall i | 0 <= i < given :: out[order[i]] == qs[order[i]].Floor + 1
    requires forall i | 0 <= i < |qs| :: out[i] == qs[i].Floor || i in order[..given]
    ensures forall i | 0 <= i < |qs| :: out[i] == qs[i].Floor || out[i] == qs[i].Floor + 1
    ensures forall i, j | 0 <= i < |qs| && 0 <= j < |qs| && out[i] > qs[i].Floor && out[j] == qs[j].Floor ::
              Before(qs, i, j)
  {
    hide Before;
    forall i | 0 <= i < |qs|
      ensures out[i] == qs[i].Floor || (out[i] == qs[i].Floor + 1 && exists k | 0 <= k < given :: order[k] == i)
    {
      if out[i] != qs[i].Floor {
        var k :| 0 <= k < given && order[..given][k] == i;
        assert order[k] == i;
      }
    }
    forall i, j | 0 <= i < |qs| && 0 <= j < |qs| && out[i] > qs[i].Floor && out[j] == qs[j].Floor
      ensures Before(qs, i, j)
    {
      var k :| 0 <= k < given && order[k] == i;
      NoneLeftOut(order, |qs|, j);
      var l :| 0 <= l < |qs| && order[l] == j;
      assert l >= given;
    }
  }

  // ---------------------------------------------------------------- what the rounding gives

  lemma {:induction false} TotalDiffers(xs: seq<int>, ys: seq<int>) returns (i: nat)
    requires |xs| == |ys| && Total(xs) <= Total(ys) && xs != ys
    ensures i < |xs| && xs[i] < ys[i]
  {
    if xs[0] < ys[0] {
      i := 0;
    } else {
      if xs[1..] == ys[1..] {
        SameTail(xs, ys);
        assert false;
      }
      i := TotalDiffers(xs[1..], ys[1..]);
      i := i + 1;
    }
  }

  lemma {:induction false} SameTail(xs: seq<int>, ys: seq<int>)
    requires |xs| == |ys| > 0 && xs[0] == ys[0] && xs[1..] == ys[1..]
    ensures xs == ys
  {
    assert xs == [xs[0]] + xs[1..] && ys == [ys[0]] + ys[1..];
  }

  /** Two roundings cannot give one name more and another less. */
  lemma {:induction false} NeverBoth(qs: seq<real>, amount: int, xs: seq<int>, ys: seq<int>, i: nat, j: nat)
    requires Rounded(qs, amount, xs) && Rounded(qs, amount, ys)
    requires i < |qs| && j < |qs| && xs[i] < ys[i]
    ensures xs[j] <= ys[j]
  {
    hide Remainder, Total;
  }

  /** There is only one way to round. */
  lemma {:induction false} RoundedOnlyOneWay(qs: seq<real>, amount: int, xs: seq<int>, ys: seq<int>)
    requires Rounded(qs, amount, xs) && Rounded(qs, amount, ys)
    ensures xs == ys
  {
    if xs != ys {
      var i := TotalDiffers(xs, ys);
      var j := TotalDiffers(ys, xs);
      NeverBoth(qs, amount, xs, ys, i, j);
    }
  }

  /** A strictly larger weight never gets less. */
  lemma {:induction false} LargerWeightNeverLess(weights: seq<real>, amount: nat, shares: seq<int>, i: nat, j: nat)
    requires forall k | 0 <= k < |weights| :: weights[k] >= 0.0
    requires i < |weights| && j < |weights| && weights[i] > weights[j]
    requires Rounded(Quotas(weights, amount), amount, shares)
    ensures shares[i] >= shares[j]
  {
    hide Sum, Total, Rounded;
    SumAtLeast(weights, i);
    if amount == 0 {
      NoneToShare(weights, shares, i, j);
    } else {
      QuotaGrows(weights[i], weights[j], Sum(weights), amount as real);
      LargerQuotaNeverLess(Quotas(weights, amount), amount, shares, i, j);
    }
  }

  lemma {:induction false} LargerQuotaNeverLess(qs: seq<real>, amount: nat, shares: seq<int>, i: nat, j: nat)
    requires i < |qs| && j < |qs| && qs[i] > qs[j] && Rounded(qs, amount, shares)
    ensures shares[i] >= shares[j]
  {
    hide Total;
    assert qs[i].Floor >= qs[j].Floor;
  }

  lemma {:induction false} SumAtLeast(xs: seq<real>, i: nat)
    requires i < |xs| && forall k | 0 <= k < |xs| :: xs[k] >= 0.0
    ensures Sum(xs) >= xs[i] && Sum(xs[1..]) >= 0.0
  {
    SumNonNegative(xs[1..]);
    if i > 0 {
      SumAtLeast(xs[1..], i - 1);
    }
  }

  lemma {:induction false} SumNonNegative(xs: seq<real>)
    requires forall k | 0 <= k < |xs| :: xs[k] >= 0.0
    ensures Sum(xs) >= 0.0
  {
    if xs != [] {
      SumNonNegative(xs[1..]);
    }
  }

  lemma {:induction false} QuotaGrows(x: real, y: real, sum: real, a: real)
    requires x > y && sum > 0.0 && a >= 0.0
    ensures a > 0.0 ==> x / sum * a > y / sum * a
    ensures a == 0.0 ==> x / sum * a == 0.0
  {
    Scale(x, sum, a);
    Scale(y, sum, a);
    if a > 0.0 {
      assert a / sum > 0.0;
    }
  }

  /** Nothing to share out: every share is zero. */
  lemma {:induction false} NoneToShare(weights: seq<real>, shares: seq<int>, i: nat, j: nat)
    requires i < |weights| && j < |weights| && Sum(weights) > 0.0
    requires Rounded(Quotas(weights, 0), 0, shares)
    ensures shares[i] == shares[j] == 0
  {
    var qs := Quotas(weights, 0);
    assert forall k | 0 <= k < |qs| :: qs[k] == 0.0;
    var zeros := seq(|qs|, k requires 0 <= k < |qs| => 0);
    TotalZeros(zeros);
    RoundedOnlyOneWay(qs, 0, zeros, shares);
  }

  lemma {:induction false} TotalZeros(xs: seq<int>)
    requires forall k | 0 <= k < |xs| :: xs[k] == 0
    ensures Total(xs) == 0
  {
    if xs != [] {
      TotalZeros(xs[1..]);
    }
  }

  /** Every share is its quota rounded down or up: a whole quota is never rounded away from. */
  lemma {:induction false} WithinOneOfQuota(weights: seq<real>, amount: nat, shares: seq<int>, i: nat)
    requires i < |weights| && Rounded(Quotas(weights, amount), amount, shares)
    ensures var q := Quotas(weights, amount)[i]; q - 1.0 < shares[i] as real < q + 1.0
  {
    var qs := Quotas(weights, amount);
    QuotasSum(weights, amount);
    if shares[i] > qs[i].Floor && Remainder(qs[i]) == 0.0 {
      forall j | 0 <= j < |qs|
        ensures shares[j] as real >= qs[j]
      {
        if shares[j] == qs[j].Floor {
          assert Before(qs, i, j);
        }
      }
      TotalAbove(qs, shares, i);
    }
  }

  lemma {:induction false} TotalAbove(qs: seq<real>, shares: seq<int>, i: nat)
    requires |shares| == |qs| && forall j | 0 <= j < |qs| :: shares[j] as real >= qs[j]
    ensures Total(shares) as real >= Sum(qs)
    ensures i < |qs| && shares[i] as real > qs[i] ==> Total(shares) as real > Sum(qs)
  {
    if qs != [] {
      TotalAbove(qs[1..], shares[1..], if i == 0 then 0 else i - 1);
    }
  }

  // ---------------------------------------------------------------- splits by name

  /** A JavaScript object; names that read as integers, which it would put first, are not meant. */
  type Split = map<string, real>

  predicate Distinct(names: seq<string>) {
    forall i, j | 0 <= i < j < |names| :: names[i] != names[j]
  }

  predicate HasNames(split: Split, names: seq<string>) {
    split.Keys == set i | 0 <= i < |names| :: names[i]
  }

  function Values(names: seq<string>, split: Split): (xs: seq<real>)
    requires forall i | 0 <= i < |names| :: names[i] in split
    ensures |xs| == |names|
  {
    seq(|names|, i requires 0 <= i < |names| => split[names[i]])
  }

  function Floors(xs: seq<real>): (r: seq<int>)
    ensures |r| == |xs|
  {
    seq(|xs|, i requires 0 <= i < |xs| => xs[i].Floor)
  }

  predicate Whole(xs: seq<real>) {
    forall i | 0 <= i < |xs| :: xs[i] == xs[i].Floor as real
  }

  /** The names have whole shares: the amount, rounded in proportion to the weights. */
  predicate SharedOut(names: seq<string>, weights: seq<real>, amount: nat, split: Split) {
    && |weights| == |names| && HasNames(split, names)
    && var xs := Values(names, split);
    && Whole(xs)
    && (names != [] ==> Rounded(Quotas(weights, amount), amount, Floors(xs)))
  }

  /** `Object.fromEntries`. */
  method FromEntries(names: seq<string>, values: seq<real>) returns (split: Split)
    requires |names| == |values| && Distinct(names)
    ensures HasNames(split, names) && Values(names, split) == values
  {
    split := map[];
    var i := 0;
    while i < |names|
      invariant 0 <= i <= |names|
      invariant split.Keys == set k | 0 <= k < i :: names[k]
      invariant forall k | 0 <= k < i :: split[names[k]] == values[k]
    {
      split := split[names[i] := values[i]];
      i := i + 1;
    }
  }

  /** `shareOut`. */
  method ShareOut(names: seq<string>, weights: seq<real>, amount: nat) returns (split: Split)
    requires |names| == |weights| && Distinct(names)
    ensures SharedOut(names, weights, amount, split)
  {
    hide Rounded, Quotas;
    var out := Shares(weights, amount);
    var whole := seq(|out|, i requires 0 <= i < |out| => out[i] as real);
    split := FromEntries(names, whole);
    assert Floors(whole) == out;
  }

  function Get(split: Split, name: string): real {
    if name in split && split[name] > 0.0 then split[name] else 0.0
  }

  predicate SumsTo100(xs: seq<real>) {
    var d := Sum(xs) - 100.0;
    (if d < 0.0 then -d else d) < 0.000000001
  }

  /** The tolerance is only for fractions: whole shares total exactly one hundred. */
  lemma {:induction false} SumsTo100Exactly(xs: seq<real>)
    ensures SumsTo100(xs) <==> 99.999999999 < Sum(xs) < 100.000000001
    ensures Whole(xs) ==> (SumsTo100(xs) <==> Sum(xs) == 100.0)
  {
    hide Sum;
    if Whole(xs) {
      SumOfWhole(xs);
    }
  }

  /** A split in the form the editor works with. */
  predicate Normal(names: seq<string>, split: Split) {
    && HasNames(split, names)
    && SumsTo100(Values(names, split))
    && forall i | 0 <= i < |names| :: split[names[i]] >= 0.0
  }

  lemma {:induction false} SumOfWhole(xs: seq<real>)
    requires Whole(xs)
    ensures Sum(xs) == Total(Floors(xs)) as real
  {
    if xs != [] {
      assert Floors(xs)[1..] == Floors(xs[1..]);
      SumOfWhole(xs[1..]);
    }
  }

  lemma {:induction false} QuotaNonNegative(weights: seq<real>, amount: nat, i: nat)
    requires i < |weights| && forall k | 0 <= k < |weights| :: weights[k] >= 0.0
    ensures Quota(weights, amount, i) >= 0.0
  {
    var sum, a := Sum(weights), amount as real;
    if sum > 0.0 {
      Scale(weights[i], sum, a);
      assert a / sum >= 0.0;
      assert weights[i] * (a / sum) >= 0.0;
    }
  }

  lemma {:induction false} SharesNonNegative(names: seq<string>, weights: seq<real>, amount: nat, split: Split, i: nat)
    requires SharedOut(names, weights, amount, split) && i < |names|
    requires forall k | 0 <= k < |weights| :: weights[k] >= 0.0
    ensures split[names[i]] >= 0.0
  {
    hide Quota, Total, Sum;
    QuotaNonNegative(weights, amount, i);
    assert Quotas(weights, amount)[i] >= 0.0;
    assert Values(names, split)[i] == split[names[i]];
    assert Floors(Values(names, split))[i] >= Quotas(weights, amount)[i].Floor;
  }

  /** A quota is to the amount as the weight is to all weights; without weights all quotas are the same. */
  lemma {:induction false} QuotasInProportion(weights: seq<real>, amount: nat, i: nat)
    requires i < |weights|
    ensures Sum(weights) > 0.0 ==> Quotas(weights, amount)[i] * Sum(weights) == weights[i] * amount as real
    ensures Sum(weights) <= 0.0 ==> Quotas(weights, amount)[i] * |weights| as real == amount as real
  {
    var sum, a := Sum(weights), amount as real;
    if sum > 0.0 {
      CrossMultiplied(weights[i], sum, a);
    }
  }

  lemma {:induction false} CrossMultiplied(w: real, sum: real, a: real)
    requires sum > 0.0
    ensures w / sum * a * sum == w * a
  {
    var q := w / sum;
    assert q * sum == w;
    assert q * a * sum == q * sum * a;
  }

  /** What the editor shows for a split as it is in the file: its shares, missing and negative ones as nought, if they
      total one hundred; and otherwise shares of one hundred in proportion to them. */
  predicate IsNormalized(names: seq<string>, split: Split, r: Split) {
    && HasNames(r, names)
    && var values := seq(|names|, i requires 0 <= i < |names| => Get(split, names[i]));
       if SumsTo100(values) then Values(names, r) == values else SharedOut(names, values, 100, r)
  }

  /** `normalizeSplit`: a split that already totals one hundred is left alone, any other is rounded in proportion. */
  method NormalizeSplit(names: seq<string>, split: Split) returns (r: Split)
    requires Distinct(names)
    ensures HasNames(r, names)
    ensures names != [] ==> Normal(names, r)
    ensures Normal(names, split) ==> r == split
    ensures IsNormalized(names, split, r)
  {
    hide Rounded, Quotas, Sum, Total;
    var values := seq(|names|, i requires 0 <= i < |names| => Get(split, names[i]));
    r := FromEntries(names, values);
    if Normal(names, split) {
      assert Values(names, split) == values;
      SameSplit(names, split, r);
    }
    assert forall i | 0 <= i < |names| :: Values(names, r)[i] == r[names[i]];
    if SumsTo100(values) {
      return;
    }
    r := ShareOut(names, values, 100);
    forall i | 0 <= i < |names|
      ensures r[names[i]] >= 0.0
    {
      SharesNonNegative(names, values, 100, r, i);
    }
    if names != [] {
      SumOfWhole(Values(names, r));
      TotalOfShares(names, values, 100, r);
    }
  }

  lemma {:induction false} TotalOfShares(names: seq<string>, weights: seq<real>, amount: nat, split: Split)
    requires names != [] && SharedOut(names, weights, amount, split)
    ensures Total(Floors(Values(names, split))) == amount
  {
  }

  lemma {:induction false} SameSplit(names: seq<string>, a: Split, b: Split)
    requires HasNames(a, names) && HasNames(b, names) && Values(names, a) == Values(names, b)
    ensures a == b
  {
    forall n | n in a
      ensures a[n] == b[n]
    {
      var i :| 0 <= i < |names| && names[i] == n;
      assert Values(names, a)[i] == Values(names, b)[i];
    }
  }

  function Others(names: seq<string>, name: string): (r: seq<string>)
    ensures forall i | 0 <= i < |r| :: r[i] in names && r[i] != name
    ensures forall n | n in names && n != name :: n in r
    ensures Distinct(names) ==> Distinct(r)
  {
    if names == [] then []
    else (if names[0] == name then [] else [names[0]]) + Others(names[1..], name)
  }

  /** The nearest whole number within a hundred, halves up. */
  predicate IsNearest(v: int, value: real) {
    if value < 0.0 then v == 0
    else if value > 100.0 then v == 100
    else v as real - 0.5 <= value < v as real + 0.5
  }

  /** `Math.round`, within a hundred. */
  function Clamped(value: real): (v: nat)
    ensures v <= 100 && IsNearest(v, value)
  {
    var r := (value + 0.5).Floor;
    if r < 0 then 0 else if r > 100 then 100 else r
  }

  /** `setShare`: one share is set, the others share out the rest, and whole shares always total one hundred. */
  method SetShare(names: seq<string>, split: Split, name: string, value: real)
    returns (r: Split, ghost v: nat, ghost current: Split)
    requires Distinct(names)
    ensures IsNormalized(names, split, current) && IsNearest(v, value) && v <= 100
    ensures var others := Others(names, name);
            && HasNames(r, others + [name])
            && Whole(Values(others + [name], r))
            && (forall n | n in r :: r[n] >= 0.0)
            && Sum(Values(others + [name], r)) == 100.0
            && name in r && r[name] == (if others == [] then 100 else v) as real
            && (others != [] ==>
                  (forall i | 0 <= i < |others| :: others[i] in current && others[i] in r)
                  && Rounded(Quotas(Values(others, current), 100 - v), 100 - v, Floors(Values(others, r))))
    ensures Normal(names, split) ==> current == split
  {
    hide Rounded, Quotas, Sum, Total, Others, Clamped, SumsTo100, IsNormalized, IsNearest;
    var share, others := Clamped(value), Others(names, name);
    v := share;
    var normal := NormalizeSplit(names, split);
    current := normal;
    var both := others + [name];
    if others == [] {
      var none: Split := map[];
      r := none[name := 100.0];
      WithOne([], name, none, 100.0);
      assert [] + [name] == both && Values([], none) + [100.0] == [100.0];
      SumOne(100.0);
      return;
    }
    assert forall n | n in others :: n in normal;
    var weights := seq(|others|, i requires 0 <= i < |others| => normal[others[i]]);
    forall i | 0 <= i < |weights|
      ensures weights[i] >= 0.0
    {
      assert others[i] in names;
      var k :| 0 <= k < |names| && names[k] == others[i];
    }
    var rest := ShareOut(others, weights, 100 - share);
    r := rest[name := share as real];
    WithTheRest(others, weights, share, rest, name);
    assert weights == Values(others, normal);
    SharedAs(others, weights, 100 - share, rest);
  }

  /** One share set to `v`, and the rest shared out. */
  lemma {:induction false} WithTheRest(others: seq<string>, weights: seq<real>, v: nat, rest: Split, name: string)
    requires others != [] && name !in others && v <= 100 && SharedOut(others, weights, 100 - v, rest)
    requires forall i | 0 <= i < |weights| :: weights[i] >= 0.0
    ensures var r, all := rest[name := v as real], others + [name];
            && HasNames(r, all) && Whole(Values(all, r)) && Sum(Values(all, r)) == 100.0
            && (forall n | n in r :: r[n] >= 0.0)
            && Values(others, r) == Values(others, rest)
  {
    hide Rounded, Quotas, Sum, Total;
    forall i | 0 <= i < |others|
      ensures rest[others[i]] >= 0.0
    {
      SharesNonNegative(others, weights, 100 - v, rest, i);
    }
    WithOne(others, name, rest, v as real);
    SumOfWhole(Values(others, rest));
    TotalOfShares(others, weights, 100 - v, rest);
    SumLast(Values(others, rest), v as real);
  }

  lemma {:induction false} SharedAs(names: seq<string>, weights: seq<real>, amount: nat, split: Split)
    requires names != [] && SharedOut(names, weights, amount, split)
    ensures Rounded(Quotas(weights, amount), amount, Floors(Values(names, split)))
  {
  }

  lemma {:induction false} SumOne(x: real)
    ensures Sum([x]) == x
  {
    assert [x][1..] == [];
  }

  lemma {:induction false} SumLast(xs: seq<real>, x: real)
    ensures Sum(xs + [x]) == Sum(xs) + x
  {
    if xs == [] {
      assert [] + [x] == [x];
      SumOne(x);
    } else {
      assert (xs + [x])[1..] == xs[1..] + [x];
      SumLast(xs[1..], x);
    }
  }

  lemma {:induction false} WithOne(names: seq<string>, name: string, split: Split, x: real)
    requires HasNames(split, names) && name !in names
    ensures var r := split[name := x];
            HasNames(r, names + [name]) && Values(names + [name], r) == Values(names, split) + [x]
  {
    var r, both := split[name := x], names + [name];
    assert forall i | 0 <= i < |names| :: both[i] == names[i];
    assert both[|names|] == name;
    assert forall n | n in r :: n == name || exists i | 0 <= i < |names| :: names[i] == n;
  }
}
