/** The line diff shown before a change is saved (internal/server/diff.go). */
module Diff {
  import opened Collections
  import opened Options
  import opened Strings

  /** A line that stays, goes or comes. */
  datatype Op = Keep(text: string) | Drop(text: string) | Add(text: string)

  // ---------------------------------------------------------------- scripts

  function OldText(ops: seq<Op>): seq<string> {
    if ops == [] then []
    else (if ops[0].Add? then [] else [ops[0].text]) + OldText(ops[1..])
  }

  function NewText(ops: seq<Op>): seq<string> {
    if ops == [] then []
    else (if ops[0].Drop? then [] else [ops[0].text]) + NewText(ops[1..])
  }

  function Kept(ops: seq<Op>): nat {
    if ops == [] then 0 else (if ops[0].Keep? then 1 else 0) + Kept(ops[1..])
  }

  /** Lines that go or come. */
  function Changes(ops: seq<Op>): nat {
    if ops == [] then 0 else (if ops[0].Keep? then 0 else 1) + Changes(ops[1..])
  }

  predicate IsScript(ops: seq<Op>, a: seq<string>, b: seq<string>) {
    OldText(ops) == a && NewText(ops) == b
  }

  lemma {:induction false} LastOp(ops: seq<Op>, op: Op)
    ensures OldText(ops + [op]) == OldText(ops) + if op.Add? then [] else [op.text]
    ensures NewText(ops + [op]) == NewText(ops) + if op.Drop? then [] else [op.text]
    ensures Kept(ops + [op]) == Kept(ops) + if op.Keep? then 1 else 0
  {
    if ops == [] {
      assert ops + [op] == [op] && [op][1..] == [];
    } else {
      assert (ops + [op])[0] == ops[0] && (ops + [op])[1..] == ops[1..] + [op];
      LastOp(ops[1..], op);
    }
  }

  /** The size of a script is what it keeps and what it changes. */
  lemma {:induction false} ScriptSize(ops: seq<Op>)
    ensures Changes(ops) + 2 * Kept(ops) == |OldText(ops)| + |NewText(ops)|
  {
    if ops != [] {
      ScriptSize(ops[1..]);
    }
  }

  // ---------------------------------------------------------------- the table

  /** What the table holds for the first `i` lines of `a` and the first `j` lines of `b`. */
  function Common(a: seq<string>, b: seq<string>, i: nat, j: nat): nat
    requires i <= |a| && j <= |b|
    decreases i + j
  {
    if i == 0 || j == 0 then 0
    else if a[i - 1] == b[j - 1] then Common(a, b, i - 1, j - 1) + 1
    else if Common(a, b, i - 1, j) >= Common(a, b, i, j - 1) then Common(a, b, i - 1, j)
    else Common(a, b, i, j - 1)
  }

  lemma {:induction false} CommonStep(a: seq<string>, b: seq<string>, i: nat, j: nat)
    requires i <= |a| && j <= |b|
    ensures i == 0 || j == 0 ==> Common(a, b, i, j) == 0
    ensures i > 0 && j > 0 ==>
              Common(a, b, i, j) ==
              if a[i - 1] == b[j - 1] then Common(a, b, i - 1, j - 1) + 1
              else if Common(a, b, i - 1, j) >= Common(a, b, i, j - 1) then Common(a, b, i - 1, j)
              else Common(a, b, i, j - 1)
  {
  }

  /** One more line adds nothing or one. */
  lemma {:induction false} CommonGrows(a: seq<string>, b: seq<string>, i: nat, j: nat)
    requires i <= |a| && j <= |b|
    ensures i > 0 ==> Common(a, b, i - 1, j) <= Common(a, b, i, j) <= Common(a, b, i - 1, j) + 1
    ensures j > 0 ==> Common(a, b, i, j - 1) <= Common(a, b, i, j) <= Common(a, b, i, j - 1) + 1
    decreases i + j
  {
    if i > 0 && j > 0 {
      CommonGrows(a, b, i - 1, j);
      CommonGrows(a, b, i, j - 1);
      CommonGrows(a, b, i - 1, j - 1);
    }
  }

  /** `longestCommon`. */
  method LongestCommon(a: seq<string>, b: seq<string>) returns (table: array2<nat>)
    ensures fresh(table) && table.Length0 == |a| + 1 && table.Length1 == |b| + 1
    ensures forall i, j | 0 <= i <= |a| && 0 <= j <= |b| :: table[i, j] == Common(a, b, i, j)
  {
    hide Common;
    table := new nat[|a| + 1, |b| + 1]((i, j) => 0);
    forall l | 0 <= l <= |b|
      ensures Common(a, b, 0, l) == 0
    {
      CommonStep(a, b, 0, l);
    }
    var i := 1;
    while i <= |a|
      invariant 1 <= i <= |a| + 1
      invariant forall k | 0 <= k <= |a| :: table[k, 0] == 0
      invariant forall k, l | 0 <= k < i && 0 <= l <= |b| :: table[k, l] == Common(a, b, k, l)
    {
      var j := 1;
      CommonStep(a, b, i, 0);
      while j <= |b|
        invariant 1 <= j <= |b| + 1
        invariant forall k | 0 <= k <= |a| :: table[k, 0] == 0
        invariant forall k, l | 0 <= k < i && 0 <= l <= |b| :: table[k, l] == Common(a, b, k, l)
        invariant forall l | 0 <= l < j :: table[i, l] == Common(a, b, i, l)
      {
        CommonStep(a, b, i, j);
        if a[i - 1] == b[j - 1] {
          table[i, j] := table[i - 1, j - 1] + 1;
        } else if table[i - 1, j] >= table[i, j - 1] {
          table[i, j] := table[i - 1, j];
        } else {
          table[i, j] := table[i, j - 1];
        }
        j := j + 1;
      }
      i := i + 1;
    }
  }

  // ---------------------------------------------------------------- the script

  /** `backtrack`, read off the numbers the table holds. */
  function Script(a: seq<string>, b: seq<string>, i: nat, j: nat): seq<Op>
    requires i <= |a| && j <= |b|
    decreases i + j
  {
    if i > 0 && j > 0 && a[i - 1] == b[j - 1] then Script(a, b, i - 1, j - 1) + [Keep(a[i - 1])]
    else if j > 0 && (i == 0 || Common(a, b, i, j - 1) >= Common(a, b, i - 1, j)) then
      Script(a, b, i, j - 1) + [Add(b[j - 1])]
    else if i > 0 then Script(a, b, i - 1, j) + [Drop(a[i - 1])]
    else []
  }

  method Backtrack(table: array2<nat>, a: seq<string>, b: seq<string>, i: nat, j: nat) returns (ops: seq<Op>)
    requires i <= |a| && j <= |b| && table.Length0 == |a| + 1 && table.Length1 == |b| + 1
    requires forall k, l | 0 <= k <= |a| && 0 <= l <= |b| :: table[k, l] == Common(a, b, k, l)
    ensures ops == Script(a, b, i, j)
    decreases i + j
  {
    hide Common;
    if i > 0 && j > 0 && a[i - 1] == b[j - 1] {
      ops := Backtrack(table, a, b, i - 1, j - 1);
      return ops + [Keep(a[i - 1])];
    }
    if j > 0 && (i == 0 || table[i, j - 1] >= table[i - 1, j]) {
      ops := Backtrack(table, a, b, i, j - 1);
      return ops + [Add(b[j - 1])];
    }
    if i > 0 && (j == 0 || table[i, j - 1] < table[i - 1, j]) {
      ops := Backtrack(table, a, b, i - 1, j);
      return ops + [Drop(a[i - 1])];
    }
    return [];
  }

  lemma {:induction false} NoText()
    ensures OldText([]) == [] && NewText([]) == [] && Kept([]) == 0
  {
  }

  /** The script takes the old text to the new one and keeps as many lines as the table says. */
  lemma {:induction false} ScriptIsRight(a: seq<string>, b: seq<string>, i: nat, j: nat)
    requires i <= |a| && j <= |b|
    ensures IsScript(Script(a, b, i, j), a[..i], b[..j])
    ensures Kept(Script(a, b, i, j)) == Common(a, b, i, j)
    decreases i + j
  {
    hide Common, OldText, NewText, Kept;
    CommonStep(a, b, i, j);
    CommonStep(a, b, i, 0);
    CommonStep(a, b, 0, j);
    NoText();
    if i > 0 && j > 0 && a[i - 1] == b[j - 1] {
      ScriptIsRight(a, b, i - 1, j - 1);
      LastOp(Script(a, b, i - 1, j - 1), Keep(a[i - 1]));
      assert a[..i] == a[..i - 1] + [a[i - 1]] && b[..j] == b[..j - 1] + [b[j - 1]];
    } else if j > 0 && (i == 0 || Common(a, b, i, j - 1) >= Common(a, b, i - 1, j)) {
      ScriptIsRight(a, b, i, j - 1);
      LastOp(Script(a, b, i, j - 1), Add(b[j - 1]));
      assert b[..j] == b[..j - 1] + [b[j - 1]];
      CommonStep(a, b, 0, j - 1);
      assert OldText(Script(a, b, i, j - 1)) + [] == a[..i];
    } else if i > 0 {
      ScriptIsRight(a, b, i - 1, j);
      LastOp(Script(a, b, i - 1, j), Drop(a[i - 1]));
      assert a[..i] == a[..i - 1] + [a[i - 1]];
      CommonStep(a, b, i - 1, 0);
      assert NewText(Script(a, b, i - 1, j)) + [] == b[..j];
    }
  }

  /** No script keeps more lines than the table says. */
  lemma {:induction false} NoScriptKeepsMore(a: seq<string>, b: seq<string>, i: nat, j: nat, ops: seq<Op>)
    requires i <= |a| && j <= |b| && IsScript(ops, a[..i], b[..j])
    ensures Kept(ops) <= Common(a, b, i, j)
    decreases |ops|
  {
    if ops != [] {
      var front, op := ops[..|ops| - 1], ops[|ops| - 1];
      assert ops == front + [op];
      LastOp(front, op);
      CommonGrows(a, b, i, j);
      match op {
        case Keep(text) =>
          LastLine(a, i, OldText(front), text);
          LastLine(b, j, NewText(front), text);
          NoScriptKeepsMore(a, b, i - 1, j - 1, front);
        case Drop(text) =>
          LastLine(a, i, OldText(front), text);
          NoScriptKeepsMore(a, b, i - 1, j, front);
        case Add(text) =>
          LastLine(b, j, NewText(front), text);
          NoScriptKeepsMore(a, b, i, j - 1, front);
      }
    }
  }

  lemma {:induction false} LastLine(a: seq<string>, i: nat, front: seq<string>, text: string)
    requires i <= |a| && a[..i] == front + [text]
    ensures i > 0 && a[i - 1] == text && a[..i - 1] == front
  {
    assert |a[..i]| == |front| + 1;
    assert a[..i][i - 1] == text;
    assert a[..i][..i - 1] == front;
  }

  /** The diff is right and as small as any: it drops and adds what it must, and no other script that takes the old
      text to the new one changes fewer lines or keeps more. */
  lemma {:induction false} DiffIsMinimal(a: seq<string>, b: seq<string>)
    ensures var ops := Script(a, b, |a|, |b|);
            && IsScript(ops, a, b)
            && forall other | IsScript(other, a, b) :: Changes(ops) <= Changes(other) && Kept(other) <= Kept(ops)
  {
    var ops := Script(a, b, |a|, |b|);
    assert a[..|a|] == a && b[..|b|] == b;
    ScriptIsRight(a, b, |a|, |b|);
    ScriptSize(ops);
    forall other | IsScript(other, a, b)
      ensures Changes(ops) <= Changes(other) && Kept(other) <= Kept(ops)
    {
      NoScriptKeepsMore(a, b, |a|, |b|, other);
      ScriptSize(other);
    }
  }

  // ---------------------------------------------------------------- what is shown

  /** A shown line, or a count of unchanged lines left out. */
  datatype Shown = Hidden(count: nat) | Line(op: Op)

  function Digits(n: nat): string {
    var last := [('0' as int + n % 10) as char];
    if n < 10 then last else Digits(n / 10) + last
  }

  function ShownText(s: Shown): string {
    match s
    case Hidden(count) => "@@ " + Digits(count) + " unchanged lines @@"
    case Line(Keep(text)) => " " + text
    case Line(Drop(text)) => "-" + text
    case Line(Add(text)) => "+" + text
  }

  function ShownTexts(shown: seq<Shown>): seq<string> {
    seq(|shown|, i requires 0 <= i < |shown| => ShownText(shown[i]))
  }

  function Max(x: int, y: int): int {
    if x > y then x else y
  }

  function Min(x: int, y: int): int {
    if x < y then x else y
  }

  /** Within `context` lines of a change. */
  predicate Near(ops: seq<Op>, context: nat, i: nat) {
    exists j | Max(0, i - context) <= j < Min(|ops|, i + context + 1) :: !ops[j].Keep?
  }

  /** The lines from the `i`th on, after `pending` lines that were left out. */
  function Hunks(ops: seq<Op>, context: nat, i: nat, pending: nat): seq<Shown>
    requires i <= |ops|
    decreases |ops| - i
  {
    if i == |ops| then []
    else if ops[i].Keep? && !Near(ops, context, i) then Hunks(ops, context, i + 1, pending + 1)
    else (if pending > 0 then [Hidden(pending)] else []) + [Line(ops[i])] + Hunks(ops, context, i + 1, 0)
  }

  function TrimNewlines(s: string): string {
    if s != "" && s[|s| - 1] == '\n' then TrimNewlines(s[..|s| - 1]) else s
  }

  function Lines(s: string): seq<string> {
    Split(TrimNewlines(s), '\n')
  }

  function ShownDiff(before: string, after: string, context: int): seq<Shown> {
    var a, b := Lines(before), Lines(after);
    Hunks(Script(a, b, |a|, |b|), if context <= 0 then 3 else context, 0, 0)
  }

  lemma {:induction false} SameTextShowsNothing(a: seq<string>, i: nat)
    requires i <= |a|
    ensures forall k | 0 <= k < |Script(a, a, i, i)| :: Script(a, a, i, i)[k].Keep?
  {
    if i > 0 {
      SameTextShowsNothing(a, i - 1);
    }
  }

  lemma {:induction false} NoChangesNoHunks(ops: seq<Op>, context: nat, i: nat, pending: nat)
    requires i <= |ops| && forall k | 0 <= k < |ops| :: ops[k].Keep?
    ensures Hunks(ops, context, i, pending) == []
    decreases |ops| - i
  {
    if i < |ops| {
      NoChangesNoHunks(ops, context, i + 1, pending + 1);
    }
  }

  lemma {:induction false} HunksStep(ops: seq<Op>, context: nat, i: nat, pending: nat)
    requires i <= |ops|
    ensures Hunks(ops, context, i, pending) ==
            if i == |ops| then []
            else if ops[i].Keep? && !Near(ops, context, i) then Hunks(ops, context, i + 1, pending + 1)
            else (if pending > 0 then [Hidden(pending)] else []) + ([Line(ops[i])] + Hunks(ops, context, i + 1, 0))
  {
    hide Near;
    if i < |ops| {
      Concat3(if pending > 0 then [Hidden(pending)] else [], [Line(ops[i])], Hunks(ops, context, i + 1, 0));
    }
  }

  lemma {:induction false} ShownOneMore(shown: seq<Shown>, s: Shown)
    ensures ShownTexts(shown + [s]) == ShownTexts(shown) + [ShownText(s)]
  {
  }

  lemma {:induction false} EqualTextsNoHunks(text: string, context: nat)
    ensures var a := Lines(text); Hunks(Script(a, a, |a|, |a|), context, 0, 0) == []
  {
    var a := Lines(text);
    SameTextShowsNothing(a, |a|);
    NoChangesNoHunks(Script(a, a, |a|, |a|), context, 0, 0);
  }

  lemma {:induction false} NothingJoined()
    ensures Join([], "\n") == "" && ShownTexts([]) == []
  {
  }

  /** `UnifiedDiff`. */
  method UnifiedDiff(before: string, after: string, context: int) returns (text: string)
    ensures text == Join(ShownTexts(ShownDiff(before, after, context)), "\n")
  {
    hide Script, Common, Lines, Join, Digits, Hunks, Near, Split, TrimNewlines, ShownTexts;
    var c := context;
    if before == after {
      EqualTextsNoHunks(before, if c <= 0 then 3 else c);
      NothingJoined();
      return "";
    }
    if c <= 0 {
      c := 3;
    }
    var a, b := Lines(before), Lines(after);
    var lcs := LongestCommon(a, b);
    var ops := Backtrack(lcs, a, b, |a|, |b|);
    var out: seq<string>, pending: nat, i: nat := [], 0, 0;
    ghost var shown: seq<Shown> := [];
    assert Hunks(ops, c, 0, 0) == shown + Hunks(ops, c, i, pending);
    NothingJoined();
    while i < |ops|
      invariant i <= |ops|
      invariant out == ShownTexts(shown)
      invariant Hunks(ops, c, 0, 0) == shown + Hunks(ops, c, i, pending)
    {
      HunksStep(ops, c, i, pending);
      if ops[i].Keep? {
        var near := ChangeNear(ops, c, i);
        if !near {
          pending, i := pending + 1, i + 1;
          continue;
        }
      }
      ghost var later := [Line(ops[i])] + Hunks(ops, c, i + 1, 0);
      if pending > 0 {
        out := out + ["@@ " + Digits(pending) + " unchanged lines @@"];
        ShownOneMore(shown, Hidden(pending));
        Concat3(shown, [Hidden(pending)], later);
        shown := shown + [Hidden(pending)];
      } else {
        assert [] + later == later;
      }
      assert Hunks(ops, c, 0, 0) == shown + later;
      var sign := match ops[i] case Keep(_) => " " case Drop(_) => "-" case Add(_) => "+";
      out := out + [sign + ops[i].text];
      ShownOneMore(shown, Line(ops[i]));
      Concat3(shown, [Line(ops[i])], Hunks(ops, c, i + 1, 0));
      shown := shown + [Line(ops[i])];
      pending, i := 0, i + 1;
    }
    HunksStep(ops, c, i, pending);
    assert shown + [] == shown;
    return Join(out, "\n");
  }

  /** The search for a change around a kept line. */
  method ChangeNear(ops: seq<Op>, context: nat, i: nat) returns (near: bool)
    ensures near <==> Near(ops, context, i)
  {
    near := false;
    var j := Max(0, i - context);
    while j < Min(|ops|, i + context + 1)
      invariant Max(0, i - context) <= j
      invariant forall k | Max(0, i - context) <= k < j :: k < |ops| && ops[k].Keep?
    {
      if !ops[j].Keep? {
        return true;
      }
      j := j + 1;
    }
  }

  // ---------------------------------------------------------------- reading a diff back

  /** What someone reads off a diff who has the old text: shown lines are checked, hidden ones copied, and whatever is
      left at the end stays. */
  function Apply(a: seq<string>, shown: seq<Shown>): Option<seq<string>>
    decreases |shown|
  {
    if shown == [] then Some(a)
    else
      match shown[0]
      case Hidden(n) => if n <= |a| then After(a[..n], Apply(a[n..], shown[1..])) else None
      case Line(Keep(text)) => if a != [] && a[0] == text then After([text], Apply(a[1..], shown[1..])) else None
      case Line(Drop(text)) => if a != [] && a[0] == text then Apply(a[1..], shown[1..]) else None
      case Line(Add(text)) => After([text], Apply(a, shown[1..]))
  }

  function After(first: seq<string>, rest: Option<seq<string>>): Option<seq<string>> {
    match rest
    case None => None
    case Some(lines) => Some(first + lines)
  }

  lemma {:induction false} KeptBefore(ops: seq<Op>, k: nat)
    requires k <= |ops| && forall j | 0 <= j < k :: ops[j].Keep?
    ensures |OldText(ops)| >= k && |NewText(ops)| >= k && OldText(ops)[..k] == NewText(ops)[..k]
    ensures OldText(ops)[k..] == OldText(ops[k..]) && NewText(ops)[k..] == NewText(ops[k..])
  {
    if k > 0 {
      KeptBefore(ops[1..], k - 1);
      assert ops[1..][k - 1..] == ops[k..];
      assert OldText(ops)[..k] == [ops[0].text] + OldText(ops[1..])[..k - 1];
      assert NewText(ops)[..k] == [ops[0].text] + NewText(ops[1..])[..k - 1];
    }
  }

  lemma {:induction false} HiddenApplies(ops: seq<Op>, k: nat, shown: seq<Shown>)
    requires 0 < k <= |ops| && forall j | 0 <= j < k :: ops[j].Keep?
    requires Apply(OldText(ops[k..]), shown) == Some(NewText(ops[k..]))
    ensures Apply(OldText(ops), [Hidden(k)] + shown) == Some(NewText(ops))
  {
    hide OldText, NewText;
    KeptBefore(ops, k);
    assert ([Hidden(k)] + shown)[1..] == shown && ([Hidden(k)] + shown)[0] == Hidden(k);
    assert NewText(ops) == NewText(ops)[..k] + NewText(ops)[k..];
  }

  lemma {:induction false} NothingApplies(ops: seq<Op>)
    requires forall j | 0 <= j < |ops| :: ops[j].Keep?
    ensures Apply(OldText(ops), []) == Some(NewText(ops))
  {
    KeptBefore(ops, |ops|);
    assert ops[|ops|..] == [];
    assert OldText(ops) == OldText(ops)[..|ops|] + OldText(ops)[|ops|..];
    assert NewText(ops) == NewText(ops)[..|ops|] + NewText(ops)[|ops|..];
  }

  lemma {:induction false} HunksApply(ops: seq<Op>, context: nat, i: nat, pending: nat)
    requires pending <= i <= |ops| && forall k | i - pending <= k < i :: ops[k].Keep?
    ensures var from := ops[i - pending..];
            Apply(OldText(from), Hunks(ops, context, i, pending)) == Some(NewText(from))
    decreases |ops| - i
  {
    hide Apply, OldText, NewText, Near;
    var from, rest := ops[i - pending..], ops[i..];
    assert from[pending..] == rest;
    if i == |ops| {
      NothingApplies(from);
    } else if ops[i].Keep? && !Near(ops, context, i) {
      HunksApply(ops, context, i + 1, pending + 1);
    } else {
      HunksApply(ops, context, i + 1, 0);
      assert rest[1..] == ops[i + 1..] && rest[0] == ops[i];
      var later := Hunks(ops, context, i + 1, 0);
      LineApplies(rest, later);
      if pending > 0 {
        HiddenApplies(from, pending, [Line(ops[i])] + later);
        assert [Hidden(pending)] + [Line(ops[i])] + later == [Hidden(pending)] + ([Line(ops[i])] + later);
      } else {
        assert from == rest;
        assert [] + [Line(ops[i])] + later == [Line(ops[i])] + later;
      }
    }
  }

  lemma {:induction false} LineApplies(ops: seq<Op>, later: seq<Shown>)
    requires ops != [] && Apply(OldText(ops[1..]), later) == Some(NewText(ops[1..]))
    ensures Apply(OldText(ops), [Line(ops[0])] + later) == Some(NewText(ops))
  {
    var shown, rest := [Line(ops[0])] + later, ops[1..];
    assert shown[1..] == later && shown[0] == Line(ops[0]);
    match ops[0] {
      case Keep(text) =>
        assert OldText(ops) == [text] + OldText(rest) && OldText(ops)[1..] == OldText(rest);
      case Drop(text) =>
        assert OldText(ops) == [text] + OldText(rest) && OldText(ops)[1..] == OldText(rest);
        assert NewText(ops) == NewText(rest);
      case Add(text) =>
        assert OldText(ops) == OldText(rest);
        assert NewText(ops) == [text] + NewText(rest);
    }
  }

  /** A shown diff, read by someone with the old text, gives exactly the new text, although lines far from changes and
      those after the last change are left out. */
  lemma {:induction false} ShownDiffApplies(before: string, after: string, context: int)
    ensures Apply(Lines(before), ShownDiff(before, after, context)) == Some(Lines(after))
  {
    hide Apply, Hunks, Script, Lines;
    var a, b := Lines(before), Lines(after);
    var ops := Script(a, b, |a|, |b|);
    assert a[..|a|] == a && b[..|b|] == b;
    ScriptIsRight(a, b, |a|, |b|);
    var c := if context <= 0 then 3 else context;
    HunksApply(ops, c, 0, 0);
    assert ops[0 - 0..] == ops;
    assert ShownDiff(before, after, context) == Hunks(ops, c, 0, 0);
    assert OldText(ops) == a && NewText(ops) == b;
  }

  lemma {:induction false} JoinNotEmpty(texts: seq<string>)
    requires texts != [] && texts[0] != ""
    ensures Join(texts, "\n") != ""
  {
  }

  /** The diff is empty exactly when the lines are the same; trailing newlines do not show. */
  lemma {:induction false} EmptyDiff(before: string, after: string, context: int)
    ensures Join(ShownTexts(ShownDiff(before, after, context)), "\n") == "" <==> Lines(before) == Lines(after)
  {
    hide Lines, Script, Join, Hunks;
    var shown, a, b := ShownDiff(before, after, context), Lines(before), Lines(after);
    ShownDiffApplies(before, after, context);
    if a == b {
      SameTextShowsNothing(a, |a|);
      NoChangesNoHunks(Script(a, b, |a|, |b|), if context <= 0 then 3 else context, 0, 0);
      NothingJoined();
    } else {
      assert shown != [] by {
        NothingShown(a);
      }
      assert ShownTexts(shown)[0] == ShownText(shown[0]);
      JoinNotEmpty(ShownTexts(shown));
    }
  }

  lemma {:induction false} NothingShown(a: seq<string>)
    ensures Apply(a, []) == Some(a)
  {
  }
}
