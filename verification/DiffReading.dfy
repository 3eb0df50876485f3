/** What a reader makes of the text of a shown diff (internal/server/diff.go). */
module DiffReading {
  import opened Collections
  import opened Options
  import opened Strings
  import opened Diff

  // ---------------------------------------------------------------- which lines are shown

  function Size(s: Shown): nat {
    if s.Hidden? then s.count else 1
  }

  function Sizes(shown: seq<Shown>): nat {
    if shown == [] then 0 else Size(shown[0]) + Sizes(shown[1..])
  }

  /** A line that stays, with no change up to `context` lines before or after it. */
  predicate IsFar(ops: seq<Op>, context: nat, at: nat)
    requires at < |ops|
  {
    forall k | 0 <= k < |ops| && at - context <= k <= at + context :: ops[k].Keep?
  }

  predicate AllFar(ops: seq<Op>, context: nat, from: nat, to: nat) {
    from <= to <= |ops| && forall k | from <= k < to :: IsFar(ops, context, k)
  }

  /** What is shown stands for the lines from `at` on: a count for lines far from any change, and a line for one that is
      not far; and what is left at the end is far. */
  predicate StandsFor(shown: seq<Shown>, ops: seq<Op>, context: nat, at: nat)
    decreases |shown|
  {
    if shown == [] then AllFar(ops, context, at, |ops|)
    else
      match shown[0]
      case Hidden(n) => n > 0 && AllFar(ops, context, at, at + n) && StandsFor(shown[1..], ops, context, at + n)
      case Line(op) =>
        && at < |ops| && ops[at] == op && !IsFar(ops, context, at) && StandsFor(shown[1..], ops, context, at + 1)
  }

  lemma {:induction false} FarIsNotNear(ops: seq<Op>, context: nat, i: nat)
    requires i < |ops|
    ensures IsFar(ops, context, i) <==> ops[i].Keep? && !Near(ops, context, i)
  {
    if ops[i].Keep? && !Near(ops, context, i) {
      forall k | 0 <= k < |ops| && i - context <= k <= i + context
        ensures ops[k].Keep?
      {
        assert Max(0, i - context) <= k < Min(|ops|, i + context + 1);
      }
    }
  }

  lemma {:induction false} HunksStandFor(ops: seq<Op>, context: nat, i: nat, pending: nat)
    requires pending <= i <= |ops| && AllFar(ops, context, i - pending, i)
    ensures StandsFor(Hunks(ops, context, i, pending), ops, context, i - pending)
    decreases |ops| - i
  {
    hide Near, IsFar;
    HunksStep(ops, context, i, pending);
    if i < |ops| {
      FarIsNotNear(ops, context, i);
      if ops[i].Keep? && !Near(ops, context, i) {
        HunksStandFor(ops, context, i + 1, pending + 1);
      } else {
        HunksStandFor(ops, context, i + 1, 0);
        var later := Hunks(ops, context, i + 1, 0);
        var line := [Line(ops[i])] + later;
        assert line[0] == Line(ops[i]) && line[1..] == later;
        if pending > 0 {
          var all := [Hidden(pending)] + line;
          assert all[0] == Hidden(pending) && all[1..] == line;
        } else {
          assert [] + line == line;
        }
      }
    }
  }

  /** A line is shown exactly if it changes or is within the context of a change; so many are left out as the counts
      say. */
  lemma {:induction false} ShownExactly(before: string, after: string, context: int)
    ensures var a, b := Lines(before), Lines(after);
            StandsFor(ShownDiff(before, after, context), Script(a, b, |a|, |b|), if context <= 0 then 3 else context, 0)
  {
    hide Script, Hunks, Lines;
    var a, b := Lines(before), Lines(after);
    HunksStandFor(Script(a, b, |a|, |b|), if context <= 0 then 3 else context, 0, 0);
  }

  // ---------------------------------------------------------------- reading the text

  predicate IsDigit(c: char) {
    '0' <= c <= '9'
  }

  /** The number at the start of a text. */
  function ReadNumber(s: string, n: nat): nat {
    if s != "" && IsDigit(s[0]) then ReadNumber(s[1..], 10 * n + (s[0] as int - '0' as int)) else n
  }

  /** What one line of a diff says. */
  function ReadShown(line: string): Shown {
    if line != "" && line[0] == '-' then Line(Drop(line[1..]))
    else if line != "" && line[0] == '+' then Line(Add(line[1..]))
    else if |line| >= 3 && line[0] == '@' then Hidden(ReadNumber(line[3..], 0))
    else Line(Keep(if line == "" then "" else line[1..]))
  }

  function ReadAllShown(lines: seq<string>): seq<Shown> {
    seq(|lines|, i requires 0 <= i < |lines| => ReadShown(lines[i]))
  }

  function ReadDiff(text: string): seq<Shown> {
    if text == "" then [] else ReadAllShown(Split(text, '\n'))
  }

  function Power10(k: nat): nat {
    if k == 0 then 1 else 10 * Power10(k - 1)
  }

  lemma {:induction false} OneDigit(n: nat)
    requires n < 10
    ensures var c := ('0' as int + n) as char; IsDigit(c) && c as int - '0' as int == n && c != '\n'
  {
  }

  lemma {:induction false} PowerStep(m: nat, k: nat)
    ensures m * Power10(k + 1) == 10 * (m * Power10(k))
  {
  }

  lemma {:induction false} DigitsPrefix(n: nat, m: nat, rest: string)
    ensures ReadNumber(Digits(n) + rest, m) == ReadNumber(rest, m * Power10(|Digits(n)|) + n)
    decreases n
  {
    var last := [('0' as int + n % 10) as char];
    OneDigit(n % 10);
    if n < 10 {
      assert (last + rest)[0] == last[0] && (last + rest)[1..] == rest;
      assert Power10(1) == 10 * Power10(0) == 10;
    } else {
      var front := Digits(n / 10);
      Concat3(front, last, rest);
      DigitsPrefix(n / 10, m, last + rest);
      var k := m * Power10(|front|) + n / 10;
      assert (last + rest)[0] == last[0] && (last + rest)[1..] == rest;
      PowerStep(m, |front|);
      assert 10 * k + n % 10 == m * Power10(|front| + 1) + n;
    }
  }

  /** Every shown line is read as what it stands for. */
  lemma {:induction false} ShownReads(s: Shown)
    ensures ReadShown(ShownText(s)) == s
  {
    match s {
      case Hidden(count) =>
        var tail := " unchanged lines @@";
        var text := ShownText(s);
        Concat3("@@ ", Digits(count), tail);
        TakeDrop("@@ ", Digits(count) + tail);
        assert text[3..] == Digits(count) + tail;
        DigitsPrefix(count, 0, tail);
        assert ReadNumber(tail, count) == count;
      case Line(op) =>
        assert ShownText(s)[1..] == op.text;
    }
  }

  predicate OneLine(s: string) {
    !Contains(s, '\n')
  }

  lemma {:induction false} DigitsOneLine(n: nat)
    ensures OneLine(Digits(n))
    decreases n
  {
    OneDigit(n % 10);
    if n >= 10 {
      DigitsOneLine(n / 10);
    }
  }

  lemma {:induction false} ShownOneLine(s: Shown)
    requires s.Line? ==> OneLine(s.op.text)
    ensures OneLine(ShownText(s)) && ShownText(s) != ""
  {
    if s.Hidden? {
      DigitsOneLine(s.count);
    }
  }

  lemma {:induction false} SplitJoined(parts: seq<string>)
    requires parts != [] && forall i | 0 <= i < |parts| :: OneLine(parts[i])
    ensures Split(Join(parts, "\n"), '\n') == parts
    decreases |parts|
  {
    hide Split;
    if |parts| == 1 {
      SplitOne(parts[0], '\n');
    } else {
      SplitJoined(parts[1..]);
      SplitPrefix(parts[0], '\n', Join(parts[1..], "\n"));
      assert ['\n'] == "\n";
    }
  }

  lemma {:induction false} OpsOneLine(ops: seq<Op>, a: seq<string>, b: seq<string>)
    requires IsScript(ops, a, b)
    requires (forall i | 0 <= i < |a| :: OneLine(a[i])) && forall i | 0 <= i < |b| :: OneLine(b[i])
    ensures forall k | 0 <= k < |ops| :: OneLine(ops[k].text)
    decreases |ops|
  {
    hide OneLine;
    if ops != [] {
      var rest := ops[1..];
      if !ops[0].Add? {
        assert a[0] == ops[0].text && a[1..] == OldText(rest);
      }
      if !ops[0].Drop? {
        assert b[0] == ops[0].text && b[1..] == NewText(rest);
      }
      var x, y := OldText(rest), NewText(rest);
      assert forall i | 0 <= i < |x| :: x[i] == a[if ops[0].Add? then i else i + 1];
      assert forall i | 0 <= i < |y| :: y[i] == b[if ops[0].Drop? then i else i + 1];
      OpsOneLine(rest, x, y);
    }
  }

  lemma {:induction false} StandingOneLine(shown: seq<Shown>, ops: seq<Op>, context: nat, at: nat)
    requires StandsFor(shown, ops, context, at) && forall k | 0 <= k < |ops| :: OneLine(ops[k].text)
    ensures forall k | 0 <= k < |shown| && shown[k].Line? :: OneLine(shown[k].op.text)
    decreases |shown|
  {
    hide OneLine, AllFar, IsFar;
    if shown != [] {
      StandingOneLine(shown[1..], ops, context, at + Size(shown[0]));
    }
  }

  lemma {:induction false} TextsRead(shown: seq<Shown>)
    requires forall k | 0 <= k < |shown| && shown[k].Line? :: OneLine(shown[k].op.text)
    ensures ReadDiff(Join(ShownTexts(shown), "\n")) == shown
  {
    hide Join, ShownText, ReadShown, OneLine, Split;
    var texts := ShownTexts(shown);
    forall k | 0 <= k < |shown|
      ensures ReadShown(texts[k]) == shown[k] && OneLine(texts[k]) && texts[k] != ""
    {
      ShownReads(shown[k]);
      ShownOneLine(shown[k]);
    }
    if shown == [] {
      NothingJoined();
    } else {
      SplitJoined(texts);
      JoinedNotEmpty(texts);
    }
  }

  lemma {:induction false} JoinedNotEmpty(parts: seq<string>)
    requires parts != [] && parts[0] != ""
    ensures Join(parts, "\n") != ""
  {
  }

  /** Whoever has the old text reads the new one off the text of the diff. */
  lemma {:induction false} DiffTextApplies(before: string, after: string, context: int)
    ensures var text := Join(ShownTexts(ShownDiff(before, after, context)), "\n");
            && ReadDiff(text) == ShownDiff(before, after, context)
            && Apply(Lines(before), ReadDiff(text)) == Some(Lines(after))
  {
    hide Script, Hunks, Split, TrimNewlines, Join, ShownTexts, ReadDiff, Apply, ShownDiff, StandsFor, OneLine;
    var a, b := Lines(before), Lines(after);
    LinesOneLine(before);
    LinesOneLine(after);
    DiffIsMinimal(a, b);
    OpsOneLine(Script(a, b, |a|, |b|), a, b);
    ShownExactly(before, after, context);
    StandingOneLine(ShownDiff(before, after, context), Script(a, b, |a|, |b|), if context <= 0 then 3 else context, 0);
    TextsRead(ShownDiff(before, after, context));
    ShownDiffApplies(before, after, context);
  }

  lemma {:induction false} LinesOneLine(s: string)
    ensures forall i | 0 <= i < |Lines(s)| :: OneLine(Lines(s)[i])
  {
    SplitFields(TrimNewlines(s), '\n');
  }
}
