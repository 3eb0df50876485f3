/** Putting the text of untouched nodes back into a rendered flag: which lines a node covers, which lines are swapped,
    and what swapping them does (internal/goff/yamldoc.go). */
module YamlText {
  import opened Collections
  import opened Options
  import opened Strings
  import opened YamlLines

  datatype Range = Range(start: nat, end: nat)

  datatype Swap = Swap(from: Range, to: Range)

  datatype Kind = MappingKind | SequenceKind | ScalarKind | AliasKind

  /** A node where it stands in a text, its content flat: keys and values in turn, or items. Line 0 is a node that was
      never read from a file. */
  datatype Placed = Placed(kind: Kind, flow: bool, line: nat, column: nat, content: seq<Placed>)

  // ---------------------------------------------------------------- extents

  function Indent(line: string): nat {
    if line != "" && line[0] == ' ' then 1 + Indent(line[1..]) else 0
  }

  predicate StartsItem(line: string) {
    var t := Trim(line);
    |t| >= 2 && t[0] == '-' && t[1] == ' '
  }

  /** A line that belongs to the node above it whose key or dash is at `col`. */
  predicate Inside(line: string, col: int, indentless: bool) {
    Indent(line) > col || (indentless && Indent(line) == col && StartsItem(line))
  }

  function LastLine(lines: seq<string>, i: nat, last: nat, col: int, indentless: bool): (r: nat)
    requires last < i
    ensures last <= r && (r < |lines| || r == last)
    decreases |lines| - i
  {
    if i >= |lines| then last
    else if IsBlankOrComment(lines[i]) then LastLine(lines, i + 1, last, col, indentless)
    else if Inside(lines[i], col, indentless) then LastLine(lines, i + 1, i, col, indentless)
    else last
  }

  function ExtentOf(lines: seq<string>, start: nat, col: int, indentless: bool): (r: Range)
    ensures r.start == start < r.end && (r.end <= |lines| || r.end == start + 1)
  {
    Range(start, LastLine(lines, start + 1, start, col, indentless) + 1)
  }

  /** `extent`. */
  method Extent(lines: seq<string>, start: nat, col: int, indentless: bool) returns (r: Range)
    ensures r == ExtentOf(lines, start, col, indentless)
  {
    var last: nat, i: nat := start, start + 1;
    while i < |lines|
      invariant last < i
      invariant LastLine(lines, start + 1, start, col, indentless) == LastLine(lines, i, last, col, indentless)
    {
      if IsBlankOrComment(lines[i]) {
        i := i + 1;
        continue;
      }
      if Inside(lines[i], col, indentless) {
        last := i;
        i := i + 1;
        continue;
      }
      break;
    }
    return Range(start, last + 1);
  }

  /** A line that ends the node above it. */
  predicate Stops(lines: seq<string>, stop: nat, col: int, indentless: bool) {
    stop == |lines| || (stop < |lines| && !IsBlankOrComment(lines[stop]) && !Inside(lines[stop], col, indentless))
  }

  lemma {:induction false} LastLineStops(lines: seq<string>, i: nat, last: nat, col: int, indentless: bool, stop: nat)
    requires last < i <= stop && Stops(lines, stop, col, indentless)
    ensures LastLine(lines, i, last, col, indentless) < stop
    decreases |lines| - i
  {
    hide IsBlankOrComment, Inside;
    if i < |lines| {
      if IsBlankOrComment(lines[i]) {
        LastLineStops(lines, i + 1, last, col, indentless, stop);
      } else if Inside(lines[i], col, indentless) {
        LastLineStops(lines, i + 1, i, col, indentless, stop);
      }
    }
  }

  lemma {:induction false} ExtentStops(lines: seq<string>, start: nat, col: int, indentless: bool, stop: nat)
    requires start < stop && Stops(lines, stop, col, indentless)
    ensures ExtentOf(lines, start, col, indentless).end <= stop
  {
    LastLineStops(lines, start + 1, start, col, indentless, stop);
  }

  /** Every line of an extent after the first is inside, blank or a comment; the last one is inside; and after it come
      only blank and comment lines up to one that is not inside. */
  lemma {:induction false} LastLineIs(lines: seq<string>, i: nat, last: nat, col: int, indentless: bool)
    requires last < i <= |lines| && Filler(lines, last + 1, i)
    ensures var r := LastLine(lines, i, last, col, indentless);
            && (r == last || (i <= r < |lines| && Inside(lines[r], col, indentless)))
            && (forall k | i <= k <= r && k < |lines| ::
                  IsBlankOrComment(lines[k]) || Inside(lines[k], col, indentless))
            && exists stop | r < stop <= |lines| ::
                 Stops(lines, stop, col, indentless) && Filler(lines, r + 1, stop)
    decreases |lines| - i
  {
    hide IsBlankOrComment, Inside;
    if i < |lines| {
      if IsBlankOrComment(lines[i]) {
        LastLineIs(lines, i + 1, last, col, indentless);
      } else if Inside(lines[i], col, indentless) {
        LastLineIs(lines, i + 1, i, col, indentless);
      } else {
        assert Stops(lines, i, col, indentless);
      }
    } else {
      assert Stops(lines, i, col, indentless);
    }
  }

  // ---------------------------------------------------------------- the swaps

  /** `pristine`: read from the file, and so is everything inside. */
  predicate Pristine(n: Placed)
    decreases n
  {
    n.line != 0 && forall i | 0 <= i < |n.content| :: Pristine(n.content[i])
  }

  function LastDash(line: string): Option<nat> {
    if line == "" then None
    else if line[|line| - 1] == '-' then Some(|line| - 1)
    else LastDash(line[..|line| - 1])
  }

  /** The dash an item follows, on its own line. */
  function ItemDash(lines: seq<string>, item: Placed): Option<nat> {
    if !(1 <= item.line <= |lines|) then None
    else
      var line := lines[item.line - 1];
      var before := if item.column == 0 then 0 else if item.column - 1 < |line| then item.column - 1 else |line|;
      LastDash(line[..before])
  }

  /** `itemExtent`. */
  function ItemExtent(lines: seq<string>, item: Placed): Option<Range> {
    match ItemDash(lines, item)
    case None => None
    case Some(dash) => Some(ExtentOf(lines, item.line - 1, dash, false))
  }

  function KeyExtent(lines: seq<string>, key: Placed, value: Placed): Range
    requires key.line > 0
  {
    ExtentOf(lines, key.line - 1, key.column - 1, value.kind == SequenceKind)
  }

  /** `collectSwaps`: from the flag as it is now, whose untouched nodes know their place in the file, and the same flag
      as it was rendered. */
  function Collect(file: seq<string>, text: seq<string>, now: Placed, rendered: Placed): seq<Swap>
    decreases now, 0
  {
    if now.kind != rendered.kind || now.flow || rendered.flow || |now.content| != |rendered.content| then []
    else
      match now.kind
      case MappingKind => CollectPairs(file, text, now.content, rendered.content)
      case SequenceKind => CollectItems(file, text, now.content, rendered.content)
      case _ => []
  }

  function PairSwap(file: seq<string>, text: seq<string>, ck: Placed, cv: Placed, fk: Placed, fv: Placed): seq<Swap> {
    if fk.line == 0 || !Pristine(ck) || ck.column != fk.column then []
    else if Pristine(cv) then [Swap(KeyExtent(file, ck, cv), KeyExtent(text, fk, fv))]
    else if cv.line > ck.line && fv.line > fk.line then [Swap(Range(ck.line - 1, ck.line), Range(fk.line - 1, fk.line))]
    else []
  }

  function CollectPairs(file: seq<string>, text: seq<string>, now: seq<Placed>, rendered: seq<Placed>): seq<Swap>
    requires |now| == |rendered|
    decreases now, 0
  {
    if |now| < 2 then []
    else
      var own := PairSwap(file, text, now[0], now[1], rendered[0], rendered[1]);
      var below := if own != [] && Pristine(now[1]) then [] else Collect(file, text, now[1], rendered[1]);
      own + below + CollectPairs(file, text, now[2..], rendered[2..])
  }

  function ItemSwap(file: seq<string>, text: seq<string>, now: Placed, rendered: Placed): seq<Swap> {
    match (ItemExtent(file, now), ItemExtent(text, rendered))
    case (Some(from), Some(to)) => [Swap(from, to)]
    case _ => []
  }

  function CollectItems(file: seq<string>, text: seq<string>, now: seq<Placed>, rendered: seq<Placed>): seq<Swap>
    requires |now| == |rendered|
    decreases now, 0
  {
    if now == [] then []
    else
      var first := if Pristine(now[0]) && now[0].column == rendered[0].column
                   then ItemSwap(file, text, now[0], rendered[0])
                   else Collect(file, text, now[0], rendered[0]);
      first + CollectItems(file, text, now[1..], rendered[1..])
  }

  // ---------------------------------------------------------------- what is swapped, and nothing else

  /** Both nodes are looked into. */
  predicate LookedInto(now: Placed, rendered: Placed) {
    && now.kind == rendered.kind && !now.flow && !rendered.flow && |now.content| == |rendered.content|
    && (now.kind == MappingKind || now.kind == SequenceKind)
  }

  /** A pair that nobody touched, printed in the same column again. */
  predicate UntouchedPair(now: seq<Placed>, rendered: seq<Placed>, i: nat)
    requires i + 1 < |now| == |rendered|
  {
    rendered[i].line != 0 && Pristine(now[i]) && Pristine(now[i + 1]) && now[i].column == rendered[i].column
  }

  predicate UntouchedItem(now: seq<Placed>, rendered: seq<Placed>, i: nat)
    requires i < |now| == |rendered|
  {
    Pristine(now[i]) && now[i].column == rendered[i].column
  }

  /** The node at the end of a path of positions. */
  function At(n: Placed, path: seq<nat>): Option<Placed>
    decreases |path|
  {
    if path == [] then Some(n)
    else if path[0] < |n.content| then At(n.content[path[0]], path[1..])
    else None
  }

  /** The two nodes at the end of a path are compared: above them all are looked into and none is untouched as a
      whole. */
  predicate Compared(now: Placed, rendered: Placed, path: seq<nat>)
    decreases |path|
  {
    path == [] ||
    (var i := path[0];
     && LookedInto(now, rendered) && i < |now.content|
     && (if now.kind == MappingKind then i % 2 == 1 && !UntouchedPair(now.content, rendered.content, i - 1)
         else !UntouchedItem(now.content, rendered.content, i))
     && Compared(now.content[i], rendered.content[i], path[1..]))
  }

  /** A place where text of the file is put back: an untouched pair or item; or the line of an untouched key whose value
      starts further down. */
  datatype Spot = Spot(path: seq<nat>, i: nat)

  ghost predicate IsSwapAt(file: seq<string>, text: seq<string>, now: Placed, rendered: Placed, spot: Spot, s: Swap) {
    && Compared(now, rendered, spot.path)
    && At(now, spot.path).Some? && At(rendered, spot.path).Some?
    && var n, r, i := At(now, spot.path).value, At(rendered, spot.path).value, spot.i;
    && LookedInto(n, r) && i < |n.content|
    && if n.kind == MappingKind then
         && i % 2 == 0 && i + 1 < |n.content| && r.content[i].line != 0
         && var ck, cv, fk, fv := n.content[i], n.content[i + 1], r.content[i], r.content[i + 1];
            if UntouchedPair(n.content, r.content, i) then
              s == Swap(KeyExtent(file, ck, cv), KeyExtent(text, fk, fv))
            else
              && Pristine(ck) && ck.column == fk.column && cv.line > ck.line && fv.line > fk.line
              && s == Swap(Range(ck.line - 1, ck.line), Range(fk.line - 1, fk.line))
       else
         && UntouchedItem(n.content, r.content, i)
         && ItemExtent(file, n.content[i]).Some? && ItemExtent(text, r.content[i]).Some?
         && s == Swap(ItemExtent(file, n.content[i]).value, ItemExtent(text, r.content[i]).value)
  }

  /** Every such place is swapped. */
  lemma {:induction false} UntouchedIsSwapped(file: seq<string>, text: seq<string>, now: Placed, rendered: Placed,
                                              spot: Spot, s: Swap)
    requires IsSwapAt(file, text, now, rendered, spot, s)
    ensures s in Collect(file, text, now, rendered)
    decreases |spot.path|
  {
    hide ItemExtent, ExtentOf, Pristine;
    var path := spot.path;
    if path == [] {
      if now.kind == MappingKind {
        PairIsCollected(file, text, now.content, rendered.content, spot.i, s);
      } else {
        ItemIsCollected(file, text, now.content, rendered.content, spot.i, s);
      }
    } else {
      UntouchedIsSwapped(file, text, now.content[path[0]], rendered.content[path[0]], Spot(path[1..], spot.i), s);
      if now.kind == MappingKind {
        PairIsCollected(file, text, now.content, rendered.content, path[0] - 1, s);
      } else {
        ItemIsCollected(file, text, now.content, rendered.content, path[0], s);
      }
    }
  }

  lemma {:induction false} PairIsCollected(file: seq<string>, text: seq<string>, now: seq<Placed>,
                                           rendered: seq<Placed>, i: nat, s: Swap)
    requires i % 2 == 0 && i + 1 < |now| == |rendered|
    requires || s in PairSwap(file, text, now[i], now[i + 1], rendered[i], rendered[i + 1])
             || (!UntouchedPair(now, rendered, i) && s in Collect(file, text, now[i + 1], rendered[i + 1]))
    ensures s in CollectPairs(file, text, now, rendered)
    decreases |now|
  {
    hide Collect, ExtentOf, Pristine;
    var own := PairSwap(file, text, now[0], now[1], rendered[0], rendered[1]);
    var below := if own != [] && Pristine(now[1]) then [] else Collect(file, text, now[1], rendered[1]);
    var rest := CollectPairs(file, text, now[2..], rendered[2..]);
    assert CollectPairs(file, text, now, rendered) == own + below + rest;
    if i > 0 {
      assert now[2..][i - 2] == now[i] && now[2..][i - 1] == now[i + 1];
      assert rendered[2..][i - 2] == rendered[i] && rendered[2..][i - 1] == rendered[i + 1];
      PairIsCollected(file, text, now[2..], rendered[2..], i - 2, s);
      assert s in rest;
    }
  }

  lemma {:induction false} ItemIsCollected(file: seq<string>, text: seq<string>, now: seq<Placed>,
                                           rendered: seq<Placed>, i: nat, s: Swap)
    requires i < |now| == |rendered|
    requires s in if UntouchedItem(now, rendered, i) then ItemSwap(file, text, now[i], rendered[i])
                  else Collect(file, text, now[i], rendered[i])
    ensures s in CollectItems(file, text, now, rendered)
    decreases |now|
  {
    hide Collect, ItemSwap, Pristine;
    var first := if UntouchedItem(now, rendered, 0) then ItemSwap(file, text, now[0], rendered[0])
                 else Collect(file, text, now[0], rendered[0]);
    var rest := CollectItems(file, text, now[1..], rendered[1..]);
    assert CollectItems(file, text, now, rendered) == first + rest;
    if i > 0 {
      assert now[1..][i - 1] == now[i] && rendered[1..][i - 1] == rendered[i];
      ItemIsCollected(file, text, now[1..], rendered[1..], i - 1, s);
      assert s in rest;
    }
  }

  /** And nothing else is. */
  lemma {:induction false} SwappedIsUntouched(file: seq<string>, text: seq<string>, now: Placed, rendered: Placed,
                                              s: Swap) returns (spot: Spot)
    requires s in Collect(file, text, now, rendered)
    ensures IsSwapAt(file, text, now, rendered, spot, s)
    decreases now, 1
  {
    hide ItemExtent, ExtentOf, Pristine;
    if now.kind == MappingKind {
      spot := SwappedPair(file, text, now.content, rendered.content, now, rendered, 0, s);
    } else {
      spot := SwappedItem(file, text, now.content, rendered.content, now, rendered, 0, s);
    }
  }

  lemma {:induction false} Deeper(file: seq<string>, text: seq<string>, now: Placed, rendered: Placed, at: nat,
                                  spot: Spot, s: Swap)
    requires LookedInto(now, rendered) && at < |now.content|
    requires if now.kind == MappingKind then at % 2 == 1 && !UntouchedPair(now.content, rendered.content, at - 1)
             else !UntouchedItem(now.content, rendered.content, at)
    requires IsSwapAt(file, text, now.content[at], rendered.content[at], spot, s)
    ensures IsSwapAt(file, text, now, rendered, Spot([at] + spot.path, spot.i), s)
  {
    hide ItemExtent, ExtentOf, Pristine;
    var path := [at] + spot.path;
    assert path[0] == at && path[1..] == spot.path;
    assert At(now, path) == At(now.content[at], spot.path) && At(rendered, path) == At(rendered.content[at], spot.path);
  }

  lemma {:induction false} SwappedOwn(file: seq<string>, text: seq<string>, now: Placed, rendered: Placed, i: nat,
                                      s: Swap)
    requires LookedInto(now, rendered) && now.kind == MappingKind && i % 2 == 0 && i + 1 < |now.content|
    requires s in PairSwap(file, text, now.content[i], now.content[i + 1], rendered.content[i], rendered.content[i + 1])
    ensures IsSwapAt(file, text, now, rendered, Spot([], i), s)
  {
    hide ExtentOf, Pristine;
    NoPath(now, rendered);
  }

  lemma {:induction false} SwappedPair(file: seq<string>, text: seq<string>, content: seq<Placed>,
                                       printed: seq<Placed>, now: Placed, rendered: Placed, from: nat, s: Swap)
    returns (spot: Spot)
    requires LookedInto(now, rendered) && now.kind == MappingKind && from % 2 == 0 && from <= |now.content|
    requires content == now.content[from..] && printed == rendered.content[from..]
    requires s in CollectPairs(file, text, content, printed)
    ensures IsSwapAt(file, text, now, rendered, spot, s)
    decreases now, 0, |content|
  {
    hide ExtentOf, Pristine, Collect, IsSwapAt, PairSwap;
    var own := PairSwap(file, text, content[0], content[1], printed[0], printed[1]);
    assert rendered.content[from] == printed[0] && rendered.content[from + 1] == printed[1];
    assert now.content[from] == content[0] && now.content[from + 1] == content[1];
    if s in own {
      spot := Spot([], from);
      SwappedOwn(file, text, now, rendered, from, s);
    } else if s in CollectPairs(file, text, content[2..], printed[2..]) {
      spot := SwappedPair(file, text, content[2..], printed[2..], now, rendered, from + 2, s);
    } else {
      NotAllSwapped(file, text, now.content, rendered.content, from);
      var inner := SwappedIsUntouched(file, text, now.content[from + 1], rendered.content[from + 1], s);
      Deeper(file, text, now, rendered, from + 1, inner, s);
      spot := Spot([from + 1] + inner.path, inner.i);
    }
  }

  /** An untouched pair is swapped as a whole. */
  lemma {:induction false} NotAllSwapped(file: seq<string>, text: seq<string>, now: seq<Placed>,
                                         rendered: seq<Placed>, i: nat)
    requires i + 1 < |now| == |rendered|
    ensures PairSwap(file, text, now[i], now[i + 1], rendered[i], rendered[i + 1]) != [] && Pristine(now[i + 1]) <==>
            UntouchedPair(now, rendered, i)
  {
    hide ExtentOf, Pristine;
  }

  lemma {:induction false} NoPath(now: Placed, rendered: Placed)
    ensures Compared(now, rendered, []) && At(now, []) == Some(now) && At(rendered, []) == Some(rendered)
  {
  }

  lemma {:induction false} SwappedItem(file: seq<string>, text: seq<string>, content: seq<Placed>,
                                       printed: seq<Placed>, now: Placed, rendered: Placed, from: nat, s: Swap)
    returns (spot: Spot)
    requires LookedInto(now, rendered) && now.kind == SequenceKind && from <= |now.content|
    requires content == now.content[from..] && printed == rendered.content[from..]
    requires s in CollectItems(file, text, content, printed)
    ensures IsSwapAt(file, text, now, rendered, spot, s)
    decreases now, 0, |content|
  {
    hide ItemExtent, Pristine, Collect, Compared;
    assert rendered.content[from] == printed[0] && now.content[from] == content[0];
    if UntouchedItem(now.content, rendered.content, from) && s in ItemSwap(file, text, content[0], printed[0]) {
      spot := Spot([], from);
      NoPath(now, rendered);
    } else if !UntouchedItem(now.content, rendered.content, from) && s in Collect(file, text, content[0], printed[0]) {
      var inner := SwappedIsUntouched(file, text, now.content[from], rendered.content[from], s);
      Deeper(file, text, now, rendered, from, inner, s);
      spot := Spot([from] + inner.path, inner.i);
    } else {
      spot := SwappedItem(file, text, content[1..], printed[1..], now, rendered, from + 1, s);
    }
  }

  // ---------------------------------------------------------------- the layout of rendered text

  function LineAfter(content: seq<Placed>, limit: nat): nat {
    if content == [] || content[0].line == 0 then limit else content[0].line - 1
  }

  /** Block style on the lines `[from, limit)`: what ends a node is the line of its next sibling, or `limit`. */
  predicate BlockStyle(text: seq<string>, n: Placed, from: nat, limit: nat)
    decreases n, 0
  {
    n.flow
    || match n.kind
       case MappingKind => PairsInStyle(text, n.content, from, limit)
       case SequenceKind => ItemsInStyle(text, n.content, from, limit)
       case _ => true
  }

  predicate PairsInStyle(text: seq<string>, content: seq<Placed>, from: nat, limit: nat)
    decreases content, 0
  {
    |content| < 2
    || (var key, value := content[0], content[1];
        var next := LineAfter(content[2..], limit);
        && from < key.line <= next <= limit <= |text|
        && Stops(text, next, key.column - 1, value.kind == SequenceKind)
        && BlockStyle(text, value, if value.line > key.line then key.line else key.line - 1, next)
        && PairsInStyle(text, content[2..], next, limit))
  }

  predicate ItemsInStyle(text: seq<string>, content: seq<Placed>, from: nat, limit: nat)
    decreases content, 0
  {
    content == []
    || (var next := LineAfter(content[1..], limit);
        && from < content[0].line <= next <= limit <= |text|
        && (ItemDash(text, content[0]).Some? ==> Stops(text, next, ItemDash(text, content[0]).value, false))
        && BlockStyle(text, content[0], content[0].line - 1, next)
        && ItemsInStyle(text, content[1..], next, limit))
  }

  /** Swaps of different, non-empty ranges of lines within `[from, limit)`. */
  predicate Apart(swaps: seq<Swap>, from: nat, limit: nat) {
    && (forall i | 0 <= i < |swaps| :: from <= swaps[i].to.start < swaps[i].to.end <= limit)
    && (forall i, j | 0 <= i < j < |swaps| :: swaps[i].to.end <= swaps[j].to.start)
  }

  lemma {:induction false} ApartConcat(a: seq<Swap>, b: seq<Swap>, from: nat, middle: nat, limit: nat)
    requires from <= middle <= limit && Apart(a, from, middle) && Apart(b, middle, limit)
    ensures Apart(a + b, from, limit)
  {
  }

  lemma {:induction false} ApartWiden(a: seq<Swap>, from: nat, limit: nat, lower: nat)
    requires Apart(a, from, limit) && lower <= from
    ensures Apart(a, lower, limit)
  {
  }

  /** In text laid out in block style the swaps never overlap, and they come in the order of the text. */
  lemma {:induction false} SwapsApart(file: seq<string>, text: seq<string>, now: Placed, rendered: Placed, from: nat,
                                      limit: nat)
    requires BlockStyle(text, rendered, from, limit)
    ensures Apart(Collect(file, text, now, rendered), from, limit)
    decreases now, 0
  {
    if && now.kind == rendered.kind && !now.flow && !rendered.flow
       && |now.content| == |rendered.content| {
      if now.kind == MappingKind {
        PairsApart(file, text, now.content, rendered.content, from, limit);
      } else if now.kind == SequenceKind {
        ItemsApart(file, text, now.content, rendered.content, from, limit);
      }
    }
  }

  lemma {:induction false} PairApart(file: seq<string>, text: seq<string>, ck: Placed, cv: Placed, fk: Placed,
                                     fv: Placed, below: seq<Swap>, next: nat)
    requires 0 < fk.line <= next && Stops(text, next, fk.column - 1, fv.kind == SequenceKind)
    requires Apart(below, if fv.line > fk.line then fk.line else fk.line - 1, next)
    ensures var own := PairSwap(file, text, ck, cv, fk, fv);
            Apart(own + if own != [] && Pristine(cv) then [] else below, fk.line - 1, next)
  {
    hide Stops, Pristine, ExtentOf;
    var own := PairSwap(file, text, ck, cv, fk, fv);
    ExtentStops(text, fk.line - 1, fk.column - 1, fv.kind == SequenceKind, next);
    if own == [] {
      assert own + below == below;
    } else if Pristine(cv) {
      assert own + [] == own;
    } else {
      ApartConcat(own, below, fk.line - 1, fk.line, next);
    }
  }

  lemma {:induction false} PairsApart(file: seq<string>, text: seq<string>, now: seq<Placed>, rendered: seq<Placed>,
                                      from: nat, limit: nat)
    requires |now| == |rendered| && PairsInStyle(text, rendered, from, limit)
    ensures Apart(CollectPairs(file, text, now, rendered), from, limit)
    decreases now, 0
  {
    hide Stops, BlockStyle, Pristine, Apart, PairSwap, Collect;
    if |now| < 2 {
      NoSwaps(from, limit);
    } else {
      var key, value, next := rendered[0], rendered[1], LineAfter(rendered[2..], limit);
      var own, below := PairSwap(file, text, now[0], now[1], key, value), Collect(file, text, now[1], value);
      SwapsApart(file, text, now[1], value, if value.line > key.line then key.line else key.line - 1, next);
      PairApart(file, text, now[0], now[1], key, value, below, next);
      var first := own + if own != [] && Pristine(now[1]) then [] else below;
      PairsApart(file, text, now[2..], rendered[2..], next, limit);
      ApartWiden(first, key.line - 1, next, from);
      ApartConcat(first, CollectPairs(file, text, now[2..], rendered[2..]), from, next, limit);
    }
  }

  lemma {:induction false} NoSwaps(from: nat, limit: nat)
    ensures Apart([], from, limit)
  {
  }

  lemma {:induction false} ItemApart(file: seq<string>, text: seq<string>, now: Placed, item: Placed, next: nat)
    requires 0 < item.line <= next
    requires ItemDash(text, item).Some? ==> Stops(text, next, ItemDash(text, item).value, false)
    ensures Apart(ItemSwap(file, text, now, item), item.line - 1, next)
  {
    hide Stops, ItemDash, ExtentOf;
    if ItemDash(text, item).Some? {
      ExtentStops(text, item.line - 1, ItemDash(text, item).value, false, next);
    }
  }

  lemma {:induction false} ItemsApart(file: seq<string>, text: seq<string>, now: seq<Placed>, rendered: seq<Placed>,
                                      from: nat, limit: nat)
    requires |now| == |rendered| && ItemsInStyle(text, rendered, from, limit)
    ensures Apart(CollectItems(file, text, now, rendered), from, limit)
    decreases now, 0
  {
    hide Stops, BlockStyle, Pristine, Apart, ItemSwap, ItemDash;
    if now == [] {
      NoSwaps(from, limit);
    } else {
      var item, next := rendered[0], LineAfter(rendered[1..], limit);
      SwapsApart(file, text, now[0], item, item.line - 1, next);
      ItemApart(file, text, now[0], item, next);
      var first := if Pristine(now[0]) && now[0].column == item.column then ItemSwap(file, text, now[0], item)
                   else Collect(file, text, now[0], item);
      ItemsApart(file, text, now[1..], rendered[1..], next, limit);
      ApartWiden(first, item.line - 1, next, from);
      ApartConcat(first, CollectItems(file, text, now[1..], rendered[1..]), from, next, limit);
    }
  }

  predicate InFile(file: seq<string>, swaps: seq<Swap>) {
    forall i | 0 <= i < |swaps| :: swaps[i].from.start <= swaps[i].from.end <= |file|
  }

  /** A node whose parts, where they were read from the file, are on its lines. */
  predicate OnFile(file: seq<string>, n: Placed)
    decreases n
  {
    n.line <= |file| && forall i | 0 <= i < |n.content| :: OnFile(file, n.content[i])
  }

  lemma {:induction false} InFileConcat(file: seq<string>, a: seq<Swap>, b: seq<Swap>)
    requires InFile(file, a) && InFile(file, b)
    ensures InFile(file, a + b)
  {
  }

  /** What is put back comes from lines of the file. */
  lemma {:induction false} SwapsInFile(file: seq<string>, text: seq<string>, now: Placed, rendered: Placed)
    requires OnFile(file, now)
    ensures InFile(file, Collect(file, text, now, rendered))
    decreases now, 0
  {
    if && now.kind == rendered.kind && !now.flow && !rendered.flow
       && |now.content| == |rendered.content| {
      if now.kind == MappingKind {
        PairsInFile(file, text, now.content, rendered.content);
      } else if now.kind == SequenceKind {
        ItemsInFile(file, text, now.content, rendered.content);
      }
    }
  }

  lemma {:induction false} PairsInFile(file: seq<string>, text: seq<string>, now: seq<Placed>, rendered: seq<Placed>)
    requires |now| == |rendered| && forall i | 0 <= i < |now| :: OnFile(file, now[i])
    ensures InFile(file, CollectPairs(file, text, now, rendered))
    decreases now, 0
  {
    hide Pristine, ExtentOf, InFile, PairSwap;
    if |now| < 2 {
      EmptyInFile(file);
    } else {
      var own := PairSwap(file, text, now[0], now[1], rendered[0], rendered[1]);
      PairInFile(file, text, now[0], now[1], rendered[0], rendered[1]);
      var below := if own != [] && Pristine(now[1]) then [] else Collect(file, text, now[1], rendered[1]);
      EmptyInFile(file);
      SwapsInFile(file, text, now[1], rendered[1]);
      PairsInFile(file, text, now[2..], rendered[2..]);
      InFileConcat(file, own, below);
      InFileConcat(file, own + below, CollectPairs(file, text, now[2..], rendered[2..]));
    }
  }

  lemma {:induction false} EmptyInFile(file: seq<string>)
    ensures InFile(file, [])
  {
  }

  lemma {:induction false} PairInFile(file: seq<string>, text: seq<string>, ck: Placed, cv: Placed, fk: Placed,
                                      fv: Placed)
    requires OnFile(file, ck)
    ensures InFile(file, PairSwap(file, text, ck, cv, fk, fv))
  {
    hide ExtentOf;
  }

  lemma {:induction false} ItemsInFile(file: seq<string>, text: seq<string>, now: seq<Placed>, rendered: seq<Placed>)
    requires |now| == |rendered| && forall i | 0 <= i < |now| :: OnFile(file, now[i])
    ensures InFile(file, CollectItems(file, text, now, rendered))
    decreases now, 0
  {
    hide Pristine, InFile, ItemSwap;
    if now == [] {
      EmptyInFile(file);
    } else {
      SwapsInFile(file, text, now[0], rendered[0]);
      ItemInFile(file, text, now[0], rendered[0]);
      ItemsInFile(file, text, now[1..], rendered[1..]);
      var first := if Pristine(now[0]) && now[0].column == rendered[0].column
                   then ItemSwap(file, text, now[0], rendered[0])
                   else Collect(file, text, now[0], rendered[0]);
      InFileConcat(file, first, CollectItems(file, text, now[1..], rendered[1..]));
    }
  }

  lemma {:induction false} ItemInFile(file: seq<string>, text: seq<string>, now: Placed, rendered: Placed)
    ensures InFile(file, ItemSwap(file, text, now, rendered))
  {
    hide ExtentOf;
  }

  // ---------------------------------------------------------------- applying the swaps

  function StartingAt(swaps: seq<Swap>, line: nat): (s: Option<Swap>)
    ensures s.Some? ==> s.value in swaps && s.value.to.start == line
    ensures s.None? <==> forall i | 0 <= i < |swaps| :: swaps[i].to.start != line
  {
    if swaps == [] then None
    else if swaps[0].to.start == line then Some(swaps[0])
    else StartingAt(swaps[1..], line)
  }

  /** All swaps at once, in one pass over the lines from the top. */
  function AtOnce(file: seq<string>, text: seq<string>, swaps: seq<Swap>, line: nat): seq<string>
    requires InFile(file, swaps) && Apart(swaps, 0, |text|) && line <= |text|
    decreases |text| - line
  {
    if line == |text| then []
    else
      match StartingAt(swaps, line)
      case None => [text[line]] + AtOnce(file, text, swaps, line + 1)
      case Some(s) => file[s.from.start..s.from.end] + AtOnce(file, text, swaps, s.to.end)
  }

  lemma {:induction false} NoSwapBetween(file: seq<string>, text: seq<string>, swaps: seq<Swap>, line: nat, next: nat)
    requires InFile(file, swaps) && Apart(swaps, 0, |text|) && line <= next <= |text|
    requires forall i | 0 <= i < |swaps| :: !(line <= swaps[i].to.start < next)
    ensures AtOnce(file, text, swaps, line) == text[line..next] + AtOnce(file, text, swaps, next)
    decreases next - line
  {
    hide Apart, InFile;
    if line < next {
      assert StartingAt(swaps, line).None?;
      NoSwapBetween(file, text, swaps, line + 1, next);
      Concat3([text[line]], text[line + 1..next], AtOnce(file, text, swaps, next));
      assert [text[line]] + text[line + 1..next] == text[line..next];
    } else {
      assert text[line..next] == [];
    }
  }

  /** One more swap at the bottom-up place. */
  lemma {:induction false} SwapNext(file: seq<string>, text: seq<string>, swaps: seq<Swap>, k: nat, out: seq<string>)
    requires InFile(file, swaps) && Apart(swaps, 0, |text|) && k < |swaps|
    requires var below := if k + 1 < |swaps| then swaps[k + 1].to.start else |text|;
             out == text[..below] + AtOnce(file, text, swaps, below)
    ensures var s := swaps[k];
            && s.to.start <= s.to.end <= |out|
            && out[..s.to.start] + file[s.from.start..s.from.end] + out[s.to.end..]
               == text[..s.to.start] + AtOnce(file, text, swaps, s.to.start)
  {
    hide AtOnce;
    var s, below := swaps[k], if k + 1 < |swaps| then swaps[k + 1].to.start else |text|;
    var rest := AtOnce(file, text, swaps, below);
    assert s.to.end <= below;
    forall i | 0 <= i < |swaps|
      ensures !(s.to.end <= swaps[i].to.start < below)
    {
      if i < k {
        assert swaps[i].to.end <= s.to.start;
      } else if i > k + 1 {
        assert swaps[k + 1].to.end <= swaps[i].to.start;
      }
    }
    NoSwapBetween(file, text, swaps, s.to.end, below);
    assert out[..s.to.start] == text[..s.to.start];
    assert out[s.to.end..] == text[s.to.end..below] + rest;
    AtSwap(file, text, swaps, k);
    Concat3(text[..s.to.start], file[s.from.start..s.from.end], AtOnce(file, text, swaps, s.to.end));
  }

  lemma {:induction false} AtSwap(file: seq<string>, text: seq<string>, swaps: seq<Swap>, k: nat)
    requires InFile(file, swaps) && Apart(swaps, 0, |text|) && k < |swaps|
    ensures var s := swaps[k];
            AtOnce(file, text, swaps, s.to.start) ==
            file[s.from.start..s.from.end] + AtOnce(file, text, swaps, s.to.end)
  {
    var s := swaps[k];
    assert StartingAt(swaps, s.to.start).Some?;
    var found := StartingAt(swaps, s.to.start).value;
    var i :| 0 <= i < |swaps| && swaps[i] == found;
    assert i == k;
  }

  /** The lines of every swap are in the result, whole and in order: above them is what becomes of the text above. */
  lemma {:induction false} SwapIsThere(file: seq<string>, text: seq<string>, swaps: seq<Swap>, k: nat)
    returns (above: seq<string>, below: seq<string>)
    requires InFile(file, swaps) && Apart(swaps, 0, |text|) && k < |swaps|
    ensures var s := swaps[k];
            && AtOnce(file, text, swaps, 0) == above + file[s.from.start..s.from.end] + below
            && below == AtOnce(file, text, swaps, s.to.end)
  {
    hide AtOnce;
    var s := swaps[k];
    SwapInRange(file, text, swaps, k);
    below := AtOnce(file, text, swaps, s.to.end);
    AtSwap(file, text, swaps, k);
    if k == 0 {
      FirstSwap(file, text, swaps);
      above := text[..s.to.start];
    } else {
      var before, rest := SwapIsThere(file, text, swaps, k - 1);
      var p := swaps[k - 1];
      SwapInRange(file, text, swaps, k - 1);
      forall i | 0 <= i < |swaps|
        ensures !(p.to.end <= swaps[i].to.start < s.to.start)
      {
        if i < k - 1 {
          SwapInRange(file, text, swaps, i);
          assert swaps[i].to.end <= p.to.start;
        } else if i > k {
          assert s.to.end <= swaps[i].to.start;
        }
      }
      NoSwapBetween(file, text, swaps, p.to.end, s.to.start);
      above := before + file[p.from.start..p.from.end] + text[p.to.end..s.to.start];
      var head := before + file[p.from.start..p.from.end];
      Concat3(head, text[p.to.end..s.to.start], AtOnce(file, text, swaps, s.to.start));
    }
    Concat3(above, file[s.from.start..s.from.end], below);
  }

  /** The end of `keepUntouchedText`: the swaps are made from the bottom up; if the result does not read back as the
      rendered text does, the rendered text is used. */
  method KeepUntouchedText<Data(==)>(file: seq<string>, text: seq<string>, swaps: seq<Swap>,
                                     read: seq<string> -> Option<Data>)
    returns (out: seq<string>)
    requires InFile(file, swaps) && Apart(swaps, 0, |text|)
    ensures var kept := AtOnce(file, text, swaps, 0);
            out == if read(text).Some? && swaps != [] && read(kept) == read(text) then kept else text
    ensures read(out) == read(text)
  {
    hide AtOnce, Apart, InFile;
    if read(text).None? || swaps == [] {
      return text;
    }
    out := text;
    var k := |swaps|;
    assert text[..|text|] + AtOnce(file, text, swaps, |text|) == text by {
      AtEnd(file, text, swaps);
    }
    while k > 0
      invariant 0 <= k <= |swaps|
      invariant var below := if k < |swaps| then swaps[k].to.start else |text|;
                below <= |text| && out == text[..below] + AtOnce(file, text, swaps, below)
    {
      SwapNext(file, text, swaps, k - 1, out);
      k := k - 1;
      var s := swaps[k];
      SwapInRange(file, text, swaps, k);
      out := out[..s.to.start] + file[s.from.start..s.from.end] + out[s.to.end..];
    }
    FirstSwap(file, text, swaps);
    var check := read(out);
    if check.None? || check != read(text) {
      return text;
    }
  }

  lemma {:induction false} AtEnd(file: seq<string>, text: seq<string>, swaps: seq<Swap>)
    requires InFile(file, swaps) && Apart(swaps, 0, |text|)
    ensures AtOnce(file, text, swaps, |text|) == []
  {
  }

  lemma {:induction false} SwapInRange(file: seq<string>, text: seq<string>, swaps: seq<Swap>, k: nat)
    requires InFile(file, swaps) && Apart(swaps, 0, |text|) && k < |swaps|
    ensures swaps[k].from.start <= swaps[k].from.end <= |file|
    ensures swaps[k].to.start < swaps[k].to.end <= |text|
  {
  }

  lemma {:induction false} FirstSwap(file: seq<string>, text: seq<string>, swaps: seq<Swap>)
    requires InFile(file, swaps) && Apart(swaps, 0, |text|) && swaps != []
    ensures swaps[0].to.start <= |text|
    ensures text[..swaps[0].to.start] + AtOnce(file, text, swaps, swaps[0].to.start) == AtOnce(file, text, swaps, 0)
  {
    hide AtOnce;
    forall i | 0 <= i < |swaps|
      ensures !(0 <= swaps[i].to.start < swaps[0].to.start)
    {
      if i > 0 {
        assert swaps[0].to.end <= swaps[i].to.start;
      }
    }
    NoSwapBetween(file, text, swaps, 0, swaps[0].to.start);
    assert text[0..swaps[0].to.start] == text[..swaps[0].to.start];
  }
}
