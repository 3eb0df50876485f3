/** A document as lines: which block of lines belongs to which flag, and what splicing a block changes
    (internal/goff/yamldoc.go). */
module YamlLines {
  import opened Options
  import opened Strings

  /** A top-level key on the line it was read from, counted from 0. */
  datatype Key = Key(name: string, line: nat)

  predicate IsBlankOrComment(line: string) {
    var t := Trim(line);
    t == "" || t[0] == '#'
  }

  /** Whatever white space is in front: a comment starts with a hash, and a line with anything else matters. */
  lemma {:induction false} MattersExactly(pad: string, said: string)
    requires AllSpace(pad) && (said == "" || !IsSpace(said[0]))
    ensures IsBlankOrComment(pad + said) <==> said == "" || said[0] == '#'
  {
    hide TrimRight, IsSpace;
    TrimLeftPadded(pad, said);
    if said != "" {
      var right := TrimRightSplits(said);
      var t := TrimRight(said);
      StartStays(said);
      assert said == t + right && t[0] == said[0];
    }
  }

  lemma {:induction false} StartStays(s: string)
    requires s != "" && !IsSpace(s[0])
    ensures TrimRight(s) != ""
    decreases |s|
  {
    if |s| > 1 && IsSpace(s[|s| - 1]) {
      StartStays(s[..|s| - 1]);
    }
  }

  /** The keys stand on increasing lines of the text. */
  predicate Laid(keys: seq<Key>, lines: seq<string>) {
    && (forall i | 0 <= i < |keys| :: keys[i].line < |lines|)
    && (forall i, j | 0 <= i < j < |keys| :: keys[i].line < keys[j].line)
  }

  predicate Filler(lines: seq<string>, from: nat, to: nat)
    requires to <= |lines|
  {
    forall k | from <= k < to :: IsBlankOrComment(lines[k])
  }

  /** What is left of `lines[start..limit]` without trailing blank and comment lines, the key's own line aside. */
  function TrimEnd(lines: seq<string>, start: nat, limit: nat): (end: nat)
    requires start < limit <= |lines|
    ensures start < end <= limit
  {
    if limit > start + 1 && IsBlankOrComment(lines[limit - 1]) then TrimEnd(lines, start, limit - 1) else limit
  }

  lemma {:induction false} TrimEndCuts(lines: seq<string>, start: nat, limit: nat)
    requires start < limit <= |lines|
    ensures var end := TrimEnd(lines, start, limit);
            Filler(lines, end, limit) && (end > start + 1 ==> !IsBlankOrComment(lines[end - 1]))
    decreases limit
  {
    hide IsBlankOrComment;
    if limit > start + 1 && IsBlankOrComment(lines[limit - 1]) {
      TrimEndCuts(lines, start, limit - 1);
    }
  }

  /** Where the next key stands, or the end of the text. */
  function Limit(keys: seq<Key>, lines: seq<string>, i: nat): (limit: nat)
    requires Laid(keys, lines) && i < |keys|
    ensures keys[i].line < limit <= |lines|
  {
    if i + 1 < |keys| then keys[i + 1].line else |lines|
  }

  function BlockEnd(keys: seq<Key>, lines: seq<string>, i: nat): (end: nat)
    requires Laid(keys, lines) && i < |keys|
    ensures keys[i].line < end <= |lines|
  {
    TrimEnd(lines, keys[i].line, Limit(keys, lines, i))
  }

  function Block(keys: seq<Key>, lines: seq<string>, i: nat): seq<string>
    requires Laid(keys, lines) && i < |keys|
  {
    lines[keys[i].line..BlockEnd(keys, lines, i)]
  }

  function FirstOf(keys: seq<Key>, name: string): Option<nat> {
    if keys == [] then None
    else if keys[0].name == name then Some(0)
    else
      match FirstOf(keys[1..], name)
      case None => None
      case Some(i) => Some(i + 1)
  }

  lemma {:induction false} FirstOfIsFirst(keys: seq<Key>, name: string)
    ensures match FirstOf(keys, name)
            case None => forall j | 0 <= j < |keys| :: keys[j].name != name
            case Some(i) => i < |keys| && keys[i].name == name && forall j | 0 <= j < i :: keys[j].name != name
    decreases |keys|
  {
    if keys != [] {
      FirstOfIsFirst(keys[1..], name);
      assert forall j | 0 < j < |keys| :: keys[j] == keys[1..][j - 1];
    }
  }

  lemma {:induction false} TrimEndIs(lines: seq<string>, start: nat, limit: nat, end: nat)
    requires start < end <= limit <= |lines| && Filler(lines, end, limit)
    requires end == start + 1 || !IsBlankOrComment(lines[end - 1])
    ensures TrimEnd(lines, start, limit) == end
  {
    hide IsBlankOrComment;
    TrimEndCuts(lines, start, limit);
  }

  /** Lines that were only moved are trimmed alike. */
  lemma {:induction false} MovedLines(lines: seq<string>, text: seq<string>, start: nat, limit: nat, delta: int)
    requires start < limit <= |lines| && 0 <= start + delta && limit + delta <= |text|
    requires forall k | start <= k < limit :: lines[k] == text[k + delta]
    ensures var end := TrimEnd(lines, start, limit);
            && TrimEnd(text, start + delta, limit + delta) == end + delta
            && text[start + delta..end + delta] == lines[start..end]
    decreases limit
  {
    hide IsBlankOrComment;
    assert lines[limit - 1] == text[limit - 1 + delta];
    if limit > start + 1 && IsBlankOrComment(lines[limit - 1]) {
      MovedLines(lines, text, start, limit - 1, delta);
    } else {
      SameSlice(lines, text, start, limit, delta);
    }
  }

  lemma {:induction false} SameSlice(lines: seq<string>, text: seq<string>, start: nat, limit: nat, delta: int)
    requires start <= limit <= |lines| && 0 <= start + delta && limit + delta <= |text|
    requires forall k | start <= k < limit :: lines[k] == text[k + delta]
    ensures text[start + delta..limit + delta] == lines[start..limit]
  {
    forall k | 0 <= k < limit - start
      ensures text[start + delta..limit + delta][k] == lines[start..limit][k]
    {
      assert lines[start + k] == text[start + k + delta];
    }
  }

  // ---------------------------------------------------------------- blocks

  lemma {:induction false} BlockEndCuts(keys: seq<Key>, lines: seq<string>, i: nat)
    requires Laid(keys, lines) && i < |keys|
    ensures var end := BlockEnd(keys, lines, i);
            && Filler(lines, end, Limit(keys, lines, i))
            && (end > keys[i].line + 1 ==> !IsBlankOrComment(lines[end - 1]))
  {
    TrimEndCuts(lines, keys[i].line, Limit(keys, lines, i));
  }

  /** Blocks do not overlap, and between two neighbours, as after the last, there are only blank and comment lines. */
  lemma {:induction false} BlocksApart(keys: seq<Key>, lines: seq<string>, i: nat, j: nat)
    requires Laid(keys, lines) && i < j < |keys|
    ensures BlockEnd(keys, lines, i) <= keys[j].line
    ensures j == i + 1 ==> Filler(lines, BlockEnd(keys, lines, i), keys[j].line)
    ensures Filler(lines, BlockEnd(keys, lines, |keys| - 1), |lines|)
  {
    assert keys[i + 1].line <= keys[j].line;
    BlockEndCuts(keys, lines, i);
    BlockEndCuts(keys, lines, |keys| - 1);
  }

  /** A line that matters stands before the first key or in exactly one block. */
  lemma {:induction false} EveryLineHasABlock(keys: seq<Key>, lines: seq<string>, k: nat)
    requires Laid(keys, lines) && keys != [] && keys[0].line <= k < |lines| && !IsBlankOrComment(lines[k])
    ensures exists i | 0 <= i < |keys| :: keys[i].line <= k < BlockEnd(keys, lines, i)
    ensures forall i, j | 0 <= i < j < |keys| ::
              !(keys[i].line <= k < BlockEnd(keys, lines, i) && keys[j].line <= k < BlockEnd(keys, lines, j))
  {
    hide IsBlankOrComment, TrimEnd;
    var i := 0;
    while i + 1 < |keys| && keys[i + 1].line <= k
      invariant 0 <= i < |keys| && keys[i].line <= k
    {
      i := i + 1;
    }
    assert k < Limit(keys, lines, i);
    BlockEndCuts(keys, lines, i);
    assert k < BlockEnd(keys, lines, i);
    forall i, j | 0 <= i < j < |keys|
      ensures BlockEnd(keys, lines, i) <= keys[j].line
    {
      BlocksApart(keys, lines, i, j);
    }
  }

  // ---------------------------------------------------------------- splicing

  function Spliced(lines: seq<string>, start: nat, end: nat, rendered: seq<string>): seq<string>
    requires start <= end <= |lines|
  {
    lines[..start] + rendered + lines[end..]
  }

  function Moved(keys: seq<Key>, delta: int): seq<Key>
    requires forall i | 0 <= i < |keys| :: keys[i].line + delta >= 0
  {
    seq(|keys|, i requires 0 <= i < |keys| => keys[i].(line := keys[i].line + delta))
  }

  /** How far the later keys move when block `i` is replaced. */
  function Shift(keys: seq<Key>, lines: seq<string>, i: nat, rendered: seq<string>): (delta: int)
    requires Laid(keys, lines) && i < |keys|
    ensures forall j | i < j < |keys| :: keys[j].line + delta >= keys[i].line + |rendered|
  {
    forall j | i < j < |keys|
      ensures keys[j].line >= BlockEnd(keys, lines, i)
    {
      BlocksApart(keys, lines, i, j);
    }
    |rendered| - (BlockEnd(keys, lines, i) - keys[i].line)
  }

  function Replaced(keys: seq<Key>, lines: seq<string>, i: nat, rendered: seq<string>): seq<string>
    requires Laid(keys, lines) && i < |keys|
  {
    Spliced(lines, keys[i].line, BlockEnd(keys, lines, i), rendered)
  }

  function ReplacedKeys(keys: seq<Key>, lines: seq<string>, i: nat, rendered: seq<string>): seq<Key>
    requires Laid(keys, lines) && i < |keys|
  {
    keys[..i + 1] + Moved(keys[i + 1..], Shift(keys, lines, i, rendered))
  }

  /** Each line of the spliced text comes from one place. */
  lemma {:induction false} SplicedAt(lines: seq<string>, start: nat, end: nat, rendered: seq<string>, k: nat)
    requires start <= end <= |lines|
    ensures var now := Spliced(lines, start, end, rendered);
            && |now| == |lines| - (end - start) + |rendered|
            && (k < start ==> now[k] == lines[k])
            && (start <= k < start + |rendered| ==> now[k] == rendered[k - start])
            && (start + |rendered| <= k < |now| ==> now[k] == lines[k - |rendered| + (end - start)])
  {
  }

  lemma {:induction false} LaterLines(lines: seq<string>, start: nat, end: nat, rendered: seq<string>, delta: int)
    requires start <= end <= |lines| && delta == |rendered| - (end - start)
    ensures var now := Spliced(lines, start, end, rendered);
            |now| == |lines| + delta && forall k | end <= k < |lines| :: lines[k] == now[k + delta]
  {
    var now := Spliced(lines, start, end, rendered);
    forall k | end <= k < |lines|
      ensures lines[k] == now[k + delta]
    {
      SplicedAt(lines, start, end, rendered, k + delta);
    }
  }

  lemma {:induction false} ReplacedKeyAt(keys: seq<Key>, lines: seq<string>, i: nat, rendered: seq<string>, j: nat)
    requires Laid(keys, lines) && i < |keys| && j < |keys|
    ensures var now := ReplacedKeys(keys, lines, i, rendered);
            |now| == |keys|
            && now[j].line == keys[j].line + if j <= i then 0 else Shift(keys, lines, i, rendered)
  {
    hide Laid, Shift;
  }

  lemma {:induction false} ShiftIs(keys: seq<Key>, lines: seq<string>, i: nat, rendered: seq<string>)
    requires Laid(keys, lines) && i < |keys|
    ensures Shift(keys, lines, i, rendered) == |rendered| - (BlockEnd(keys, lines, i) - keys[i].line)
  {
    hide Laid, BlockEnd;
  }

  lemma {:induction false} StillLaid(keys: seq<Key>, lines: seq<string>, i: nat, rendered: seq<string>)
    requires Laid(keys, lines) && i < |keys| && rendered != []
    ensures Laid(ReplacedKeys(keys, lines, i, rendered), Replaced(keys, lines, i, rendered))
    ensures |ReplacedKeys(keys, lines, i, rendered)| == |keys|
  {
    hide BlockEnd, IsBlankOrComment, ReplacedKeys, Spliced, Shift;
    var now, text := ReplacedKeys(keys, lines, i, rendered), Replaced(keys, lines, i, rendered);
    ShiftIs(keys, lines, i, rendered);
    LaterLines(lines, keys[i].line, BlockEnd(keys, lines, i), rendered, Shift(keys, lines, i, rendered));
    ReplacedKeyAt(keys, lines, i, rendered, i);
    forall j | 0 <= j < |now|
      ensures now[j].line < |text|
    {
      ReplacedKeyAt(keys, lines, i, rendered, j);
    }
    forall j, k | 0 <= j < k < |now|
      ensures now[j].line < now[k].line
    {
      ReplacedKeyAt(keys, lines, i, rendered, j);
      ReplacedKeyAt(keys, lines, i, rendered, k);
    }
  }

  /** The block of a key that comes before the replaced one stays where it is. */
  lemma {:induction false} EarlierBlock(keys: seq<Key>, lines: seq<string>, i: nat, j: nat, rendered: seq<string>)
    requires Laid(keys, lines) && j < i < |keys| && rendered != []
    ensures Laid(ReplacedKeys(keys, lines, i, rendered), Replaced(keys, lines, i, rendered))
    ensures Block(ReplacedKeys(keys, lines, i, rendered), Replaced(keys, lines, i, rendered), j)
            == Block(keys, lines, j)
  {
    hide IsBlankOrComment, TrimEnd;
    StillLaid(keys, lines, i, rendered);
    BlocksApart(keys, lines, j, i);
    var now, text := ReplacedKeys(keys, lines, i, rendered), Replaced(keys, lines, i, rendered);
    var start, limit := keys[j].line, Limit(keys, lines, j);
    assert now[j] == keys[j] && Limit(now, text, j) == limit <= keys[i].line;
    forall k | start <= k < limit
      ensures lines[k] == text[k + 0]
    {
      SplicedAt(lines, keys[i].line, BlockEnd(keys, lines, i), rendered, k);
    }
    MovedLines(lines, text, start, limit, 0);
  }

  lemma {:induction false} LaterBlock(keys: seq<Key>, lines: seq<string>, i: nat, j: nat, rendered: seq<string>)
    requires Laid(keys, lines) && i < j < |keys| && rendered != []
    ensures Laid(ReplacedKeys(keys, lines, i, rendered), Replaced(keys, lines, i, rendered))
    ensures Block(ReplacedKeys(keys, lines, i, rendered), Replaced(keys, lines, i, rendered), j)
            == Block(keys, lines, j)
  {
    hide IsBlankOrComment, TrimEnd, ReplacedKeys, Spliced;
    StillLaid(keys, lines, i, rendered);
    BlocksApart(keys, lines, i, j);
    var now, text := ReplacedKeys(keys, lines, i, rendered), Replaced(keys, lines, i, rendered);
    var delta, start, limit := Shift(keys, lines, i, rendered), keys[j].line, Limit(keys, lines, j);
    LaterLines(lines, keys[i].line, BlockEnd(keys, lines, i), rendered, delta);
    ReplacedKeyAt(keys, lines, i, rendered, j);
    if j + 1 < |keys| {
      ReplacedKeyAt(keys, lines, i, rendered, j + 1);
    }
    assert now[j].line == start + delta && Limit(now, text, j) == limit + delta;
    MovedLines(lines, text, start, limit, delta);
  }

  lemma {:induction false} OwnBlock(keys: seq<Key>, lines: seq<string>, i: nat, rendered: seq<string>)
    requires Laid(keys, lines) && i < |keys| && rendered != []
    requires |rendered| == 1 || !IsBlankOrComment(rendered[|rendered| - 1])
    ensures Laid(ReplacedKeys(keys, lines, i, rendered), Replaced(keys, lines, i, rendered))
    ensures Block(ReplacedKeys(keys, lines, i, rendered), Replaced(keys, lines, i, rendered), i) == rendered
  {
    hide IsBlankOrComment, TrimEnd;
    BlockEndCuts(keys, lines, i);
    StillLaid(keys, lines, i, rendered);
    var now, text := ReplacedKeys(keys, lines, i, rendered), Replaced(keys, lines, i, rendered);
    var delta, start, end := Shift(keys, lines, i, rendered), keys[i].line, BlockEnd(keys, lines, i);
    var limit, stop := Limit(keys, lines, i), start + |rendered|;
    SplicedAt(lines, start, end, rendered, stop - 1);
    assert now[i] == keys[i] && Limit(now, text, i) == limit + delta;
    forall k | stop <= k < limit + delta
      ensures IsBlankOrComment(text[k])
    {
      SplicedAt(lines, start, end, rendered, k);
    }
    TrimEndIs(text, start, limit + delta, stop);
    forall k | 0 <= k < |rendered|
      ensures text[start..stop][k] == rendered[k]
    {
      SplicedAt(lines, start, end, rendered, start + k);
    }
    assert text[start..stop] == rendered;
  }

  /** Writing one flag leaves the block of every other flag as it was, and its own block is what was rendered. */
  lemma {:induction false} SpliceIsLocal(keys: seq<Key>, lines: seq<string>, i: nat, rendered: seq<string>)
    requires Laid(keys, lines) && i < |keys| && rendered != []
    ensures var now, text := ReplacedKeys(keys, lines, i, rendered), Replaced(keys, lines, i, rendered);
            && Laid(now, text) && |now| == |keys|
            && (forall j | 0 <= j < |keys| && j != i :: Block(now, text, j) == Block(keys, lines, j))
            && (|rendered| == 1 || !IsBlankOrComment(rendered[|rendered| - 1]) ==> Block(now, text, i) == rendered)
  {
    hide IsBlankOrComment, TrimEnd, Block, Replaced, ReplacedKeys;
    StillLaid(keys, lines, i, rendered);
    forall j | 0 <= j < |keys| && j != i
      ensures Block(ReplacedKeys(keys, lines, i, rendered), Replaced(keys, lines, i, rendered), j)
            == Block(keys, lines, j)
    {
      if j < i {
        EarlierBlock(keys, lines, i, j, rendered);
      } else {
        LaterBlock(keys, lines, i, j, rendered);
      }
    }
    if |rendered| == 1 || !IsBlankOrComment(rendered[|rendered| - 1]) {
      OwnBlock(keys, lines, i, rendered);
    }
  }

  // ---------------------------------------------------------------- deleting

  function Removed(keys: seq<Key>, lines: seq<string>, i: nat): seq<string>
    requires Laid(keys, lines) && i < |keys|
  {
    Spliced(lines, keys[i].line, BlockEnd(keys, lines, i), [])
  }

  function RemovedKeys(keys: seq<Key>, lines: seq<string>, i: nat): seq<Key>
    requires Laid(keys, lines) && i < |keys|
  {
    keys[..i] + Moved(keys[i + 1..], Shift(keys, lines, i, []))
  }

  lemma {:induction false} RemovedKeyAt(keys: seq<Key>, lines: seq<string>, i: nat, j: nat)
    requires Laid(keys, lines) && i < |keys| && j < |keys| - 1
    ensures var now := RemovedKeys(keys, lines, i);
            |now| == |keys| - 1
            && now[j].line == if j < i then keys[j].line else keys[j + 1].line + Shift(keys, lines, i, [])
  {
    hide Laid, Shift;
  }

  lemma {:induction false} NoKeyLeft(keys: seq<Key>, lines: seq<string>, i: nat)
    requires Laid(keys, lines) && i < |keys| == 1
    ensures RemovedKeys(keys, lines, i) == []
  {
    hide Laid, Shift;
  }

  lemma {:induction false} LaidWithout(keys: seq<Key>, lines: seq<string>, i: nat)
    requires Laid(keys, lines) && i < |keys|
    ensures Laid(RemovedKeys(keys, lines, i), Removed(keys, lines, i))
    ensures |RemovedKeys(keys, lines, i)| == |keys| - 1
  {
    hide BlockEnd, IsBlankOrComment, RemovedKeys, Spliced, Shift;
    var now, text := RemovedKeys(keys, lines, i), Removed(keys, lines, i);
    var delta := Shift(keys, lines, i, []);
    ShiftIs(keys, lines, i, []);
    LaterLines(lines, keys[i].line, BlockEnd(keys, lines, i), [], delta);
    if |keys| > 1 {
      RemovedKeyAt(keys, lines, i, 0);
    } else {
      NoKeyLeft(keys, lines, i);
    }
    assert keys[i].line <= |text|;
    forall j | 0 <= j < |now|
      ensures now[j].line < |text|
    {
      RemovedKeyAt(keys, lines, i, j);
    }
    forall j, k | 0 <= j < k < |now|
      ensures now[j].line < now[k].line
    {
      RemovedKeyAt(keys, lines, i, j);
      RemovedKeyAt(keys, lines, i, k);
    }
  }

  lemma {:induction false} EarlierStays(keys: seq<Key>, lines: seq<string>, i: nat, j: nat)
    requires Laid(keys, lines) && j < i < |keys|
    ensures Laid(RemovedKeys(keys, lines, i), Removed(keys, lines, i)) && j < |RemovedKeys(keys, lines, i)|
    ensures Block(RemovedKeys(keys, lines, i), Removed(keys, lines, i), j) == Block(keys, lines, j)
  {
    hide IsBlankOrComment, TrimEnd;
    BlockEndCuts(keys, lines, i);
    BlockEndCuts(keys, lines, j);
    LaidWithout(keys, lines, i);
    BlocksApart(keys, lines, j, i);
    var now, text, delta := RemovedKeys(keys, lines, i), Removed(keys, lines, i), Shift(keys, lines, i, []);
    var start, end, cut := keys[j].line, BlockEnd(keys, lines, j), keys[i].line;
    var limit := Limit(now, text, j);
    SplicedAt(lines, cut, BlockEnd(keys, lines, i), [], 0);
    assert now[j] == keys[j];
    assert j + 1 < i ==> now[j + 1] == keys[j + 1];
    assert j + 1 == i < |now| ==> now[j + 1].line == keys[i + 1].line + delta;
    forall k | 0 <= k < limit
      ensures text[k] == if k < cut then lines[k] else lines[k - delta]
    {
      SplicedAt(lines, cut, BlockEnd(keys, lines, i), [], k);
    }
    assert j + 1 < i ==> limit <= cut;
    assert j + 1 == i ==> limit == Limit(keys, lines, i) + delta;
    TrimEndIs(text, start, limit, end);
    assert text[start..end] == lines[start..end];
  }

  lemma {:induction false} LaterStays(keys: seq<Key>, lines: seq<string>, i: nat, j: nat)
    requires Laid(keys, lines) && i < j < |keys|
    ensures Laid(RemovedKeys(keys, lines, i), Removed(keys, lines, i)) && j - 1 < |RemovedKeys(keys, lines, i)|
    ensures Block(RemovedKeys(keys, lines, i), Removed(keys, lines, i), j - 1) == Block(keys, lines, j)
  {
    hide IsBlankOrComment, TrimEnd, RemovedKeys, Spliced;
    LaidWithout(keys, lines, i);
    BlocksApart(keys, lines, i, j);
    var now, text, delta := RemovedKeys(keys, lines, i), Removed(keys, lines, i), Shift(keys, lines, i, []);
    var start, limit := keys[j].line, Limit(keys, lines, j);
    LaterLines(lines, keys[i].line, BlockEnd(keys, lines, i), [], delta);
    RemovedKeyAt(keys, lines, i, j - 1);
    if j + 1 < |keys| {
      RemovedKeyAt(keys, lines, i, j);
    }
    assert now[j - 1].line == start + delta && Limit(now, text, j - 1) == limit + delta;
    MovedLines(lines, text, start, limit, delta);
  }

  /** Deleting one flag takes its block out and leaves the block of every other flag as it was. */
  lemma {:induction false} DeleteIsLocal(keys: seq<Key>, lines: seq<string>, i: nat)
    requires Laid(keys, lines) && i < |keys|
    ensures var now, text := RemovedKeys(keys, lines, i), Removed(keys, lines, i);
            && Laid(now, text) && |now| == |keys| - 1
            && (forall j | 0 <= j < i :: Block(now, text, j) == Block(keys, lines, j))
            && (forall j | i < j < |keys| :: Block(now, text, j - 1) == Block(keys, lines, j))
  {
    hide IsBlankOrComment, TrimEnd, Block, Removed, RemovedKeys;
    LaidWithout(keys, lines, i);
    forall j | 0 <= j < i
      ensures Block(RemovedKeys(keys, lines, i), Removed(keys, lines, i), j) == Block(keys, lines, j)
    {
      EarlierStays(keys, lines, i, j);
    }
    forall j | i < j < |keys|
      ensures Block(RemovedKeys(keys, lines, i), Removed(keys, lines, i), j - 1) == Block(keys, lines, j)
    {
      LaterStays(keys, lines, i, j);
    }
  }

  // ---------------------------------------------------------------- appending

  function WithoutBlankEnd(lines: seq<string>): (r: seq<string>)
    ensures r <= lines
    ensures r == [] || Trim(r[|r| - 1]) != ""
    ensures forall k | |r| <= k < |lines| :: Trim(lines[k]) == ""
  {
    if lines != [] && Trim(lines[|lines| - 1]) == "" then WithoutBlankEnd(lines[..|lines| - 1]) else lines
  }

  function Appended(lines: seq<string>, rendered: seq<string>): seq<string> {
    WithoutBlankEnd(lines) + rendered
  }

  function AppendedKeys(keys: seq<Key>, lines: seq<string>, name: string): seq<Key> {
    keys + [Key(name, |WithoutBlankEnd(lines)|)]
  }

  lemma {:induction false} BlockBeforeBlankEnd(keys: seq<Key>, lines: seq<string>, j: nat)
    requires Laid(keys, lines) && j < |keys| && Trim(lines[keys[j].line]) != ""
    ensures BlockEnd(keys, lines, j) <= |WithoutBlankEnd(lines)|
  {
    hide WithoutBlankEnd, Trim, Laid;
    BlockEndCuts(keys, lines, j);
  }

  lemma {:induction false} AppendedBlock(keys: seq<Key>, lines: seq<string>, name: string, rendered: seq<string>,
                                         j: nat)
    requires Laid(keys, lines) && j < |keys| && forall i | 0 <= i < |keys| :: Trim(lines[keys[i].line]) != ""
    requires Laid(AppendedKeys(keys, lines, name), Appended(lines, rendered))
    ensures Block(AppendedKeys(keys, lines, name), Appended(lines, rendered), j) == Block(keys, lines, j)
  {
    hide WithoutBlankEnd, IsBlankOrComment, Laid, TrimEnd;
    var now, text := AppendedKeys(keys, lines, name), Appended(lines, rendered);
    var start, end, limit := keys[j].line, BlockEnd(keys, lines, j), Limit(now, text, j);
    BlockEndCuts(keys, lines, j);
    BlockBeforeBlankEnd(keys, lines, j);
    if j + 1 < |keys| {
      BlockBeforeBlankEnd(keys, lines, j + 1);
    }
    var kept := WithoutBlankEnd(lines);
    assert now[j] == keys[j];
    assert j + 1 < |keys| ==> now[j + 1] == keys[j + 1];
    assert limit <= |kept| && limit <= Limit(keys, lines, j);
    forall k | 0 <= k < limit
      ensures text[k] == lines[k]
    {
      assert text[k] == kept[k];
    }
    TrimEndIs(text, start, limit, end);
    assert text[start..end] == lines[start..end];
  }

  /** Adding a flag at the end leaves the block of every flag that was there as it was. */
  lemma {:induction false} AppendIsLocal(keys: seq<Key>, lines: seq<string>, name: string, rendered: seq<string>)
    requires Laid(keys, lines) && rendered != []
    requires forall i | 0 <= i < |keys| :: Trim(lines[keys[i].line]) != ""
    ensures var now, text := AppendedKeys(keys, lines, name), Appended(lines, rendered);
            && Laid(now, text)
            && (forall j | 0 <= j < |keys| :: Block(now, text, j) == Block(keys, lines, j))
            && (|rendered| == 1 || !IsBlankOrComment(rendered[|rendered| - 1]) ==> Block(now, text, |keys|) == rendered)
  {
    hide WithoutBlankEnd, IsBlankOrComment, TrimEnd, Trim;
    var now, text := AppendedKeys(keys, lines, name), Appended(lines, rendered);
    var kept := |WithoutBlankEnd(lines)|;
    forall i | 0 <= i < |keys|
      ensures keys[i].line < kept
    {
      BlockBeforeBlankEnd(keys, lines, i);
    }
    assert Laid(now, text);
    forall j | 0 <= j < |keys|
      ensures Block(now, text, j) == Block(keys, lines, j)
    {
      AppendedBlock(keys, lines, name, rendered, j);
    }
    if |rendered| == 1 || !IsBlankOrComment(rendered[|rendered| - 1]) {
      assert text[|text| - 1] == rendered[|rendered| - 1];
      TrimEndIs(text, kept, |text|, |text|);
      assert text[kept..|text|] == rendered;
    }
  }
}
