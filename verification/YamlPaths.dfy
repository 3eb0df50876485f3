/** What a merge leaves alone: wherever the values already agree, the original node stays
    (internal/goff/yamldoc.go). */
module YamlPaths {
  import opened Options
  import opened YamlTree

  datatype Step = Field(key: string) | Item(index: nat)

  /** A node with the anchors known where it stands. */
  datatype Place = Place(env: Env, node: Node)

  function InEntries(env: Env, entries: seq<Entry>, key: string): Option<Place>
    decreases |entries|
  {
    if entries == [] then None
    else if entries[0].key == key then Some(Place(env, entries[0].node))
    else InEntries(After(env, entries[0].node), entries[1..], key)
  }

  function InItems(env: Env, items: seq<Node>, i: nat): Option<Place>
    decreases |items|
  {
    if items == [] then None
    else if i == 0 then Some(Place(env, items[0]))
    else InItems(After(env, items[0]), items[1..], i - 1)
  }

  /** One step down; an alias is not looked through. */
  function Child(p: Place, step: Step): Option<Place> {
    match (p.node, step)
    case (Mapping(entries, _, _), Field(key)) => InEntries(p.env, entries, key)
    case (Sequence(items, _, _), Item(i)) => InItems(p.env, items, i)
    case _ => None
  }

  function At(p: Place, path: seq<Step>): Option<Place>
    decreases |path|
  {
    if path == [] then Some(p)
    else
      match Child(p, path[0])
      case None => None
      case Some(child) => At(child, path[1..])
  }

  function ValueAt(p: Place): Datum {
    Value(p.env, p.node)
  }

  predicate MergesAt(p: Place, next: Node) {
    Plain(next) && UniqueKeys(p.node) && UniqueKeys(next) && Merge(p.env, p.node, next).Ok?
  }

  function MergedAt(p: Place, next: Node): Place
    requires MergesAt(p, next)
  {
    Place(p.env, Merge(p.env, p.node, next).value)
  }

  // ---------------------------------------------------------------- one step

  lemma {:induction false} InEntriesHas(env: Env, entries: seq<Entry>, key: string)
    ensures InEntries(env, entries, key).Some? <==> HasKey(entries, key)
    decreases |entries|
  {
    if entries != [] {
      HasKeyFirst(entries, key);
      InEntriesHas(After(env, entries[0].node), entries[1..], key);
    }
  }

  lemma {:induction false} InEntriesOneOf(env: Env, entries: seq<Entry>, key: string) returns (i: nat)
    requires HasKey(entries, key)
    ensures i < |entries| && entries[i].key == key
    ensures InEntries(env, entries, key).Some? && InEntries(env, entries, key).value.node == entries[i].node
    decreases |entries|
  {
    if entries[0].key == key {
      i := 0;
    } else {
      HasKeyFirst(entries, key);
      i := InEntriesOneOf(After(env, entries[0].node), entries[1..], key);
      i := i + 1;
    }
  }

  lemma {:induction false} InItemsOneOf(env: Env, items: seq<Node>, i: nat)
    requires InItems(env, items, i).Some?
    ensures i < |items| && InItems(env, items, i).value.node == items[i]
    decreases |items|
  {
    if i > 0 {
      InItemsOneOf(After(env, items[0]), items[1..], i - 1);
    }
  }

  /** With distinct keys the wanted node of a key is the only one. */
  lemma {:induction false} WantedIsTheOne(env: Env, entries: seq<Entry>, key: string)
    requires HasKey(entries, key) && DistinctKeys(entries)
    ensures InEntries(env, entries, key).Some? && InEntries(env, entries, key).value.node == Wanted(entries, key)
    decreases |entries|
  {
    WantedFirst(entries, key);
    HasKeyFirst(entries, key);
    if entries[0].key != key {
      WantedIsTheOne(After(env, entries[0].node), entries[1..], key);
    }
  }

  lemma {:induction false} InEntriesConcat(env: Env, a: seq<Entry>, b: seq<Entry>, key: string)
    requires HasKey(a, key)
    ensures InEntries(env, a + b, key) == InEntries(env, a, key)
    decreases |a|
  {
    assert (a + b)[0] == a[0] && (a + b)[1..] == a[1..] + b;
    HasKeyFirst(a, key);
    if a[0].key != key {
      InEntriesConcat(After(env, a[0].node), a[1..], b, key);
    }
  }

  /** The kept entry of a key both have is the merge of the two, where the original stood. */
  lemma {:induction false} MergedEntry(env: Env, orig: seq<Entry>, next: seq<Entry>, key: string)
    requires MergeEntries(env, orig, next).Ok? && forall i | 0 <= i < |next| :: Plain(next[i].node)
    requires HasKey(orig, key) && HasKey(next, key) && DistinctKeys(orig)
    ensures var at := InEntries(env, orig, key);
            var kept := MergeEntries(env, orig, next).value;
            && at.Some? && Merge(at.value.env, at.value.node, Wanted(next, key)).Ok?
            && HasKey(kept, key)
            && InEntries(env, kept, key) ==
               Some(Place(at.value.env, Merge(at.value.env, at.value.node, Wanted(next, key)).value))
    decreases |orig|
  {
    var Entry(first, look, node) := orig[0];
    var later := After(env, node);
    var kept := MergeEntries(env, orig, next).value;
    HasKeyFirst(orig, key);
    if !HasKey(next, first) {
      NoAnchorNoChange(env, node);
      MergedEntry(env, orig[1..], next, key);
    } else {
      var child := Merge(env, node, Wanted(next, first)).value;
      WantedIsPlain(next, first);
      MergeGood(env, node, Wanted(next, first));
      assert kept[0] == Entry(first, look, child) && kept[1..] == MergeEntries(later, orig[1..], next).value;
      if first != key {
        MergedEntry(later, orig[1..], next, key);
      }
      HasKeyFirst(kept, key);
    }
  }

  lemma {:induction false} MergedItem(env: Env, orig: seq<Node>, next: seq<Node>, i: nat)
    requires MergeItems(env, orig, next).Ok? && forall k | 0 <= k < |next| :: Plain(next[k])
    requires i < |orig| && i < |next|
    ensures var at := InItems(env, orig, i);
            && at.Some? && Merge(at.value.env, at.value.node, next[i]).Ok?
            && InItems(env, MergeItems(env, orig, next).value, i) ==
               Some(Place(at.value.env, Merge(at.value.env, at.value.node, next[i]).value))
    decreases |orig|
  {
    var items := MergeItems(env, orig, next).value;
    MergeGood(env, orig[0], next[0]);
    assert items[1..] == MergeItems(After(env, orig[0]), orig[1..], next[1..]).value;
    if i > 0 {
      MergedItem(After(env, orig[0]), orig[1..], next[1..], i - 1);
    }
  }

  /** One step below a changed node, the merge is the merge of the two children. */
  lemma {:induction false} MergeStep(p: Place, next: Node, env: Env, step: Step)
    requires MergesAt(p, next) && Value(p.env, p.node) != Value(p.env, next)
    requires Child(p, step).Some? && Child(Place(env, next), step).Some?
    ensures var wanted := Child(Place(env, next), step).value.node;
            && MergesAt(Child(p, step).value, wanted)
            && Child(MergedAt(p, next), step) == Some(MergedAt(Child(p, step).value, wanted))
  {
    match step {
      case Field(key) =>
        var orig, entries := p.node.entries, next.entries;
        InEntriesHas(p.env, orig, key);
        InEntriesHas(env, entries, key);
        WantedIsTheOne(env, entries, key);
        var i := InEntriesOneOf(p.env, orig, key);
        var j := InEntriesOneOf(env, entries, key);
        MergedEntry(p.env, orig, entries, key);
        InEntriesConcat(p.env, MergeEntries(p.env, orig, entries).value, Added(orig, entries), key);
      case Item(i) =>
        InItemsOneOf(p.env, p.node.items, i);
        InItemsOneOf(env, next.items, i);
        MergedItem(p.env, p.node.items, next.items, i);
    }
  }

  // ---------------------------------------------------------------- any depth

  lemma {:induction false} PlainBelow(p: Place, step: Step)
    requires Plain(p.node) && Child(p, step).Some?
    ensures Plain(Child(p, step).value.node)
  {
    match step {
      case Field(key) =>
        InEntriesHas(p.env, p.node.entries, key);
        var i := InEntriesOneOf(p.env, p.node.entries, key);
      case Item(i) => InItemsOneOf(p.env, p.node.items, i);
    }
  }

  lemma {:induction false} PlainAt(p: Place, path: seq<Step>)
    requires Plain(p.node) && At(p, path).Some?
    ensures Plain(At(p, path).value.node)
    decreases |path|
  {
    if path != [] {
      PlainBelow(p, path[0]);
      PlainAt(Child(p, path[0]).value, path[1..]);
    }
  }

  /** Wherever the original says what the new value says, the merge has the original node itself, comments, style,
      anchors and aliases included, seeing the same anchors. */
  lemma {:induction false} MergeKeepsAgreeing(p: Place, next: Node, env: Env, path: seq<Step>)
    requires MergesAt(p, next)
    requires At(p, path).Some? && At(Place(env, next), path).Some?
    requires ValueAt(At(p, path).value) == ValueAt(At(Place(env, next), path).value)
    ensures At(MergedAt(p, next), path) == At(p, path)
    decreases |path|
  {
    hide Merge, Child, Plain, UniqueKeys;
    if path == [] {
      PlainValue(p.env, env, next);
      MergeOfAgreeing(p, next);
    } else if Value(p.env, p.node) == Value(p.env, next) {
      MergeOfAgreeing(p, next);
    } else {
      MergeStep(p, next, env, path[0]);
      var child := Child(Place(env, next), path[0]).value;
      MergeKeepsAgreeing(Child(p, path[0]).value, child.node, child.env, path[1..]);
    }
  }

  lemma {:induction false} MergeOfAgreeing(p: Place, next: Node)
    requires Value(p.env, p.node) == Value(p.env, next)
    ensures Merge(p.env, p.node, next) == Ok(p.node)
  {
  }

  /** No merge is refused when the original holds no anchor. */
  lemma {:induction false} MergeWithoutAnchors(env: Env, orig: Node, next: Node)
    requires !HasAnchor(orig)
    ensures Merge(env, orig, next).Ok?
    decreases orig, 1
  {
    if orig.Mapping? && next.Mapping? {
      EntriesWithoutAnchors(env, orig.entries, next.entries);
    } else if orig.Sequence? && next.Sequence? {
      ItemsWithoutAnchors(env, orig.items, next.items);
    }
  }

  lemma {:induction false} EntriesWithoutAnchors(env: Env, orig: seq<Entry>, next: seq<Entry>)
    requires forall i | 0 <= i < |orig| :: !HasAnchor(orig[i].node)
    ensures MergeEntries(env, orig, next).Ok?
    decreases orig, 0
  {
    if orig != [] {
      var Entry(key, look, node) := orig[0];
      EntriesWithoutAnchors(After(env, node), orig[1..], next);
      if HasKey(next, key) {
        MergeWithoutAnchors(env, node, Wanted(next, key));
      }
    }
  }

  lemma {:induction false} ItemsWithoutAnchors(env: Env, orig: seq<Node>, next: seq<Node>)
    requires forall i | 0 <= i < |orig| :: !HasAnchor(orig[i])
    ensures MergeItems(env, orig, next).Ok?
    decreases orig, 0
  {
    if orig != [] {
      if next == [] {
        ItemsWithoutAnchors(After(env, orig[0]), orig[1..], next);
      } else {
        MergeWithoutAnchors(env, orig[0], next[0]);
        ItemsWithoutAnchors(After(env, orig[0]), orig[1..], next[1..]);
      }
    }
  }
}
