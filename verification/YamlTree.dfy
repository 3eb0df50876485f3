/** YAML documents as trees, and the node merge that edits them (internal/goff/yamldoc.go). An alias stands for the
    last anchor of its name that comes before it in the document. */
module YamlTree {
  import opened Collections
  import opened Options

  /** What decoding leaves out: comments, style and place. */
  datatype Look = Look(head: string, line: string, foot: string, style: nat, row: nat)

  /** A decoded value. A scalar is its type and how it prints, which is all `deepEqual` compares. */
  datatype Datum =
    | Atom(kind: string, text: string)
    | Table(fields: map<string, Datum>)
    | List(items: seq<Datum>)
    | Dangling

  datatype Entry = Entry(key: string, keyLook: Look, node: Node)

  datatype Node =
    | Scalar(tag: string, atom: Datum, anchor: string, look: Look)
    | Mapping(entries: seq<Entry>, anchor: string, look: Look)
    | Sequence(items: seq<Node>, anchor: string, look: Look)
    | Alias(name: string, look: Look)

  type Env = map<string, Datum>

  function AnchorOf(n: Node): string {
    if n.Alias? then "" else n.anchor
  }

  function Bind(env: Env, anchor: string, d: Datum): Env {
    if anchor == "" then env else env[anchor := d]
  }

  // ---------------------------------------------------------------- decoding

  /** The value of a node, read after the anchors in `env`. */
  function Value(env: Env, n: Node): Datum
    decreases n, 0
  {
    match n
    case Scalar(_, atom, _, _) => atom
    case Mapping(entries, _, _) => Table(FieldsOf(env, entries))
    case Sequence(items, _, _) => List(ItemsOf(env, items))
    case Alias(name, _) => if name in env then env[name] else Dangling
  }

  function FieldsOf(env: Env, entries: seq<Entry>): map<string, Datum>
    decreases entries, 0
  {
    if entries == [] then map[]
    else
      map[entries[0].key := Value(env, entries[0].node)] + FieldsOf(After(env, entries[0].node), entries[1..])
  }

  function ItemsOf(env: Env, items: seq<Node>): seq<Datum>
    decreases items, 0
  {
    if items == [] then [] else [Value(env, items[0])] + ItemsOf(After(env, items[0]), items[1..])
  }

  /** The anchors known after a node. */
  function After(env: Env, n: Node): Env
    decreases n, 1
  {
    match n
    case Scalar(_, atom, anchor, _) => Bind(env, anchor, atom)
    case Mapping(entries, anchor, _) => Bind(AfterEntries(env, entries), anchor, Value(env, n))
    case Sequence(items, anchor, _) => Bind(AfterItems(env, items), anchor, Value(env, n))
    case Alias(_, _) => env
  }

  function AfterEntries(env: Env, entries: seq<Entry>): Env
    decreases entries, 1
  {
    if entries == [] then env else AfterEntries(After(env, entries[0].node), entries[1..])
  }

  function AfterItems(env: Env, items: seq<Node>): Env
    decreases items, 1
  {
    if items == [] then env else AfterItems(After(env, items[0]), items[1..])
  }

  // ---------------------------------------------------------------- anchors

  /** `anchorIn` finds something. */
  predicate HasAnchor(n: Node)
    decreases n
  {
    match n
    case Alias(_, _) => false
    case Scalar(_, _, anchor, _) => anchor != ""
    case Mapping(entries, anchor, _) => anchor != "" || exists i | 0 <= i < |entries| :: HasAnchor(entries[i].node)
    case Sequence(items, anchor, _) => anchor != "" || exists i | 0 <= i < |items| :: HasAnchor(items[i])
  }

  /** Every anchored node inside, whole, in document order. */
  function Anchored(n: Node): seq<Node>
    decreases n, 0
  {
    var inside := match n
      case Mapping(entries, _, _) => AnchoredEntries(entries)
      case Sequence(items, _, _) => AnchoredItems(items)
      case _ => [];
    if AnchorOf(n) == "" then inside else [n] + inside
  }

  function AnchoredEntries(entries: seq<Entry>): seq<Node>
    decreases entries, 0
  {
    if entries == [] then [] else Anchored(entries[0].node) + AnchoredEntries(entries[1..])
  }

  function AnchoredItems(items: seq<Node>): seq<Node>
    decreases items, 0
  {
    if items == [] then [] else Anchored(items[0]) + AnchoredItems(items[1..])
  }

  /** Neither anchors nor aliases: a node that was just made from a value. */
  predicate Plain(n: Node)
    decreases n
  {
    match n
    case Alias(_, _) => false
    case Scalar(_, _, anchor, _) => anchor == ""
    case Mapping(entries, anchor, _) => anchor == "" && forall i | 0 <= i < |entries| :: Plain(entries[i].node)
    case Sequence(items, anchor, _) => anchor == "" && forall i | 0 <= i < |items| :: Plain(items[i])
  }

  /** No mapping inside has a key twice. */
  predicate UniqueKeys(n: Node)
    decreases n
  {
    match n
    case Mapping(entries, _, _) => DistinctKeys(entries) && forall i | 0 <= i < |entries| :: UniqueKeys(entries[i].node)
    case Sequence(items, _, _) => forall i | 0 <= i < |items| :: UniqueKeys(items[i])
    case _ => true
  }

  predicate DistinctKeys(entries: seq<Entry>) {
    forall i, j | 0 <= i < j < |entries| :: entries[i].key != entries[j].key
  }

  lemma {:induction false} NoAnchorNoChange(env: Env, n: Node)
    requires !HasAnchor(n)
    ensures After(env, n) == env && Anchored(n) == []
    decreases n, 1
  {
    match n {
      case Mapping(entries, _, _) => NoAnchorEntries(env, entries);
      case Sequence(items, _, _) => NoAnchorItems(env, items);
      case _ =>
    }
  }

  lemma {:induction false} NoAnchorEntries(env: Env, entries: seq<Entry>)
    requires forall i | 0 <= i < |entries| :: !HasAnchor(entries[i].node)
    ensures AfterEntries(env, entries) == env && AnchoredEntries(entries) == []
    decreases entries, 0
  {
    if entries != [] {
      NoAnchorNoChange(env, entries[0].node);
      NoAnchorEntries(env, entries[1..]);
    }
  }

  lemma {:induction false} NoAnchorItems(env: Env, items: seq<Node>)
    requires forall i | 0 <= i < |items| :: !HasAnchor(items[i])
    ensures AfterItems(env, items) == env && AnchoredItems(items) == []
    decreases items, 0
  {
    if items != [] {
      NoAnchorNoChange(env, items[0]);
      NoAnchorItems(env, items[1..]);
    }
  }

  lemma {:induction false} PlainHasNoAnchor(n: Node)
    requires Plain(n)
    ensures !HasAnchor(n)
    decreases n
  {
    match n {
      case Mapping(entries, _, _) =>
        forall i | 0 <= i < |entries|
          ensures !HasAnchor(entries[i].node)
        {
          PlainHasNoAnchor(entries[i].node);
        }
      case Sequence(items, _, _) =>
        forall i | 0 <= i < |items|
          ensures !HasAnchor(items[i])
        {
          PlainHasNoAnchor(items[i]);
        }
      case _ =>
    }
  }

  /** A plain node means the same anywhere. */
  lemma {:induction false} PlainValue(env: Env, other: Env, n: Node)
    requires Plain(n)
    ensures Value(env, n) == Value(other, n)
    decreases n, 1
  {
    match n {
      case Mapping(entries, _, _) => PlainFields(env, other, entries);
      case Sequence(items, _, _) => PlainItems(env, other, items);
      case _ =>
    }
  }

  lemma {:induction false} PlainFields(env: Env, other: Env, entries: seq<Entry>)
    requires forall i | 0 <= i < |entries| :: Plain(entries[i].node)
    ensures FieldsOf(env, entries) == FieldsOf(other, entries)
    decreases entries, 0
  {
    if entries != [] {
      PlainValue(env, other, entries[0].node);
      PlainHasNoAnchor(entries[0].node);
      NoAnchorNoChange(env, entries[0].node);
      NoAnchorNoChange(other, entries[0].node);
      PlainFields(env, other, entries[1..]);
    }
  }

  lemma {:induction false} PlainItems(env: Env, other: Env, items: seq<Node>)
    requires forall i | 0 <= i < |items| :: Plain(items[i])
    ensures ItemsOf(env, items) == ItemsOf(other, items)
    decreases items, 0
  {
    if items != [] {
      PlainValue(env, other, items[0]);
      PlainHasNoAnchor(items[0]);
      NoAnchorNoChange(env, items[0]);
      NoAnchorNoChange(other, items[0]);
      PlainItems(env, other, items[1..]);
    }
  }

  // ---------------------------------------------------------------- merging

  predicate HasKey(entries: seq<Entry>, key: string) {
    exists i | 0 <= i < |entries| :: entries[i].key == key
  }

  /** The value node of a key; the last one, as in the map `mergeNode` builds. */
  function Wanted(entries: seq<Entry>, key: string): Node
    requires HasKey(entries, key)
  {
    var n := |entries| - 1;
    if entries[n].key == key then entries[n].node else Wanted(entries[..n], key)
  }

  const FRESH := Look("", "", "", 0, 0)

  /** The new node in the old one's place: it takes over the comments, and the style of a scalar of the same tag. */
  function InPlaceOf(orig: Node, next: Node): Node {
    var style := if orig.Scalar? && next.Scalar? && orig.tag == next.tag then orig.look.style else next.look.style;
    next.(look := Look(orig.look.head, orig.look.line, orig.look.foot, style, next.look.row))
  }

  /** `mergeNode`; an error is an anchored value that would change or go. */
  function Merge(env: Env, orig: Node, next: Node): Result<Node>
    decreases orig, 1
  {
    if Value(env, orig) == Value(env, next) then Ok(orig)
    else if AnchorOf(orig) != "" then Err
    else if orig.Mapping? && next.Mapping? then
      match MergeEntries(env, orig.entries, next.entries)
      case Err => Err
      case Ok(kept) => Ok(orig.(entries := kept + Added(orig.entries, next.entries)))
    else if orig.Sequence? && next.Sequence? then
      match MergeItems(env, orig.items, next.items)
      case Err => Err
      case Ok(items) => Ok(orig.(items := items))
    else if HasAnchor(orig) then Err
    else Ok(InPlaceOf(orig, next))
  }

  /** The old entries that stay, merged; one that goes must hold no anchor. */
  function MergeEntries(env: Env, orig: seq<Entry>, next: seq<Entry>): Result<seq<Entry>>
    decreases orig, 0
  {
    if orig == [] then Ok([])
    else
      var Entry(key, keyLook, node) := orig[0];
      var rest := MergeEntries(After(env, node), orig[1..], next);
      if !HasKey(next, key) then
        if HasAnchor(node) then Err else rest
      else
        match Merge(env, node, Wanted(next, key))
        case Err => Err
        case Ok(child) =>
          match rest
          case Err => Err
          case Ok(entries) => Ok([Entry(key, keyLook, child)] + entries)
  }

  /** The new entries, in their order. */
  function Added(orig: seq<Entry>, next: seq<Entry>): seq<Entry> {
    AddedFrom(orig, next, next)
  }

  function AddedFrom(orig: seq<Entry>, next: seq<Entry>, left: seq<Entry>): seq<Entry>
    requires forall i | 0 <= i < |left| :: HasKey(next, left[i].key)
  {
    if left == [] then []
    else
      (if HasKey(orig, left[0].key) then [] else [Entry(left[0].key, FRESH, Wanted(next, left[0].key))])
      + AddedFrom(orig, next, left[1..])
  }

  function MergeItems(env: Env, orig: seq<Node>, next: seq<Node>): Result<seq<Node>>
    decreases orig, 0
  {
    if orig == [] then Ok(next)
    else if next == [] then
      if HasAnchor(orig[0]) then Err else MergeItems(After(env, orig[0]), orig[1..], next)
    else
      match Merge(env, orig[0], next[0])
      case Err => Err
      case Ok(child) =>
        match MergeItems(After(env, orig[0]), orig[1..], next[1..])
        case Err => Err
        case Ok(items) => Ok([child] + items)
  }

  // ---------------------------------------------------------------- what a merge keeps

  lemma {:induction false} MapsConcat<K, V>(a: map<K, V>, b: map<K, V>, c: map<K, V>)
    ensures a + (b + c) == a + b + c
  {
  }

  lemma {:induction false} EntriesConcat(env: Env, a: seq<Entry>, b: seq<Entry>)
    ensures AfterEntries(env, a + b) == AfterEntries(AfterEntries(env, a), b)
    ensures AnchoredEntries(a + b) == AnchoredEntries(a) + AnchoredEntries(b)
    ensures FieldsOf(env, a + b) == FieldsOf(env, a) + FieldsOf(AfterEntries(env, a), b)
    decreases |a|
  {
    hide After, Value, Anchored, FieldsOf;
    FieldsConcat(env, a, b);
    if a == [] {
      assert a + b == b;
    } else {
      assert (a + b)[1..] == a[1..] + b && (a + b)[0] == a[0];
      EntriesConcat(After(env, a[0].node), a[1..], b);
      Concat3(Anchored(a[0].node), AnchoredEntries(a[1..]), AnchoredEntries(b));
    }
  }

  lemma {:induction false} FieldsConcat(env: Env, a: seq<Entry>, b: seq<Entry>)
    ensures FieldsOf(env, a + b) == FieldsOf(env, a) + FieldsOf(AfterEntries(env, a), b)
    decreases |a|
  {
    hide After, Value, Anchored;
    if a == [] {
      assert a + b == b;
    } else {
      var later := After(env, a[0].node);
      assert (a + b)[1..] == a[1..] + b && (a + b)[0] == a[0];
      FieldsConcat(later, a[1..], b);
      MapsConcat(map[a[0].key := Value(env, a[0].node)], FieldsOf(later, a[1..]), FieldsOf(AfterEntries(env, a), b));
    }
  }

  lemma {:induction false} HasKeyFirst(entries: seq<Entry>, key: string)
    requires entries != []
    ensures HasKey(entries, key) <==> entries[0].key == key || HasKey(entries[1..], key)
  {
    if HasKey(entries, key) {
      var i :| 0 <= i < |entries| && entries[i].key == key;
      assert i > 0 ==> entries[1..][i - 1].key == key;
    }
    if HasKey(entries[1..], key) {
      var i :| 0 <= i < |entries| - 1 && entries[1..][i].key == key;
      assert entries[i + 1].key == key;
    }
  }

  lemma {:induction false} WantedFirst(entries: seq<Entry>, key: string)
    requires HasKey(entries, key)
    ensures Wanted(entries, key) ==
            if HasKey(entries[1..], key) then Wanted(entries[1..], key) else entries[0].node
    decreases |entries|
  {
    var n := |entries| - 1;
    HasKeyFirst(entries, key);
    if entries[n].key == key {
      if n > 0 {
        assert entries[1..][n - 1] == entries[n];
      }
    } else {
      var shorter := entries[..n];
      assert HasKey(shorter, key);
      WantedFirst(shorter, key);
      assert shorter[1..] == entries[1..][..n - 1];
      HasKeyFirst(shorter, key);
      if HasKey(entries[1..], key) {
        assert entries[1..][n - 1].key != key;
        assert HasKey(entries[1..][..n - 1], key);
      }
    }
  }

  lemma {:induction false} WantedIsPlain(entries: seq<Entry>, key: string)
    requires HasKey(entries, key) && forall i | 0 <= i < |entries| :: Plain(entries[i].node)
    ensures Plain(Wanted(entries, key))
    decreases |entries|
  {
    var n := |entries| - 1;
    if entries[n].key != key {
      WantedIsPlain(entries[..n], key);
    }
  }

  /** Decoding plain entries gives every key its wanted node's value. */
  lemma {:induction false} PlainFieldsAt(env: Env, entries: seq<Entry>)
    requires forall i | 0 <= i < |entries| :: Plain(entries[i].node)
    ensures var m := FieldsOf(env, entries);
            && (forall k :: k in m <==> HasKey(entries, k))
            && (forall k | k in m :: m[k] == Value(env, Wanted(entries, k)))
    decreases |entries|
  {
    if entries != [] {
      var node := entries[0].node;
      PlainHasNoAnchor(node);
      NoAnchorNoChange(env, node);
      PlainFieldsAt(env, entries[1..]);
      var m := FieldsOf(env, entries);
      forall k
        ensures k in m <==> HasKey(entries, k)
        ensures k in m ==> m[k] == Value(env, Wanted(entries, k))
      {
        HasKeyFirst(entries, k);
        if HasKey(entries, k) {
          WantedFirst(entries, k);
        }
      }
    }
  }

  predicate SameAnchors(env: Env, a: Node, b: Node) {
    Anchored(a) == Anchored(b) && After(env, a) == After(env, b)
  }

  /** The value, the anchors and everything later aliases can see. */
  predicate MergedWell(env: Env, orig: Node, next: Node, merged: Node) {
    Value(env, merged) == Value(env, next) && SameAnchors(env, merged, orig)
  }

  /** A merge that succeeds has exactly the new value; it keeps every anchored node of the original, whole and in
      order; and every later alias sees what it saw before. */
  lemma {:induction false} MergeGood(env: Env, orig: Node, next: Node)
    requires Plain(next) && Merge(env, orig, next).Ok?
    ensures MergedWell(env, orig, next, Merge(env, orig, next).value)
    decreases orig, 1
  {
    if Value(env, orig) != Value(env, next) && AnchorOf(orig) == "" {
      if orig.Mapping? && next.Mapping? {
        MergeEntriesGood(env, orig.entries, next.entries);
        var kept := MergeEntries(env, orig.entries, next.entries).value;
        MappingGood(env, orig, next, kept);
      } else if orig.Sequence? && next.Sequence? {
        MergeItemsGood(env, orig.items, next.items);
      } else {
        InPlaceGood(env, orig, next);
      }
    }
  }

  lemma {:induction false} InPlaceGood(env: Env, orig: Node, next: Node)
    requires Plain(next) && !HasAnchor(orig)
    ensures MergedWell(env, orig, next, InPlaceOf(orig, next))
  {
    var m := InPlaceOf(orig, next);
    PlainHasNoAnchor(next);
    assert Plain(m) && !HasAnchor(m);
    NoAnchorNoChange(env, m);
    NoAnchorNoChange(env, orig);
  }

  predicate KeptWell(env: Env, orig: seq<Entry>, next: seq<Entry>, kept: seq<Entry>) {
    && AfterEntries(env, kept) == AfterEntries(env, orig)
    && AnchoredEntries(kept) == AnchoredEntries(orig)
    && FieldsHold(env, orig, next, FieldsOf(env, kept))
  }

  /** The keys of both, with the new values. */
  predicate FieldsHold(env: Env, orig: seq<Entry>, next: seq<Entry>, m: map<string, Datum>) {
    && (forall k | k in m :: HasKey(orig, k) && HasKey(next, k))
    && (forall i | 0 <= i < |orig| && HasKey(next, orig[i].key) :: orig[i].key in m)
    && (forall k | k in m :: HasKey(next, k) && m[k] == Value(env, Wanted(next, k)))
  }

  lemma {:induction false} MergeEntriesGood(env: Env, orig: seq<Entry>, next: seq<Entry>)
    requires forall i | 0 <= i < |next| :: Plain(next[i].node)
    requires MergeEntries(env, orig, next).Ok?
    ensures KeptWell(env, orig, next, MergeEntries(env, orig, next).value)
    decreases orig, 0
  {
    if orig != [] {
      var Entry(key, keyLook, node) := orig[0];
      var later := After(env, node);
      MergeEntriesGood(later, orig[1..], next);
      var rest := MergeEntries(later, orig[1..], next).value;
      if !HasKey(next, key) {
        NoAnchorNoChange(env, node);
        DroppedFields(env, orig, next, FieldsOf(env, rest));
      } else {
        WantedIsPlain(next, key);
        MergeGood(env, node, Wanted(next, key));
        var child := Merge(env, node, Wanted(next, key)).value;
        var kept := [Entry(key, keyLook, child)] + rest;
        assert kept[1..] == rest;
        KeptFields(env, later, orig, next, FieldsOf(later, rest));
      }
    }
  }

  lemma {:induction false} DroppedFields(env: Env, orig: seq<Entry>, next: seq<Entry>, m: map<string, Datum>)
    requires orig != [] && !HasKey(next, orig[0].key) && FieldsHold(env, orig[1..], next, m)
    ensures FieldsHold(env, orig, next, m)
  {
    forall k | k in m
      ensures HasKey(orig, k)
    {
      HasKeyFirst(orig, k);
    }
    forall i | 0 <= i < |orig| && HasKey(next, orig[i].key)
      ensures orig[i].key in m
    {
      assert i > 0;
      assert orig[i] == orig[1..][i - 1];
    }
  }

  lemma {:induction false} KeptFields(env: Env, later: Env, orig: seq<Entry>, next: seq<Entry>, m: map<string, Datum>)
    requires orig != [] && HasKey(next, orig[0].key) && FieldsHold(later, orig[1..], next, m)
    requires forall i | 0 <= i < |next| :: Plain(next[i].node)
    ensures FieldsHold(env, orig, next, map[orig[0].key := Value(env, Wanted(next, orig[0].key))] + m)
  {
    var all := map[orig[0].key := Value(env, Wanted(next, orig[0].key))] + m;
    forall k | k in all
      ensures HasKey(orig, k) && HasKey(next, k) && all[k] == Value(env, Wanted(next, k))
    {
      HasKeyFirst(orig, k);
      if k in m {
        WantedIsPlain(next, k);
        PlainValue(env, later, Wanted(next, k));
      }
    }
    forall i | 0 <= i < |orig| && HasKey(next, orig[i].key)
      ensures orig[i].key in all
    {
      assert i > 0 ==> orig[i] == orig[1..][i - 1];
    }
  }

  lemma {:induction false} AddedPlain(orig: seq<Entry>, next: seq<Entry>, left: seq<Entry>)
    requires forall i | 0 <= i < |left| :: HasKey(next, left[i].key)
    requires forall i | 0 <= i < |next| :: Plain(next[i].node)
    ensures var added := AddedFrom(orig, next, left);
            && (forall i | 0 <= i < |added| ::
                  HasKey(next, added[i].key) && !HasKey(orig, added[i].key)
                  && added[i].node == Wanted(next, added[i].key) && Plain(added[i].node))
            && (forall i | 0 <= i < |left| && !HasKey(orig, left[i].key) :: HasKey(added, left[i].key))
    decreases |left|
  {
    if left != [] {
      AddedPlain(orig, next, left[1..]);
      WantedIsPlain(next, left[0].key);
      var added := AddedFrom(orig, next, left);
      var rest := AddedFrom(orig, next, left[1..]);
      forall i | 0 <= i < |left| && !HasKey(orig, left[i].key)
        ensures HasKey(added, left[i].key)
      {
        if i == 0 {
          assert added[0].key == left[0].key;
        } else {
          assert left[i] == left[1..][i - 1];
          var j :| 0 <= j < |rest| && rest[j].key == left[i].key;
          assert added[|added| - |rest| + j] == rest[j];
        }
      }
    }
  }

  lemma {:induction false} AddedFacts(orig: seq<Entry>, next: seq<Entry>)
    requires forall i | 0 <= i < |next| :: Plain(next[i].node)
    ensures var added := Added(orig, next);
            && (forall i | 0 <= i < |added| :: Plain(added[i].node))
            && (forall i | 0 <= i < |added| ::
                  HasKey(next, added[i].key) && !HasKey(orig, added[i].key)
                  && added[i].node == Wanted(next, added[i].key))
            && (forall i | 0 <= i < |next| && !HasKey(orig, next[i].key) :: HasKey(added, next[i].key))
  {
    forall i | 0 <= i < |next|
      ensures HasKey(next, next[i].key)
    {
    }
    AddedPlain(orig, next, next);
    assert Added(orig, next) == AddedFrom(orig, next, next);
  }

  lemma {:induction false} WantedSame(entries: seq<Entry>, next: seq<Entry>, key: string)
    requires HasKey(entries, key)
    requires forall i | 0 <= i < |entries| ::
               HasKey(next, entries[i].key) && entries[i].node == Wanted(next, entries[i].key)
    ensures Wanted(entries, key) == Wanted(next, key)
    decreases |entries|
  {
    var n := |entries| - 1;
    if entries[n].key != key {
      WantedSame(entries[..n], next, key);
    }
  }

  /** The merged old fields and the new ones make up all wanted fields. */
  lemma {:induction false} FieldsJoin(env: Env, orig: seq<Entry>, next: seq<Entry>, a: map<string, Datum>)
    requires forall i | 0 <= i < |next| :: Plain(next[i].node)
    requires FieldsHold(env, orig, next, a)
    ensures a + FieldsOf(env, Added(orig, next)) == FieldsOf(env, next)
  {
    hide FieldsOf, Value, Wanted, AddedFrom;
    var added := Added(orig, next);
    AddedFacts(orig, next);
    PlainFieldsAt(env, added);
    PlainFieldsAt(env, next);
    var b, all := FieldsOf(env, added), FieldsOf(env, next);
    forall k
      ensures k in a + b <==> k in all
      ensures k in a + b ==> (a + b)[k] == all[k]
    {
      if k in b {
        WantedSame(added, next, k);
      }
      if HasKey(next, k) {
        var i :| 0 <= i < |next| && next[i].key == k;
        if HasKey(orig, k) {
          var j :| 0 <= j < |orig| && orig[j].key == k;
          assert k in a;
        } else {
          assert HasKey(added, k);
        }
      }
    }
  }

  /** What is added has no part in anchors and aliases. */
  lemma {:induction false} AddedInert(env: Env, other: Env, orig: seq<Entry>, next: seq<Entry>)
    requires forall i | 0 <= i < |next| :: Plain(next[i].node)
    ensures var added := Added(orig, next);
            && AfterEntries(env, added) == env && AnchoredEntries(added) == []
            && FieldsOf(env, added) == FieldsOf(other, added)
  {
    var added := Added(orig, next);
    AddedFacts(orig, next);
    forall i | 0 <= i < |added|
      ensures !HasAnchor(added[i].node)
    {
      PlainHasNoAnchor(added[i].node);
    }
    NoAnchorEntries(env, added);
    PlainFields(env, other, added);
  }

  lemma {:induction false} MappingGood(env: Env, orig: Node, next: Node, kept: seq<Entry>)
    requires orig.Mapping? && next.Mapping? && Plain(next) && orig.anchor == ""
    requires KeptWell(env, orig.entries, next.entries, kept)
    ensures MergedWell(env, orig, next, orig.(entries := kept + Added(orig.entries, next.entries)))
  {
    hide FieldsOf, AfterEntries, AnchoredEntries, Added, FieldsHold;
    var added := Added(orig.entries, next.entries);
    AddedInert(AfterEntries(env, kept), env, orig.entries, next.entries);
    EntriesConcat(env, kept, added);
    FieldsJoin(env, orig.entries, next.entries, FieldsOf(env, kept));
    assert AnchoredEntries(kept) + [] == AnchoredEntries(kept);
  }

  predicate ItemsWell(env: Env, orig: seq<Node>, next: seq<Node>, items: seq<Node>) {
    && AfterItems(env, items) == AfterItems(env, orig)
    && AnchoredItems(items) == AnchoredItems(orig)
    && ItemsOf(env, items) == ItemsOf(env, next)
  }

  lemma {:induction false} MergeItemsGood(env: Env, orig: seq<Node>, next: seq<Node>)
    requires forall i | 0 <= i < |next| :: Plain(next[i])
    requires MergeItems(env, orig, next).Ok?
    ensures ItemsWell(env, orig, next, MergeItems(env, orig, next).value)
    decreases orig, 0
  {
    if orig == [] {
      forall i | 0 <= i < |next|
        ensures !HasAnchor(next[i])
      {
        PlainHasNoAnchor(next[i]);
      }
      NoAnchorItems(env, next);
    } else if next == [] {
      NoAnchorNoChange(env, orig[0]);
      MergeItemsGood(After(env, orig[0]), orig[1..], next);
    } else {
      var later := After(env, orig[0]);
      MergeGood(env, orig[0], next[0]);
      MergeItemsGood(later, orig[1..], next[1..]);
      var items := MergeItems(env, orig, next).value;
      assert items[1..] == MergeItems(later, orig[1..], next[1..]).value;
      PlainItems(later, After(env, next[0]), next[1..]);
    }
  }

  // ---------------------------------------------------------------- comments

  /** The same comments above, beside and below. */
  predicate SameComments(a: Node, b: Node) {
    a.look.head == b.look.head && a.look.line == b.look.line && a.look.foot == b.look.foot
  }

  /** A merge keeps the comments of the node, and the style of a scalar that keeps its type. */
  lemma {:induction false} MergeKeepsComments(env: Env, orig: Node, next: Node)
    requires Merge(env, orig, next).Ok?
    ensures var n := Merge(env, orig, next).value;
            && SameComments(n, orig)
            && (orig.Scalar? && next.Scalar? && orig.tag == next.tag ==> n.look.style == orig.look.style)
  {
    hide Value;
  }

  /** The entries of a merged mapping: those of the original that stay, in order, with the comments of their keys and
      values, and then the new ones. */
  lemma {:induction false} MergedEntriesKeep(env: Env, orig: seq<Entry>, next: seq<Entry>)
    requires MergeEntries(env, orig, next).Ok?
    ensures StayInOrder(orig, next, MergeEntries(env, orig, next).value)
    decreases |orig|
  {
    hide Value, After, Merge;
    if orig != [] {
      var Entry(key, keyLook, node) := orig[0];
      MergedEntriesKeep(After(env, node), orig[1..], next);
      if HasKey(next, key) {
        MergeKeepsComments(env, node, Wanted(next, key));
        var child := Merge(env, node, Wanted(next, key)).value;
        var rest := MergeEntries(After(env, node), orig[1..], next).value;
        var all := [Entry(key, keyLook, child)] + rest;
        assert all[0] == Entry(key, keyLook, child) && all[1..] == rest;
      }
    }
  }

  predicate StayInOrder(orig: seq<Entry>, next: seq<Entry>, merged: seq<Entry>)
    decreases |orig|
  {
    if orig == [] then merged == []
    else if !HasKey(next, orig[0].key) then StayInOrder(orig[1..], next, merged)
    else
      && merged != [] && merged[0].key == orig[0].key && merged[0].keyLook == orig[0].keyLook
      && SameComments(merged[0].node, orig[0].node) && StayInOrder(orig[1..], next, merged[1..])
  }
}
