/** Editing one flag of a document field by field (internal/goff/yamldoc.go, internal/goff/adapter.go). */
module YamlEdit {
  import opened Options
  import opened YamlPaths
  import opened YamlTree

  // ---------------------------------------------------------------- fields

  /** The first entry of a key. */
  function KeyIndex(entries: seq<Entry>, key: string): (i: nat)
    requires HasKey(entries, key)
    ensures i < |entries| && entries[i].key == key
    ensures forall j | 0 <= j < i :: entries[j].key != key
  {
    if entries[0].key == key then 0
    else
      HasKeyFirst(entries, key);
      1 + KeyIndex(entries[1..], key)
  }

  function WithComments(next: Node, was: Node): Node {
    next.(look := next.look.(head := was.look.head, line := was.look.line, foot := was.look.foot))
  }

  /** `SetField`, on the flag's own node: an unchanged value is left alone, metadata is merged, anything else is
      replaced unless an anchor would go. */
  function SetFieldIn(env: Env, flag: Node, field: string, next: Node): Result<Node>
    requires flag.Mapping?
  {
    if !HasKey(flag.entries, field) then Ok(flag.(entries := flag.entries + [Entry(field, FRESH, next)]))
    else
      var i := KeyIndex(flag.entries, field);
      var Entry(key, look, was) := flag.entries[i];
      var here := AfterEntries(env, flag.entries[..i]);
      if Value(here, was) == Value(here, next) then Ok(flag)
      else if field == "metadata" then
        match Merge(here, was, next)
        case Err => Err
        case Ok(merged) => Ok(flag.(entries := flag.entries[i := Entry(key, look, merged)]))
      else if HasAnchor(was) then Err
      else Ok(flag.(entries := flag.entries[i := Entry(key, look, WithComments(next, was))]))
  }

  /** `DeleteField`. */
  function DeleteFieldIn(flag: Node, field: string): Result<Node>
    requires flag.Mapping?
  {
    if !HasKey(flag.entries, field) then Ok(flag)
    else
      var i := KeyIndex(flag.entries, field);
      if HasAnchor(flag.entries[i].node) then Err
      else Ok(flag.(entries := flag.entries[..i] + flag.entries[i + 1..]))
  }

  /** What `Serialize` asks for: one change of one field. */
  datatype Edit = SetTo(field: string, next: Node) | Delete(field: string)

  function EditIn(env: Env, flag: Node, e: Edit): Result<Node>
    requires flag.Mapping?
  {
    match e
    case SetTo(field, next) => SetFieldIn(env, flag, field, next)
    case Delete(field) => DeleteFieldIn(flag, field)
  }

  function EditAll(env: Env, flag: Node, edits: seq<Edit>): Result<Node>
    requires flag.Mapping?
    decreases |edits|
  {
    if edits == [] then Ok(flag)
    else
      match EditIn(env, flag, edits[0])
      case Err => Err
      case Ok(node) => if node.Mapping? then EditAll(env, node, edits[1..]) else Err
  }

  /** The field values of a draft flag as nodes; `None` where the flag has nothing to say. */
  datatype Draft = Draft(variations: Node, enabled: bool, targeting: Option<Node>, default: Node,
                         experimentation: Option<Node>, bucketingKey: Option<Node>, metadata: Option<Node>)

  const DISABLED := Scalar("!!bool", Atom("bool", "true"), "", FRESH)

  function SetOrDelete(field: string, next: Option<Node>): Edit {
    match next
    case Some(node) => SetTo(field, node)
    case None => Delete(field)
  }

  /** The edits `Serialize` makes to an existing flag, in its order. Metadata is never deleted. */
  function SerializeEdits(d: Draft): seq<Edit> {
    [ SetTo("variations", d.variations),
      if d.enabled then Delete("disable") else SetTo("disable", DISABLED),
      SetOrDelete("targeting", d.targeting),
      SetTo("defaultRule", d.default),
      SetOrDelete("experimentation", d.experimentation),
      SetOrDelete("bucketingKey", d.bucketingKey) ]
    + (if d.metadata.Some? then [SetTo("metadata", d.metadata.value)] else [])
  }

  const EDITED_FIELDS := {
    "variations", "disable", "targeting", "defaultRule", "experimentation", "bucketingKey", "metadata"
  }

  // ---------------------------------------------------------------- what one edit keeps

  /** The entries of other fields, whole and in order. */
  function Others(entries: seq<Entry>, fields: set<string>): seq<Entry> {
    if entries == [] then []
    else (if entries[0].key in fields then [] else [entries[0]]) + Others(entries[1..], fields)
  }

  /** Same anchors, same names for later aliases, and the other fields as they were: the entries, their values and what
      aliases in them see. */
  ghost predicate KeepsRest(env: Env, before: seq<Entry>, after: seq<Entry>, fields: set<string>) {
    && AnchoredEntries(after) == AnchoredEntries(before)
    && AfterEntries(env, after) == AfterEntries(env, before)
    && Others(after, fields) == Others(before, fields)
    && SameElsewhere(FieldsOf(env, after), FieldsOf(env, before), fields)
    && SamePlaces(env, after, before, fields)
  }

  ghost predicate SamePlaces(env: Env, a: seq<Entry>, b: seq<Entry>, fields: set<string>) {
    forall k | k !in fields :: InEntries(env, a, k) == InEntries(env, b, k)
  }

  predicate SameElsewhere(a: map<string, Datum>, b: map<string, Datum>, fields: set<string>) {
    && (forall k | k in a && k !in fields :: k in b && a[k] == b[k])
    && (forall k | k in b && k !in fields :: k in a)
  }

  lemma {:induction false} OthersConcat(a: seq<Entry>, b: seq<Entry>, fields: set<string>)
    ensures Others(a + b, fields) == Others(a, fields) + Others(b, fields)
  {
    if a == [] {
      assert a + b == b;
    } else {
      assert (a + b)[1..] == a[1..] + b && (a + b)[0] == a[0];
      OthersConcat(a[1..], b, fields);
    }
  }

  lemma {:induction false} ThreeParts(env: Env, pre: seq<Entry>, mid: seq<Entry>, post: seq<Entry>)
    ensures var here := AfterEntries(env, pre);
            var there := AfterEntries(here, mid);
            && AfterEntries(env, pre + mid + post) == AfterEntries(there, post)
            && AnchoredEntries(pre + mid + post) == AnchoredEntries(pre) + AnchoredEntries(mid) + AnchoredEntries(post)
            && FieldsOf(env, pre + mid + post) == FieldsOf(env, pre) + FieldsOf(here, mid) + FieldsOf(there, post)
  {
    hide AnchoredEntries, AfterEntries, FieldsOf;
    EntriesConcat(env, pre + mid, post);
    EntriesConcat(env, pre, mid);
  }

  lemma {:induction false} OthersParts(pre: seq<Entry>, mid: seq<Entry>, post: seq<Entry>, field: string)
    requires |mid| <= 1 && forall i | 0 <= i < |mid| :: mid[i].key == field
    ensures Others(pre + mid + post, {field}) == Others(pre, {field}) + Others(post, {field})
  {
    hide Others;
    OthersConcat(pre + mid, post, {field});
    OthersConcat(pre, mid, {field});
    OthersOfField(mid, field);
    assert Others(pre, {field}) + [] == Others(pre, {field});
  }

  lemma {:induction false} MapsElsewhere(p: map<string, Datum>, a: map<string, Datum>, b: map<string, Datum>,
                                         q: map<string, Datum>, field: string)
    requires a.Keys <= {field} && b.Keys <= {field}
    ensures SameElsewhere(p + a + q, p + b + q, {field})
  {
  }

  lemma {:induction false} PlaceInParts(env: Env, pre: seq<Entry>, mid: seq<Entry>, post: seq<Entry>, key: string)
    requires |mid| <= 1 && forall i | 0 <= i < |mid| :: mid[i].key != key
    ensures InEntries(env, pre + mid + post, key) ==
            if HasKey(pre, key) then InEntries(env, pre, key)
            else InEntries(AfterEntries(AfterEntries(env, pre), mid), post, key)
  {
    assert pre + mid + post == pre + (mid + post);
    if HasKey(pre, key) {
      InEntriesConcat(env, pre, mid + post, key);
    } else {
      InEntriesPast(env, pre, mid + post, key);
      InEntriesPast(AfterEntries(env, pre), mid, post, key);
    }
  }

  lemma {:induction false} InEntriesPast(env: Env, a: seq<Entry>, b: seq<Entry>, key: string)
    requires !HasKey(a, key)
    ensures InEntries(env, a + b, key) == InEntries(AfterEntries(env, a), b, key)
    decreases |a|
  {
    if a == [] {
      assert a + b == b;
    } else {
      assert (a + b)[0] == a[0] && (a + b)[1..] == a[1..] + b;
      HasKeyFirst(a, key);
      InEntriesPast(After(env, a[0].node), a[1..], b, key);
    }
  }

  /** Replacing one entry by another of the same field, with the same anchors, keeps the rest. */
  lemma {:induction false} ReplaceKeeps(env: Env, pre: seq<Entry>, was: seq<Entry>, now: seq<Entry>, post: seq<Entry>,
                                        field: string)
    requires |was| <= 1 && |now| <= 1
    requires forall i | 0 <= i < |was| :: was[i].key == field
    requires forall i | 0 <= i < |now| :: now[i].key == field
    requires var here := AfterEntries(env, pre);
             AnchoredEntries(was) == AnchoredEntries(now) && AfterEntries(here, was) == AfterEntries(here, now)
    ensures KeepsRest(env, pre + was + post, pre + now + post, {field})
  {
    hide AnchoredEntries, AfterEntries, Others, FieldsOf, SameElsewhere, SamePlaces;
    var here := AfterEntries(env, pre);
    var there := AfterEntries(here, was);
    ThreeParts(env, pre, was, post);
    ThreeParts(env, pre, now, post);
    OthersParts(pre, was, post, field);
    OthersParts(pre, now, post, field);
    FieldsOfField(here, was, field);
    FieldsOfField(here, now, field);
    MapsElsewhere(FieldsOf(env, pre), FieldsOf(here, now), FieldsOf(here, was), FieldsOf(there, post), field);
    PlacesElsewhere(env, pre, was, now, post, field);
  }

  lemma {:induction false} PlacesElsewhere(env: Env, pre: seq<Entry>, was: seq<Entry>, now: seq<Entry>,
                                           post: seq<Entry>, field: string)
    requires |was| <= 1 && |now| <= 1
    requires forall i | 0 <= i < |was| :: was[i].key == field
    requires forall i | 0 <= i < |now| :: now[i].key == field
    requires AfterEntries(AfterEntries(env, pre), was) == AfterEntries(AfterEntries(env, pre), now)
    ensures SamePlaces(env, pre + now + post, pre + was + post, {field})
  {
    forall k | k !in {field}
      ensures InEntries(env, pre + now + post, k) == InEntries(env, pre + was + post, k)
    {
      PlaceInParts(env, pre, was, post, k);
      PlaceInParts(env, pre, now, post, k);
    }
  }

  lemma {:induction false} OthersOfField(es: seq<Entry>, field: string)
    requires |es| <= 1 && forall i | 0 <= i < |es| :: es[i].key == field
    ensures Others(es, {field}) == []
  {
    if es != [] {
      assert es[1..] == [];
    }
  }

  lemma {:induction false} FieldsOfField(env: Env, es: seq<Entry>, field: string)
    requires |es| <= 1 && forall i | 0 <= i < |es| :: es[i].key == field
    ensures FieldsOf(env, es) == if es == [] then map[] else map[field := Value(env, es[0].node)]
  {
    if es != [] {
      assert es[1..] == [];
    }
  }

  lemma {:induction false} OneEntry(env: Env, e: Entry)
    ensures AnchoredEntries([e]) == Anchored(e.node) && AfterEntries(env, [e]) == After(env, e.node)
  {
    assert [e][1..] == [];
    assert Anchored(e.node) + [] == Anchored(e.node);
  }

  function FieldNode(entries: seq<Entry>, key: string): Option<Node> {
    if HasKey(entries, key) then Some(entries[KeyIndex(entries, key)].node) else None
  }

  /** What an edit may bring to a flag: plain metadata, and elsewhere no anchor, except where there is one already;
      an edit that would change that field is refused. */
  predicate MayBring(flag: Node, e: Edit)
    requires flag.Mapping?
  {
    e.SetTo? ==>
      && (e.field == "metadata" ==> Plain(e.next))
      && (HasAnchor(e.next) ==>
            FieldNode(flag.entries, e.field).Some? && HasAnchor(FieldNode(flag.entries, e.field).value))
  }

  lemma {:induction false} OthersFieldNode(entries: seq<Entry>, fields: set<string>, key: string)
    requires key !in fields
    ensures FieldNode(Others(entries, fields), key) == FieldNode(entries, key)
    decreases |entries|
  {
    if entries != [] {
      OthersFieldNode(entries[1..], fields, key);
      var rest := Others(entries[1..], fields);
      HasKeyFirst(entries, key);
      if entries[0].key in fields {
        assert [] + rest == rest;
        FieldNodeFirst(entries, key);
      } else {
        assert Others(entries, fields) == [entries[0]] + rest && ([entries[0]] + rest)[1..] == rest;
        FieldNodeFirst(entries, key);
        FieldNodeFirst([entries[0]] + rest, key);
      }
    }
  }

  lemma {:induction false} FieldNodeFirst(entries: seq<Entry>, key: string)
    requires entries != []
    ensures FieldNode(entries, key) ==
            if entries[0].key == key then Some(entries[0].node) else FieldNode(entries[1..], key)
  {
    HasKeyFirst(entries, key);
  }

  lemma {:induction false} WithCommentsSame(env: Env, next: Node, was: Node)
    requires !HasAnchor(next)
    ensures var n := WithComments(next, was); Value(env, n) == Value(env, next) && !HasAnchor(n)
  {
  }

  /** A field that is set keeps its place, its key and the comments around it. */
  lemma {:induction false} SetFieldKeepsComments(env: Env, flag: Node, field: string, next: Node)
    requires flag.Mapping? && HasKey(flag.entries, field) && SetFieldIn(env, flag, field, next).Ok?
    ensures var node, i := SetFieldIn(env, flag, field, next).value, KeyIndex(flag.entries, field);
            && node.Mapping? && |node.entries| == |flag.entries|
            && node.entries[i].key == field && node.entries[i].keyLook == flag.entries[i].keyLook
            && SameComments(node.entries[i].node, flag.entries[i].node)
            && forall j | 0 <= j < |flag.entries| && j != i :: node.entries[j] == flag.entries[j]
  {
    hide Value, AfterEntries, HasAnchor;
    var i := KeyIndex(flag.entries, field);
    var here := AfterEntries(env, flag.entries[..i]);
    if Merge(here, flag.entries[i].node, next).Ok? {
      MergeKeepsComments(here, flag.entries[i].node, next);
    }
  }

  lemma {:induction false} SetFieldKeeps(env: Env, flag: Node, field: string, next: Node)
    requires flag.Mapping? && MayBring(flag, SetTo(field, next)) && SetFieldIn(env, flag, field, next).Ok?
    ensures var node := SetFieldIn(env, flag, field, next).value;
            && node.Mapping? && node == flag.(entries := node.entries)
            && KeepsRest(env, flag.entries, node.entries, {field})
  {
    var entries := flag.entries;
    if !HasKey(entries, field) {
      var e := Entry(field, FRESH, next);
      NoAnchorNoChange(AfterEntries(env, entries), next);
      OneEntry(AfterEntries(env, entries), e);
      ReplaceKeeps(env, entries, [], [e], [], field);
      assert entries + [] + [] == entries && entries + [e] + [] == entries + [e];
    } else {
      var i := KeyIndex(entries, field);
      var was := entries[i];
      var here := AfterEntries(env, entries[..i]);
      if Value(here, was.node) == Value(here, next) {
        ReplaceKeeps(env, entries, [], [], [], field);
        assert entries + [] + [] == entries;
      } else {
        var node := if field == "metadata" then Merge(here, was.node, next).value else WithComments(next, was.node);
        if field == "metadata" {
          MergeGood(here, was.node, next);
        } else {
          assert !HasAnchor(next);
          WithCommentsSame(here, next, was.node);
          NoAnchorNoChange(here, node);
          NoAnchorNoChange(here, was.node);
        }
        SwapKeeps(env, entries, i, was.(node := node));
      }
    }
  }

  lemma {:induction false} SwapKeeps(env: Env, entries: seq<Entry>, i: nat, e: Entry)
    requires i < |entries| && e.key == entries[i].key
    requires SameAnchors(AfterEntries(env, entries[..i]), e.node, entries[i].node)
    ensures KeepsRest(env, entries, entries[i := e], {e.key})
  {
    var here := AfterEntries(env, entries[..i]);
    OneEntry(here, e);
    OneEntry(here, entries[i]);
    ReplaceKeeps(env, entries[..i], [entries[i]], [e], entries[i + 1..], e.key);
    assert entries[..i] + [entries[i]] + entries[i + 1..] == entries;
    assert entries[..i] + [e] + entries[i + 1..] == entries[i := e];
  }

  lemma {:induction false} NoEntries(env: Env)
    ensures AfterEntries(env, []) == env && AnchoredEntries([]) == []
  {
  }

  lemma {:induction false} DeleteFieldKeeps(env: Env, flag: Node, field: string)
    requires flag.Mapping? && DeleteFieldIn(flag, field).Ok?
    ensures var node := DeleteFieldIn(flag, field).value;
            && node.Mapping? && node == flag.(entries := node.entries)
            && KeepsRest(env, flag.entries, node.entries, {field})
  {
    hide KeepsRest, AfterEntries, AnchoredEntries, HasAnchor, After, Anchored;
    var entries := flag.entries;
    if !HasKey(entries, field) {
      ReplaceKeeps(env, entries, [], [], [], field);
      assert entries + [] + [] == entries;
    } else {
      var i := KeyIndex(entries, field);
      var here := AfterEntries(env, entries[..i]);
      NoAnchorNoChange(here, entries[i].node);
      NoEntries(here);
      OneEntry(here, entries[i]);
      ReplaceKeeps(env, entries[..i], [entries[i]], [], entries[i + 1..], field);
      assert entries[..i] + [entries[i]] + entries[i + 1..] == entries;
      assert entries[..i] + [] + entries[i + 1..] == entries[..i] + entries[i + 1..];
    }
  }

  lemma {:induction false} OthersMore(entries: seq<Entry>, fewer: set<string>, more: set<string>)
    requires fewer <= more
    ensures Others(Others(entries, fewer), more) == Others(entries, more)
  {
    if entries != [] {
      OthersMore(entries[1..], fewer, more);
      var rest := Others(entries[1..], fewer);
      assert ([entries[0]] + rest)[1..] == rest && [] + rest == rest;
    }
  }

  lemma {:induction false} KeepsChain(env: Env, a: seq<Entry>, b: seq<Entry>, c: seq<Entry>, field: string,
                                      fields: set<string>)
    requires KeepsRest(env, a, b, {field}) && KeepsRest(env, b, c, fields) && field in fields
    ensures KeepsRest(env, a, c, fields)
  {
    OthersMore(a, {field}, fields);
    OthersMore(b, {field}, fields);
  }

  lemma {:induction false} KeepsNothing(env: Env, a: seq<Entry>, fields: set<string>)
    ensures KeepsRest(env, a, a, fields)
  {
  }

  lemma {:induction false} OneEditKeeps(env: Env, flag: Node, e: Edit)
    requires flag.Mapping? && MayBring(flag, e) && EditIn(env, flag, e).Ok?
    ensures var node := EditIn(env, flag, e).value;
            && node.Mapping? && node == flag.(entries := node.entries)
            && KeepsRest(env, flag.entries, node.entries, {e.field})
  {
    match e {
      case SetTo(field, next) => SetFieldKeeps(env, flag, field, next);
      case Delete(field) => DeleteFieldKeeps(env, flag, field);
    }
  }

  predicate DistinctFields(edits: seq<Edit>) {
    forall i, j | 0 <= i < j < |edits| :: edits[i].field != edits[j].field
  }

  lemma {:induction false} StillMayBring(env: Env, flag: Node, node: Node, field: string, edits: seq<Edit>)
    requires flag.Mapping? && node.Mapping? && KeepsRest(env, flag.entries, node.entries, {field})
    requires edits != [] && edits[0].field == field && DistinctFields(edits)
    requires forall i | 0 <= i < |edits| :: MayBring(flag, edits[i])
    ensures forall i | 0 <= i < |edits[1..]| :: MayBring(node, edits[1..][i])
  {
    forall i | 0 <= i < |edits[1..]|
      ensures MayBring(node, edits[1..][i])
    {
      var e := edits[1..][i];
      assert e == edits[i + 1];
      assert e.field != edits[0].field;
      OthersFieldNode(flag.entries, {field}, e.field);
      OthersFieldNode(node.entries, {field}, e.field);
    }
  }

  /** A run of edits of some fields keeps all the others, and what the rest of the document sees. */
  lemma {:induction false} EditAllKeeps(env: Env, flag: Node, edits: seq<Edit>, fields: set<string>)
    requires flag.Mapping? && EditAll(env, flag, edits).Ok?
    requires DistinctFields(edits)
    requires forall i | 0 <= i < |edits| :: MayBring(flag, edits[i]) && edits[i].field in fields
    ensures var node := EditAll(env, flag, edits).value;
            && node.Mapping? && node == flag.(entries := node.entries)
            && KeepsRest(env, flag.entries, node.entries, fields)
    decreases |edits|
  {
    hide KeepsRest, SetFieldIn, DeleteFieldIn;
    if edits == [] {
      KeepsNothing(env, flag.entries, fields);
    } else {
      var e := edits[0];
      OneEditKeeps(env, flag, e);
      var node := EditIn(env, flag, e).value;
      StillMayBring(env, flag, node, e.field, edits);
      EditAllKeeps(env, node, edits[1..], fields);
      KeepsChain(env, flag.entries, node.entries, EditAll(env, node, edits[1..]).value.entries, e.field, fields);
    }
  }

  // ---------------------------------------------------------------- what the edited fields hold

  lemma {:induction false} FieldsKeys(env: Env, entries: seq<Entry>, key: string)
    ensures key in FieldsOf(env, entries) <==> HasKey(entries, key)
    decreases |entries|
  {
    if entries != [] {
      HasKeyFirst(entries, key);
      FieldsKeys(After(env, entries[0].node), entries[1..], key);
    }
  }

  /** With distinct keys, each entry's value is the field's. */
  lemma {:induction false} FieldAt(env: Env, entries: seq<Entry>, i: nat)
    requires DistinctKeys(entries) && i < |entries|
    ensures var key := entries[i].key;
            && key in FieldsOf(env, entries)
            && FieldsOf(env, entries)[key] == Value(AfterEntries(env, entries[..i]), entries[i].node)
  {
    var pre, mid, post := entries[..i], [entries[i]], entries[i + 1..];
    var key, here := entries[i].key, AfterEntries(env, entries[..i]);
    var there := AfterEntries(here, mid);
    assert entries == pre + mid + post;
    ThreeParts(env, pre, mid, post);
    FieldsOfField(here, mid, key);
    FieldsKeys(there, post, key);
  }

  lemma {:induction false} PlaceOfKey(env: Env, entries: seq<Entry>, key: string)
    requires HasKey(entries, key)
    ensures var i := KeyIndex(entries, key);
            InEntries(env, entries, key) == Some(Place(AfterEntries(env, entries[..i]), entries[i].node))
    decreases |entries|
  {
    var i := KeyIndex(entries, key);
    if entries[0].key == key {
      assert i == 0;
      assert entries[..0] == [];
    } else {
      HasKeyFirst(entries, key);
      PlaceOfKey(After(env, entries[0].node), entries[1..], key);
      assert i > 0 && KeyIndex(entries[1..], key) == i - 1;
      assert entries[..i] == [entries[0]] + entries[1..][..i - 1];
      assert entries[..i][1..] == entries[1..][..i - 1];
    }
  }

  /** What aliases in a field can see: where the field stands, or at the end when there is none yet. */
  function EnvFor(env: Env, entries: seq<Entry>, field: string): Env {
    match InEntries(env, entries, field)
    case Some(place) => place.env
    case None => AfterEntries(env, entries)
  }

  lemma {:induction false} SetFieldHolds(env: Env, flag: Node, field: string, next: Node)
    requires flag.Mapping? && DistinctKeys(flag.entries) && MayBring(flag, SetTo(field, next))
    requires SetFieldIn(env, flag, field, next).Ok? && SetFieldIn(env, flag, field, next).value.Mapping?
    ensures var entries := SetFieldIn(env, flag, field, next).value.entries;
            && DistinctKeys(entries) && field in FieldsOf(env, entries)
            && FieldsOf(env, entries)[field] == Value(EnvFor(env, flag.entries, field), next)
  {
    hide FieldsOf, Merge, InEntries, AfterEntries, HasAnchor, Plain;
    var was, entries := flag.entries, SetFieldIn(env, flag, field, next).value.entries;
    InEntriesHas(env, was, field);
    if !HasKey(was, field) {
      assert entries[|was|].key == field && entries[..|was|] == was;
      forall i | 0 <= i < |was|
        ensures was[i].key != field
      {
      }
      FieldAt(env, entries, |was|);
    } else {
      var i := KeyIndex(was, field);
      PlaceOfKey(env, was, field);
      var here := AfterEntries(env, was[..i]);
      assert entries[..i] == was[..i];
      assert forall j | 0 <= j < |was| :: entries[j].key == was[j].key;
      FieldAt(env, entries, i);
      if Value(here, was[i].node) != Value(here, next) {
        if field == "metadata" {
          MergeGood(here, was[i].node, next);
        } else {
          assert FieldNode(was, field) == Some(was[i].node);
          WithCommentsSame(here, next, was[i].node);
        }
      }
    }
  }

  lemma {:induction false} DeleteFieldHolds(env: Env, flag: Node, field: string)
    requires flag.Mapping? && DistinctKeys(flag.entries)
    requires DeleteFieldIn(flag, field).Ok? && DeleteFieldIn(flag, field).value.Mapping?
    ensures var entries := DeleteFieldIn(flag, field).value.entries;
            DistinctKeys(entries) && field !in FieldsOf(env, entries)
  {
    var was, entries := flag.entries, DeleteFieldIn(flag, field).value.entries;
    FieldsKeys(env, entries, field);
    if HasKey(was, field) {
      var i := KeyIndex(was, field);
      forall j | 0 <= j < |entries|
        ensures entries[j] == was[if j < i then j else j + 1]
      {
      }
    }
  }

  /** What an edit of `was` says about its field: the value of the new node where the field stood, or no field. */
  predicate EditHolds(env: Env, was: seq<Entry>, entries: seq<Entry>, e: Edit) {
    match e
    case SetTo(field, next) =>
      field in FieldsOf(env, entries) && FieldsOf(env, entries)[field] == Value(EnvFor(env, was, field), next)
    case Delete(field) => field !in FieldsOf(env, entries)
  }

  lemma {:induction false} DistinctAfterEdit(env: Env, flag: Node, e: Edit)
    requires flag.Mapping? && DistinctKeys(flag.entries) && EditIn(env, flag, e).Ok?
    requires EditIn(env, flag, e).value.Mapping?
    ensures DistinctKeys(EditIn(env, flag, e).value.entries)
  {
    hide Value, Merge, AfterEntries, HasAnchor;
    var was, entries := flag.entries, EditIn(env, flag, e).value.entries;
    if HasKey(was, e.field) {
      var i := KeyIndex(was, e.field);
      forall j | 0 <= j < |entries|
        ensures entries[j].key == was[if e.SetTo? || j < i then j else j + 1].key
      {
      }
    }
  }

  lemma {:induction false} OneEditHolds(env: Env, flag: Node, e: Edit)
    requires flag.Mapping? && DistinctKeys(flag.entries) && MayBring(flag, e)
    requires EditIn(env, flag, e).Ok? && EditIn(env, flag, e).value.Mapping?
    ensures EditHolds(env, flag.entries, EditIn(env, flag, e).value.entries, e)
  {
    match e {
      case SetTo(field, next) => SetFieldHolds(env, flag, field, next);
      case Delete(field) => DeleteFieldHolds(env, flag, field);
    }
  }

  /** An edit of another field, before or after, changes nothing about what an edit says. */
  lemma {:induction false} HoldsElsewhere(env: Env, was: seq<Entry>, node: seq<Entry>, entries: seq<Entry>,
                                          before: set<string>, after: set<string>, e: Edit)
    requires KeepsRest(env, was, node, before) && KeepsRest(env, node, entries, after)
    ensures e.field !in before && EditHolds(env, node, entries, e) ==> EditHolds(env, was, entries, e)
    ensures e.field !in after && EditHolds(env, was, node, e) ==> EditHolds(env, was, entries, e)
  {
    hide FieldsOf, InEntries, AfterEntries, AnchoredEntries, Others, Value;
    assert e.field !in before ==> InEntries(env, was, e.field) == InEntries(env, node, e.field);
  }

  /** After a run of edits of different fields, each field holds what its edit said. */
  lemma {:induction false} EditAllHolds(env: Env, flag: Node, edits: seq<Edit>)
    requires flag.Mapping? && DistinctKeys(flag.entries) && DistinctFields(edits)
    requires forall i | 0 <= i < |edits| :: MayBring(flag, edits[i])
    requires EditAll(env, flag, edits).Ok? && EditAll(env, flag, edits).value.Mapping?
    ensures var entries := EditAll(env, flag, edits).value.entries;
            forall i | 0 <= i < |edits| :: EditHolds(env, flag.entries, entries, edits[i])
    decreases |edits|
  {
    hide SetFieldIn, DeleteFieldIn, EditHolds, KeepsRest, MayBring;
    if edits != [] {
      var e, rest := edits[0], edits[1..];
      var node := EditIn(env, flag, e).value;
      OneEditHolds(env, flag, e);
      OneEditKeeps(env, flag, e);
      StillMayBring(env, flag, node, e.field, edits);
      DistinctAfterEdit(env, flag, e);
      EditAllHolds(env, node, rest);
      var entries := EditAll(env, node, rest).value.entries;
      var others := set i | 0 <= i < |rest| :: rest[i].field;
      EditAllKeeps(env, node, rest, others);
      assert e.field !in others;
      forall i | 0 <= i < |edits|
        ensures EditHolds(env, flag.entries, entries, edits[i])
      {
        HoldsElsewhere(env, flag.entries, node.entries, entries, {e.field}, others, edits[i]);
        if i > 0 {
          assert edits[i] == rest[i - 1];
        }
      }
    }
  }

  lemma {:induction false} EditMeetsAnchor(env: Env, flag: Node, e: Edit)
    requires flag.Mapping? && EditIn(env, flag, e).Ok? && e.field != "metadata"
    requires HasKey(flag.entries, e.field) && HasAnchor(flag.entries[KeyIndex(flag.entries, e.field)].node)
    ensures EditIn(env, flag, e) == Ok(flag)
  {
  }

  /** A field with an anchor inside stays exactly as it was: an edit that would change or delete it is refused. */
  lemma {:induction false} AnchoredFieldStays(env: Env, flag: Node, edits: seq<Edit>, field: string)
    requires flag.Mapping? && EditAll(env, flag, edits).Ok?
    requires DistinctFields(edits) && forall i | 0 <= i < |edits| :: MayBring(flag, edits[i])
    requires InEntries(env, flag.entries, field).Some? && HasAnchor(InEntries(env, flag.entries, field).value.node)
    requires field != "metadata"
    ensures EditAll(env, flag, edits).value.Mapping?
    ensures InEntries(env, EditAll(env, flag, edits).value.entries, field) == InEntries(env, flag.entries, field)
    decreases |edits|
  {
    hide SetFieldIn, DeleteFieldIn, InEntries, HasAnchor, AfterEntries;
    if edits != [] {
      var e, node := edits[0], EditIn(env, flag, edits[0]).value;
      OneEditKeeps(env, flag, e);
      if e.field == field {
        InEntriesHas(env, flag.entries, field);
        PlaceOfKey(env, flag.entries, field);
        EditMeetsAnchor(env, flag, e);
      } else {
        assert field !in {e.field};
      }
      StillMayBring(env, flag, node, e.field, edits);
      AnchoredFieldStays(env, node, edits[1..], field);
    }
  }

  // ---------------------------------------------------------------- the whole document

  /** The value of the `j`th flag of a document. */
  function FlagValue(doc: seq<Entry>, j: nat): Datum
    requires j < |doc|
  {
    Value(AfterEntries(map[], doc[..j]), doc[j].node)
  }

  /** The fields a draft gives a flag: made from plain values, but that targeting may hold old rule nodes. */
  predicate DraftFits(flag: Node, d: Draft)
    requires flag.Mapping?
  {
    && Plain(d.variations) && Plain(d.default)
    && (d.targeting.Some? ==> MayBring(flag, SetTo("targeting", d.targeting.value)))
    && (d.experimentation.Some? ==> Plain(d.experimentation.value))
    && (d.bucketingKey.Some? ==> Plain(d.bucketingKey.value))
    && (d.metadata.Some? ==> Plain(d.metadata.value))
  }

  lemma {:induction false} SerializeEditsFit(flag: Node, d: Draft)
    requires flag.Mapping? && DraftFits(flag, d)
    ensures var edits := SerializeEdits(d);
            && DistinctFields(edits)
            && forall i | 0 <= i < |edits| :: MayBring(flag, edits[i]) && edits[i].field in EDITED_FIELDS
  {
    PlainHasNoAnchor(d.variations);
    PlainHasNoAnchor(d.default);
    if d.experimentation.Some? {
      PlainHasNoAnchor(d.experimentation.value);
    }
    if d.bucketingKey.Some? {
      PlainHasNoAnchor(d.bucketingKey.value);
    }
    if d.metadata.Some? {
      PlainHasNoAnchor(d.metadata.value);
    }
  }

  /** The tree part of `Serialize`, for the flag at position `i`. */
  function SerializeIn(doc: seq<Entry>, i: nat, d: Draft): Result<seq<Entry>>
    requires i < |doc|
  {
    if !doc[i].node.Mapping? then Err
    else
      match EditAll(AfterEntries(map[], doc[..i]), doc[i].node, SerializeEdits(d))
      case Err => Err
      case Ok(node) => Ok(doc[i := doc[i].(node := node)])
  }

  predicate NoAnchors(entries: seq<Entry>) {
    forall i | 0 <= i < |entries| :: !HasAnchor(entries[i].node)
  }

  lemma {:induction false} NoneAnchored(n: Node)
    requires Anchored(n) == []
    ensures !HasAnchor(n)
    decreases n, 1
  {
    match n {
      case Mapping(entries, _, _) => NoEntryAnchored(entries);
      case Sequence(items, _, _) => NoItemAnchored(items);
      case _ =>
    }
  }

  lemma {:induction false} NoEntryAnchored(entries: seq<Entry>)
    requires AnchoredEntries(entries) == []
    ensures NoAnchors(entries)
    decreases entries, 0
  {
    if entries != [] {
      NoneAnchored(entries[0].node);
      NoEntryAnchored(entries[1..]);
      assert forall i | 0 < i < |entries| :: entries[i] == entries[1..][i - 1];
    }
  }

  lemma {:induction false} NoItemAnchored(items: seq<Node>)
    requires AnchoredItems(items) == []
    ensures forall i | 0 <= i < |items| :: !HasAnchor(items[i])
    decreases items, 0
  {
    if items != [] {
      NoneAnchored(items[0]);
      NoItemAnchored(items[1..]);
      assert forall i | 0 < i < |items| :: items[i] == items[1..][i - 1];
    }
  }

  /** Where there is no anchor an edit always succeeds, and there is still none afterwards. */
  lemma {:induction false} EditFree(env: Env, flag: Node, e: Edit)
    requires flag.Mapping? && NoAnchors(flag.entries) && MayBring(flag, e)
    ensures EditIn(env, flag, e).Ok? && EditIn(env, flag, e).value.Mapping?
    ensures NoAnchors(EditIn(env, flag, e).value.entries)
  {
    hide HasAnchor, AfterEntries, AnchoredEntries, After, Value, Merge, Plain;
    var entries := flag.entries;
    if HasKey(entries, e.field) {
      var i := KeyIndex(entries, e.field);
      var here := AfterEntries(env, entries[..i]);
      assert FieldNode(entries, e.field) == Some(entries[i].node);
      if e.SetTo? {
        if e.field == "metadata" {
          MergeWithoutAnchors(here, entries[i].node, e.next);
          MergeGood(here, entries[i].node, e.next);
          NoAnchorNoChange(here, entries[i].node);
          NoneAnchored(Merge(here, entries[i].node, e.next).value);
        } else {
          WithCommentsSame(here, e.next, entries[i].node);
        }
      }
    }
  }

  lemma {:induction false} EditAllFree(env: Env, flag: Node, edits: seq<Edit>)
    requires flag.Mapping? && NoAnchors(flag.entries) && DistinctFields(edits)
    requires forall i | 0 <= i < |edits| :: MayBring(flag, edits[i])
    ensures EditAll(env, flag, edits).Ok?
    decreases |edits|
  {
    hide SetFieldIn, DeleteFieldIn, MayBring, KeepsRest, NoAnchors;
    if edits != [] {
      EditFree(env, flag, edits[0]);
      OneEditKeeps(env, flag, edits[0]);
      StillMayBring(env, flag, EditIn(env, flag, edits[0]).value, edits[0].field, edits);
      EditAllFree(env, EditIn(env, flag, edits[0]).value, edits[1..]);
    }
  }

  /** `Serialize` never refuses to edit a flag without anchors in its fields. */
  lemma {:induction false} SerializeNeverRefused(doc: seq<Entry>, i: nat, d: Draft)
    requires i < |doc| && doc[i].node.Mapping? && NoAnchors(doc[i].node.entries) && DraftFits(doc[i].node, d)
    ensures SerializeIn(doc, i, d).Ok?
  {
    hide SerializeEdits, DraftFits, NoAnchors;
    SerializeEditsFit(doc[i].node, d);
    EditAllFree(AfterEntries(map[], doc[..i]), doc[i].node, SerializeEdits(d));
  }

  /** A flag whose own mapping is not anchored can be rewritten without anything later seeing a difference. */
  lemma {:induction false} FlagReplaced(doc: seq<Entry>, i: nat, node: Node)
    requires i < |doc|
    requires SameAnchors(AfterEntries(map[], doc[..i]), node, doc[i].node)
    ensures var now := doc[i := doc[i].(node := node)];
            forall j | 0 <= j < |doc| && j != i :: FlagValue(now, j) == FlagValue(doc, j)
  {
    var now := doc[i := doc[i].(node := node)];
    forall j | 0 <= j < |doc| && j != i
      ensures FlagValue(now, j) == FlagValue(doc, j)
    {
      if j < i {
        assert now[..j] == doc[..j];
      } else {
        assert now[..j] == doc[..i] + [now[i]] + doc[i + 1..j];
        assert doc[..j] == doc[..i] + [doc[i]] + doc[i + 1..j];
        ThreeParts(map[], doc[..i], [now[i]], doc[i + 1..j]);
        ThreeParts(map[], doc[..i], [doc[i]], doc[i + 1..j]);
        OneEntry(AfterEntries(map[], doc[..i]), now[i]);
        OneEntry(AfterEntries(map[], doc[..i]), doc[i]);
      }
    }
  }

  /** `Serialize` of an existing flag whose own mapping is not anchored: every other flag keeps its value, even
      through aliases; every field outside the edited seven keeps its entry, comments and all, and its value; every
      anchored node stays whole; and the edited fields hold what the draft says. */
  lemma {:induction false} SerializeExact(doc: seq<Entry>, i: nat, d: Draft)
    requires i < |doc| && SerializeIn(doc, i, d).Ok? && DraftFits(doc[i].node, d)
    requires doc[i].node.anchor == "" && DistinctKeys(doc[i].node.entries)
    ensures var now := SerializeIn(doc, i, d).value;
            var here, edits := AfterEntries(map[], doc[..i]), SerializeEdits(d);
            && |now| == |doc| && now[i].node.Mapping?
            && (forall j | 0 <= j < |doc| && j != i :: now[j] == doc[j] && FlagValue(now, j) == FlagValue(doc, j))
            && KeepsRest(here, doc[i].node.entries, now[i].node.entries, EDITED_FIELDS)
            && (forall k | 0 <= k < |edits| :: EditHolds(here, doc[i].node.entries, now[i].node.entries, edits[k]))
  {
    hide SerializeEdits, DraftFits, KeepsRest, EditHolds;
    var here, flag, edits := AfterEntries(map[], doc[..i]), doc[i].node, SerializeEdits(d);
    SerializeEditsFit(flag, d);
    EditAllKeeps(here, flag, edits, EDITED_FIELDS);
    var node := EditAll(here, flag, edits).value;
    EditAllHolds(here, flag, edits);
    KeptAnchors(here, flag, node);
    FlagReplaced(doc, i, node);
  }

  /** A field of the written flag has the value of a plain node, or is not there. */
  ghost predicate FieldIs(env: Env, entries: seq<Entry>, field: string, value: Option<Datum>) {
    match value
    case Some(d) => field in FieldsOf(env, entries) && FieldsOf(env, entries)[field] == d
    case None => field !in FieldsOf(env, entries)
  }

  function PlainDatum(n: Option<Node>): Option<Datum> {
    match n
    case Some(node) => Some(Value(map[], node))
    case None => None
  }

  /** What is in the file afterwards, field by field: the draft's values; `disable` is true in a flag that is off and
      not there in one that is on; and metadata that the draft has none of stays as it was. */
  lemma {:induction false} SerializeWrites(doc: seq<Entry>, i: nat, d: Draft)
    requires i < |doc| && SerializeIn(doc, i, d).Ok? && DraftFits(doc[i].node, d)
    requires DistinctKeys(doc[i].node.entries)
    ensures var now, here := SerializeIn(doc, i, d).value[i].node, AfterEntries(map[], doc[..i]);
            && now.Mapping?
            && FieldIs(here, now.entries, "variations", Some(Value(map[], d.variations)))
            && FieldIs(here, now.entries, "defaultRule", Some(Value(map[], d.default)))
            && FieldIs(here, now.entries, "disable", if d.enabled then None else Some(Atom("bool", "true")))
            && FieldIs(here, now.entries, "experimentation", PlainDatum(d.experimentation))
            && FieldIs(here, now.entries, "bucketingKey", PlainDatum(d.bucketingKey))
            && FieldIs(here, now.entries, "targeting",
                       match d.targeting
                       case Some(n) => Some(Value(EnvFor(here, doc[i].node.entries, "targeting"), n))
                       case None => None)
            && (d.metadata.Some? ==> FieldIs(here, now.entries, "metadata", PlainDatum(d.metadata)))
            && (d.metadata.None? ==>
                  InEntries(here, now.entries, "metadata") == InEntries(here, doc[i].node.entries, "metadata"))
  {
    hide MayBring, KeepsRest, FieldsOf, InEntries, AfterEntries, EnvFor, SetFieldIn, DeleteFieldIn, EditAll;
    var here, flag, edits := AfterEntries(map[], doc[..i]), doc[i].node, SerializeEdits(d);
    SerializeEditsFit(flag, d);
    EditAllKeeps(here, flag, edits, EDITED_FIELDS);
    EditAllHolds(here, flag, edits);
    var now := EditAll(here, flag, edits).value.entries;
    PlainEditHolds(here, flag.entries, now, edits[0]);
    PlainEditHolds(here, flag.entries, now, edits[1]);
    PlainEditHolds(here, flag.entries, now, edits[3]);
    PlainEditHolds(here, flag.entries, now, edits[4]);
    PlainEditHolds(here, flag.entries, now, edits[5]);
    assert EditHolds(here, flag.entries, now, edits[2]);
    if d.metadata.Some? {
      PlainEditHolds(here, flag.entries, now, edits[6]);
    } else {
      MetadataKept(here, flag, edits);
    }
  }

  lemma {:induction false} PlainEditHolds(env: Env, was: seq<Entry>, entries: seq<Entry>, e: Edit)
    requires EditHolds(env, was, entries, e) && (e.SetTo? ==> Plain(e.next))
    ensures FieldIs(env, entries, e.field, if e.SetTo? then Some(Value(map[], e.next)) else None)
  {
    if e.SetTo? {
      PlainValue(EnvFor(env, was, e.field), map[], e.next);
    }
  }

  lemma {:induction false} MetadataKept(env: Env, flag: Node, edits: seq<Edit>)
    requires flag.Mapping? && EditAll(env, flag, edits).Ok? && DistinctFields(edits)
    requires forall i | 0 <= i < |edits| ::
               MayBring(flag, edits[i]) && edits[i].field in EDITED_FIELDS - {"metadata"}
    ensures EditAll(env, flag, edits).value.Mapping?
    ensures InEntries(env, EditAll(env, flag, edits).value.entries, "metadata")
         == InEntries(env, flag.entries, "metadata")
  {
    hide EditAll, MayBring, InEntries, FieldsOf, Others, AnchoredEntries, AfterEntries;
    EditAllKeeps(env, flag, edits, EDITED_FIELDS - {"metadata"});
  }

  lemma {:induction false} KeptAnchors(env: Env, flag: Node, node: Node)
    requires flag.Mapping? && flag.anchor == "" && node.Mapping? && node == flag.(entries := node.entries)
    requires KeepsRest(env, flag.entries, node.entries, EDITED_FIELDS)
    ensures SameAnchors(env, node, flag)
  {
  }

  /** Whatever follows decodes alike after either. */
  ghost predicate LookAlike(a: Env, b: Env) {
    forall later: seq<Entry> :: FieldsOf(a, later) == FieldsOf(b, later)
  }

  lemma {:induction false} AliasTellsApart(a: Env, b: Env, anchor: string)
    requires anchor in a && anchor in b && a[anchor] != b[anchor]
    ensures !LookAlike(a, b)
  {
    var later := [Entry("other", FRESH, Alias(anchor, FRESH))];
    FieldsOfField(a, later, "other");
    FieldsOfField(b, later, "other");
    assert FieldsOf(a, later)["other"] == a[anchor];
    assert FieldsOf(b, later)["other"] == b[anchor];
  }

  /** An anchored flag does leak: whatever can follow in the document is safe from an edit exactly when the flag's
      mapping has no anchor or its value stays the same. */
  lemma {:induction false} AnchoredFlagLeaks(env: Env, flag: Node, edits: seq<Edit>, fields: set<string>)
    requires flag.Mapping? && EditAll(env, flag, edits).Ok?
    requires DistinctFields(edits)
    requires forall i | 0 <= i < |edits| :: MayBring(flag, edits[i]) && edits[i].field in fields
    ensures var node := EditAll(env, flag, edits).value;
            LookAlike(After(env, node), After(env, flag)) <==>
            (flag.anchor == "" || Value(env, node) == Value(env, flag))
  {
    hide FieldsOf, Others, AnchoredEntries, EditAll;
    EditAllKeeps(env, flag, edits, fields);
    var node := EditAll(env, flag, edits).value;
    var a, b := After(env, node), After(env, flag);
    assert AfterEntries(env, node.entries) == AfterEntries(env, flag.entries);
    if flag.anchor == "" || Value(env, node) == Value(env, flag) {
      assert a == b;
    } else {
      assert a[flag.anchor] == Value(env, node) && b[flag.anchor] == Value(env, flag);
      AliasTellsApart(a, b, flag.anchor);
    }
  }

  /** Such a flag: it is anchored and off, an edit turns it on, and its alias turns on with it. */
  lemma {:induction false} AnchoredFlagTurnsAlias() returns (doc: seq<Entry>, e: Edit)
    ensures |doc| == 2 && doc[0].node.Mapping? && doc[0].node.anchor != "" && doc[1].node.Alias?
    ensures EditIn(map[], doc[0].node, e).Ok?
    ensures var now := doc[0 := doc[0].(node := EditIn(map[], doc[0].node, e).value)];
            now[1] == doc[1] && FlagValue(now, 1) != FlagValue(doc, 1)
  {
    var off := Mapping([Entry("disable", FRESH, DISABLED)], "base", FRESH);
    doc := [Entry("first", FRESH, off), Entry("second", FRESH, Alias("base", FRESH))];
    e := Delete("disable");
    assert off.entries[..0] + off.entries[1..] == [];
    var on := Mapping([], "base", FRESH);
    assert off.entries[0].key == "disable";
    var i := KeyIndex(off.entries, "disable");
    assert i == 0;
    assert !HasAnchor(DISABLED);
    assert EditIn(map[], off, e) == Ok(on);
    var now := doc[0 := doc[0].(node := on)];
    AliasOfFirst(doc[0], doc[1], doc);
    AliasOfFirst(now[0], now[1], now);
    FieldsOfField(map[], off.entries, "disable");
    assert "disable" in FieldsOf(map[], off.entries) && "disable" !in FieldsOf(map[], on.entries);
    assert Value(map[], off) == Table(FieldsOf(map[], off.entries)) != Table(FieldsOf(map[], on.entries));
  }

  lemma {:induction false} AliasOfFirst(first: Entry, second: Entry, doc: seq<Entry>)
    requires doc == [first, second] && first.node.Mapping? && first.node.anchor != ""
    requires second.node.Alias? && second.node.name == first.node.anchor
    ensures FlagValue(doc, 1) == Value(map[], first.node)
  {
    assert doc[..1] == [first];
    OneEntry(map[], first);
  }
}
