/** The document object itself: edits change its tree in place, and splices write its lines back
    (internal/goff/yamldoc.go, `Serialize` of internal/goff/adapter.go). */
module YamlDocument {
  import opened Options
  import opened Strings
  import opened YamlEdit
  import opened YamlLines
  import opened YamlTree

  predicate RowsKnown(flags: seq<Entry>) {
    forall i | 0 <= i < |flags| :: flags[i].keyLook.row > 0
  }

  function KeysOf(flags: seq<Entry>): seq<Key>
    requires RowsKnown(flags)
  {
    seq(|flags|, i requires 0 <= i < |flags| => Key(flags[i].key, flags[i].keyLook.row - 1))
  }

  /** The document with one flag's node changed, or the reason it cannot be. */
  function EditFlag(flags: seq<Entry>, key: string, e: Edit): Result<seq<Entry>> {
    if !HasKey(flags, key) || !flags[KeyIndex(flags, key)].node.Mapping? then Err
    else
      var i := KeyIndex(flags, key);
      match EditIn(AfterEntries(map[], flags[..i]), flags[i].node, e)
      case Err => Err
      case Ok(node) => Ok(flags[i := flags[i].(node := node)])
  }

  lemma {:induction false} IndexIs(entries: seq<Entry>, key: string, i: nat)
    requires i < |entries| && entries[i].key == key && forall j | 0 <= j < i :: entries[j].key != key
    ensures HasKey(entries, key) && KeyIndex(entries, key) == i
  {
    var k := KeyIndex(entries, key);
    assert entries[k].key == key;
  }

  lemma {:induction false} EditKeepsMapping(env: Env, flag: Node, e: Edit)
    requires flag.Mapping? && EditIn(env, flag, e).Ok?
    ensures EditIn(env, flag, e).value.Mapping?
  {
  }

  /** A whole run of edits is the edits one after the other. */
  lemma {:induction false} EditFlagThen(flags: seq<Entry>, key: string, e: Edit, rest: seq<Edit>)
    requires HasKey(flags, key) && flags[KeyIndex(flags, key)].node.Mapping?
    ensures var i := KeyIndex(flags, key);
            var env := AfterEntries(map[], flags[..i]);
            match EditFlag(flags, key, e)
            case Err => EditAll(env, flags[i].node, [e] + rest).Err?
            case Ok(now) =>
              && |now| == |flags| && HasKey(now, key) && KeyIndex(now, key) == i && now[..i] == flags[..i]
              && now == flags[i := flags[i].(node := now[i].node)]
              && now[i].node.Mapping?
              && EditAll(env, flags[i].node, [e] + rest) == EditAll(env, now[i].node, rest)
  {
    hide SetFieldIn, DeleteFieldIn, AfterEntries;
    var i := KeyIndex(flags, key);
    assert ([e] + rest)[1..] == rest;
    match EditFlag(flags, key, e) {
      case Err =>
      case Ok(now) =>
        EditKeepsMapping(AfterEntries(map[], flags[..i]), flags[i].node, e);
        assert now[..i] == flags[..i];
        IndexIs(now, key, i);
    }
  }

  lemma {:induction false} LastNodeStays(flags: seq<Entry>, i: nat, first: Node, second: Node)
    requires i < |flags|
    ensures var once := flags[i := flags[i].(node := first)];
            once[i := once[i].(node := second)] == flags[i := flags[i].(node := second)]
  {
  }

  lemma {:induction false} NoEdits(env: Env, flag: Node)
    requires flag.Mapping?
    ensures EditAll(env, flag, []) == Ok(flag)
  {
  }

  class Doc {
    var flags: seq<Entry>
    var lines: seq<string>

    constructor (flags: seq<Entry>, lines: seq<string>)
      ensures this.flags == flags && this.lines == lines
    {
      this.flags, this.lines := flags, lines;
    }

    ghost predicate Valid()
      reads this
    {
      RowsKnown(flags) && Laid(KeysOf(flags), lines)
    }

    /** The place of a key, or the number of flags. */
    method FlagIndex(key: string) returns (i: nat)
      ensures i <= |flags|
      ensures if HasKey(flags, key) then i < |flags| && i == KeyIndex(flags, key) else i == |flags|
    {
      i := 0;
      while i < |flags| && flags[i].key != key
        invariant 0 <= i <= |flags|
        invariant forall j | 0 <= j < i :: flags[j].key != key
      {
        i := i + 1;
      }
      if i < |flags| {
        IndexIs(flags, key, i);
      }
    }

    /** `SetField`. */
    method SetField(key: string, field: string, next: Node) returns (ok: bool)
      modifies this`flags
      ensures ok <==> EditFlag(old(flags), key, SetTo(field, next)).Ok?
      ensures ok ==> flags == EditFlag(old(flags), key, SetTo(field, next)).value
      ensures !ok ==> flags == old(flags)
    {
      var at := FlagIndex(key);
      if at == |flags| || !flags[at].node.Mapping? {
        return false;
      }
      var flag, i := flags[at].node, 0;
      while i < |flag.entries| && flag.entries[i].key != field
        invariant 0 <= i <= |flag.entries|
        invariant forall j | 0 <= j < i :: flag.entries[j].key != field
      {
        i := i + 1;
      }
      if i == |flag.entries| {
        flags := flags[at := flags[at].(node := flag.(entries := flag.entries + [Entry(field, FRESH, next)]))];
        return true;
      }
      IndexIs(flag.entries, field, i);
      var here := AfterEntries(AfterEntries(map[], flags[..at]), flag.entries[..i]);
      var was := flag.entries[i];
      if Value(here, was.node) == Value(here, next) {
        assert flags == flags[at := flags[at].(node := flag)];
        return true;
      }
      var node := next;
      if field == "metadata" {
        var merged := Merge(here, was.node, next);
        if merged.Err? {
          return false;
        }
        node := merged.value;
      } else {
        if HasAnchor(was.node) {
          return false;
        }
        node := WithComments(next, was.node);
      }
      flags := flags[at := flags[at].(node := flag.(entries := flag.entries[i := was.(node := node)]))];
      return true;
    }

    /** `DeleteField`; the key's node is not a sequence, whose items the source would take for pairs. */
    method DeleteField(key: string, field: string) returns (ok: bool)
      requires HasKey(flags, key) ==> flags[KeyIndex(flags, key)].node.Mapping?
      modifies this`flags
      ensures ok <==> EditFlag(old(flags), key, Delete(field)).Ok?
      ensures ok ==> flags == EditFlag(old(flags), key, Delete(field)).value
      ensures !ok ==> flags == old(flags)
    {
      var at := FlagIndex(key);
      if at == |flags| {
        return false;
      }
      var flag, i := flags[at].node, 0;
      while i < |flag.entries| && flag.entries[i].key != field
        invariant 0 <= i <= |flag.entries|
        invariant forall j | 0 <= j < i :: flag.entries[j].key != field
      {
        i := i + 1;
      }
      if i < |flag.entries| {
        IndexIs(flag.entries, field, i);
        if HasAnchor(flag.entries[i].node) {
          return false;
        }
        flags := flags[at := flags[at].(node := flag.(entries := flag.entries[..i] + flag.entries[i + 1..]))];
      } else {
        assert flags == flags[at := flags[at].(node := flag)];
      }
      return true;
    }

    /** `Serialize` of a flag that is there: the edits of a draft in their order, until one is refused. */
    method Serialize(key: string, d: Draft) returns (ok: bool)
      modifies this`flags
      ensures ok ==> HasKey(old(flags), key)
      ensures HasKey(old(flags), key) ==>
                var written := SerializeIn(old(flags), KeyIndex(old(flags), key), d);
                (ok <==> written.Ok?) && (ok ==> flags == written.value)
    {
      hide EditFlag, EditAll, AfterEntries, SerializeEdits;
      var at := FlagIndex(key);
      if at == |flags| || !flags[at].node.Mapping? {
        return false;
      }
      var edits, k := SerializeEdits(d), 0;
      ghost var was := flags;
      ghost var env := AfterEntries(map[], flags[..at]);
      assert edits[0..] == edits;
      while k < |edits|
        invariant 0 <= k <= |edits|
        invariant HasKey(flags, key) && KeyIndex(flags, key) == at && at < |flags| && flags[at].node.Mapping?
        invariant |flags| == |was| && flags[..at] == was[..at] && flags == was[at := was[at].(node := flags[at].node)]
        invariant EditAll(env, was[at].node, edits) == EditAll(env, flags[at].node, edits[k..])
      {
        assert edits[k..] == [edits[k]] + edits[k + 1..];
        EditFlagThen(flags, key, edits[k], edits[k + 1..]);
        ghost var before := flags;
        match edits[k] {
          case SetTo(field, next) => ok := SetField(key, field, next);
          case Delete(field) => ok := DeleteField(key, field);
        }
        if !ok {
          return;
        }
        LastNodeStays(was, at, before[at].node, flags[at].node);
        k := k + 1;
      }
      assert edits[k..] == [];
      NoEdits(env, flags[at].node);
      return true;
    }

    /** `blockOf`. */
    method BlockOf(key: string) returns (start: nat, end: nat, ok: bool)
      requires Valid()
      ensures ok <==> HasKey(flags, key)
      ensures ok ==>
                var keys, i := KeysOf(flags), KeyIndex(flags, key);
                start == keys[i].line && end == BlockEnd(keys, lines, i)
    {
      var i := FlagIndex(key);
      if i == |flags| {
        return 0, 0, false;
      }
      start := flags[i].keyLook.row - 1;
      end := |lines|;
      if i + 1 < |flags| {
        end := flags[i + 1].keyLook.row - 1;
      }
      ghost var keys := KeysOf(flags);
      assert end == Limit(keys, lines, i);
      while end > start + 1 && IsBlankOrComment(lines[end - 1])
        invariant start < end <= |lines|
        invariant TrimEnd(lines, start, end) == BlockEnd(keys, lines, i)
      {
        end := end - 1;
      }
      ok := true;
    }

    /** `SpliceFlag`, given how the flag is rendered. */
    method SpliceFlag(key: string, rendered: seq<string>) returns (text: Option<seq<string>>)
      requires Valid()
      ensures text ==
              if HasKey(flags, key) then Some(Replaced(KeysOf(flags), lines, KeyIndex(flags, key), rendered)) else None
    {
      var start, end, ok := BlockOf(key);
      if !ok {
        return None;
      }
      return Some(lines[..start] + rendered + lines[end..]);
    }

    /** `SpliceDelete`. */
    method SpliceDelete(key: string) returns (text: Option<seq<string>>)
      requires Valid()
      ensures text == if HasKey(flags, key) then Some(Removed(KeysOf(flags), lines, KeyIndex(flags, key))) else None
    {
      var start, end, ok := BlockOf(key);
      if !ok {
        return None;
      }
      assert lines[..start] + [] + lines[end..] == lines[..start] + lines[end..];
      return Some(lines[..start] + lines[end..]);
    }

    /** `appendFlag`, given how the flag is rendered. */
    method AppendFlag(rendered: seq<string>) returns (text: seq<string>)
      ensures text == Appended(lines, rendered)
    {
      hide Trim;
      var trimmed := |lines|;
      assert lines[..trimmed] == lines;
      while trimmed > 0 && Trim(lines[trimmed - 1]) == ""
        invariant 0 <= trimmed <= |lines|
        invariant WithoutBlankEnd(lines) == WithoutBlankEnd(lines[..trimmed])
      {
        assert lines[..trimmed][..trimmed - 1] == lines[..trimmed - 1];
        trimmed := trimmed - 1;
      }
      return lines[..trimmed] + rendered;
    }
  }
}
