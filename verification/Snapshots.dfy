/** The snapshots the server keeps of what it showed to users, and what a save may land on
    (internal/server/service.go). */
module Snapshots {
  import opened Collections
  import opened Options
  import opened Flags
  import opened WriteProtocol

  datatype CacheKey = CacheKey(file: string, sha: Version)

  datatype CachedFile = CachedFile(sha: Version, flags: map<string, Flag>)

  type History = map<CacheKey, map<string, Flag>>

  /** Flags by key; the last of two with one key wins. */
  function ByKey(flags: seq<Flag>): map<string, Flag> {
    if flags == [] then map[]
    else ByKey(flags[..|flags| - 1])[flags[|flags| - 1].key := flags[|flags| - 1]]
  }

  predicate IsLastOfKey(flags: seq<Flag>, i: nat)
    requires i < |flags|
  {
    forall j | i < j < |flags| :: flags[j].key != flags[i].key
  }

  /** Every flag is found by its key, unless a later one has the same. */
  lemma {:induction false} ByKeyFinds(flags: seq<Flag>, i: nat)
    requires i < |flags| && IsLastOfKey(flags, i)
    ensures flags[i].key in ByKey(flags) && ByKey(flags)[flags[i].key] == flags[i]
    decreases |flags|
  {
    var n := |flags| - 1;
    if i < n {
      var front := flags[..n];
      assert flags[n].key != flags[i].key;
      assert front[i] == flags[i];
      assert forall j | i < j < n :: front[j] == flags[j];
      ByKeyFinds(front, i);
    }
  }

  /** And nothing else is found. */
  lemma {:induction false} ByKeyIsFlag(flags: seq<Flag>, key: string)
    requires key in ByKey(flags)
    ensures ByKey(flags)[key] in flags && ByKey(flags)[key].key == key
    decreases |flags|
  {
    var n := |flags| - 1;
    if flags[n].key != key {
      ByKeyIsFlag(flags[..n], key);
    }
  }

  const HISTORY_LIMIT := 256

  /** What remembering one file at one version makes of the history. */
  function Remembered(history: History, at: CacheKey, flags: map<string, Flag>): History {
    var h := history[at := flags];
    if |h| > HISTORY_LIMIT then map k | k in h && k.sha == at.sha :: h[k] else h
  }

  class SnapshotCache {
    var cache: map<string, CachedFile>
    var history: History

    constructor ()
      ensures cache == map[] && history == map[]
    {
      cache, history := map[], map[];
    }

    /** `remember`. */
    method Remember(file: string, sha: Version, flags: seq<Flag>)
      modifies this
      ensures history == Remembered(old(history), CacheKey(file, sha), ByKey(flags))
      ensures cache == old(cache)[file := CachedFile(sha, ByKey(flags))]
    {
      var byKey: map<string, Flag> := map[];
      var i := 0;
      while i < |flags|
        invariant 0 <= i <= |flags|
        invariant byKey == ByKey(flags[..i])
      {
        assert flags[..i + 1][..i] == flags[..i];
        byKey := byKey[flags[i].key := flags[i]];
        i := i + 1;
      }
      assert flags[..i] == flags;
      cache := cache[file := CachedFile(sha, byKey)];
      history := history[CacheKey(file, sha) := byKey];
      if |history| > HISTORY_LIMIT {
        ghost var full := history;
        var left := history.Keys;
        while left != {}
          invariant left <= full.Keys && history.Keys <= full.Keys
          invariant forall k | k in history :: history[k] == full[k]
          invariant forall k | k in full :: k in history <==> (k in left || k.sha == sha)
          invariant cache == old(cache)[file := CachedFile(sha, ByKey(flags))]
          decreases left
        {
          var k :| k in left;
          left := left - {k};
          if k.sha != sha {
            history := history - {k};
          }
        }
        assert history == map k | k in full && k.sha == sha :: full[k];
      }
    }

    /** `snapshot`. */
    method Snapshot(file: string, sha: Version, key: string) returns (flag: Option<Flag>)
      ensures flag == SnapshotOf(history, file, sha, key)
    {
      if CacheKey(file, sha) !in history {
        return None;
      }
      var entry := history[CacheKey(file, sha)];
      flag := if key in entry then Some(entry[key]) else None;
    }
  }

  function SnapshotOf(history: History, file: string, sha: Version, key: string): Option<Flag> {
    if CacheKey(file, sha) in history && key in history[CacheKey(file, sha)]
    then Some(history[CacheKey(file, sha)][key]) else None
  }

  /** The pair just remembered survives eviction; afterwards the history is small or of a single version; no entry is
      invented; and another entry goes exactly if it is of another version and there would be more than 256. */
  lemma {:induction false} EvictionKeepsNewest(history: History, at: CacheKey, flags: map<string, Flag>)
    ensures var h := Remembered(history, at, flags);
            && at in h && h[at] == flags
            && (|h| <= 256 || forall k | k in h :: k.sha == at.sha)
            && (forall k | k in h && k != at :: k in history && h[k] == history[k])
            && (forall k | k in history && k != at :: k in h <==> k.sha == at.sha || |history.Keys + {at}| <= 256)
  {
    assert history[at := flags].Keys == history.Keys + {at};
    assert |history[at := flags]| == |history[at := flags].Keys|;
  }

  function RememberAll(history: History, loads: seq<(CacheKey, map<string, Flag>)>): History {
    if loads == [] then history
    else
      var n := |loads| - 1;
      Remembered(RememberAll(history, loads[..n]), loads[n].0, loads[n].1)
  }

  /** The `i`th load is the last one of its file and version. */
  predicate IsLastLoad(loads: seq<(CacheKey, map<string, Flag>)>, i: nat)
    requires i < |loads|
  {
    forall j | i < j < |loads| :: loads[j].0 != loads[i].0
  }

  /** Starting empty, a lookup gives what was last remembered for that file and version, or nothing. */
  lemma {:induction false} LookupIsLastRemembered(loads: seq<(CacheKey, map<string, Flag>)>, at: CacheKey)
    returns (i: nat)
    requires at in RememberAll(map[], loads)
    ensures i < |loads| && loads[i].0 == at && IsLastLoad(loads, i)
    ensures RememberAll(map[], loads)[at] == loads[i].1
  {
    hide Remembered;
    var n := |loads| - 1;
    EvictionKeepsNewest(RememberAll(map[], loads[..n]), loads[n].0, loads[n].1);
    if loads[n].0 == at {
      i := n;
    } else {
      i := LookupIsLastRemembered(loads[..n], at);
      assert loads[i] == loads[..n][i];
      forall j | i < j < |loads|
        ensures loads[j].0 != at
      {
        if j < n {
          assert loads[..n][j].0 != at;
        }
      }
    }
  }

  /** What a lookup gives: the flag of that key in the last load of that file and version, as long as the history has
      it; and nothing in no other case but that this load had no such flag. */
  lemma {:induction false} SnapshotIsLastLoad(loads: seq<(CacheKey, map<string, Flag>)>, file: string, sha: Version,
                                              key: string, i: nat)
    requires i < |loads| && loads[i].0 == CacheKey(file, sha) && IsLastLoad(loads, i)
    requires CacheKey(file, sha) in RememberAll(map[], loads)
    ensures SnapshotOf(RememberAll(map[], loads), file, sha, key) ==
            if key in loads[i].1 then Some(loads[i].1[key]) else None
  {
    var j := LookupIsLastRemembered(loads, CacheKey(file, sha));
    assert i == j;
  }

  /** The pairs of file and version that were loaded. */
  function Loaded(loads: seq<(CacheKey, map<string, Flag>)>): set<CacheKey> {
    if loads == [] then {} else Loaded(loads[..|loads| - 1]) + {loads[|loads| - 1].0}
  }

  /** The history has all of them as long as they are no more than 256. */
  lemma {:induction false} StillRemembered(loads: seq<(CacheKey, map<string, Flag>)>)
    requires |Loaded(loads)| <= 256
    ensures RememberAll(map[], loads).Keys == Loaded(loads)
    decreases |loads|
  {
    hide Remembered;
    if loads != [] {
      var n := |loads| - 1;
      SmallerSubset(Loaded(loads[..n]), Loaded(loads));
      StillRemembered(loads[..n]);
      RememberedKeys(RememberAll(map[], loads[..n]), loads[n].0, loads[n].1);
    }
  }

  lemma {:induction false} RememberedKeys(history: History, at: CacheKey, flags: map<string, Flag>)
    requires |history.Keys + {at}| <= 256
    ensures Remembered(history, at, flags).Keys == history.Keys + {at}
  {
    hide Remembered;
    EvictionKeepsNewest(history, at, flags);
  }

  // ---------------------------------------------------------------- saves

  /** What the adapter reads from a file. */
  type Parser = (string, Content) -> Result<map<string, Flag>>

  /** `flagChanged`: an unreadable file and a vanished flag count as changed. */
  function FlagChanged(parse: Parser, file: string, key: string, loaded: Option<Flag>, current: Content): Result<bool> {
    if loaded == None then Ok(false) else
    match parse(file, current)
    case Err => Ok(true)
    case Ok(flags) => Ok(if key in flags then !SameFlagState(loaded.value, flags[key]) else true)
  }

  /** What a save was asked to do, with the flag that was in view. */
  datatype Save = Save(file: string, base: Version, key: string, loaded: Option<Flag>)

  /** One remote object, the server in front of it and the saves it has begun. `files` are the files the object
      holds; the history may hold others too. */
  datatype Service = Service(system: System, history: History, saves: map<nat, Save>, files: set<string>, parse: Parser)

  datatype Action =
    | Load(file: string)
    | LoadElsewhere(at: CacheKey, flags: map<string, Flag>)
    | BeginSave(writer: nat, file: string, base: Version, key: string, apply: (nat, Content) -> Result<Content>)
    | Advance(event: Event)

  function SaveOf(s: Service, file: string, base: Version, key: string): Save {
    Save(file, base, key, SnapshotOf(s.history, file, base, key))
  }

  /** `Save` refuses a view it does not know. */
  predicate IsStaleView(s: Service, save: Save) {
    save.loaded == None && save.base != "" && CacheKey(save.file, save.base) !in s.history
  }

  function SaveOp(s: Service, save: Save, apply: (nat, Content) -> Result<Content>): Op {
    var parse := s.parse;
    Write(save.file, save.base, Some(content => FlagChanged(parse, save.file, save.key, save.loaded, content)), apply,
          3)
  }

  predicate CanAct(s: Service, a: Action) {
    s.system.log != [] &&
    match a
    case Load(file) =>
      var now := Current(s.system);
      file in s.files && now.Present? && file in now.data && s.parse(file, now.data[file]).Ok?
    case LoadElsewhere(at, _) => at.file !in s.files
    case BeginSave(w, file, base, key, apply) => file in s.files && w !in s.system.requests
    case Advance(event) => !event.Start? && Enabled(s.system, event)
  }

  function Act(s: Service, a: Action): Service
    requires CanAct(s, a)
  {
    match a
    case Load(file) =>
      var now := Current(s.system);
      s.(history := Remembered(s.history, CacheKey(file, now.version), s.parse(file, now.data[file]).value))
    case LoadElsewhere(at, flags) => s.(history := Remembered(s.history, at, flags))
    case BeginSave(w, file, base, key, apply) =>
      var save := SaveOf(s, file, base, key);
      if IsStaleView(s, save) then s
      else s.(system := Next(s.system, Start(w, SaveOp(s, save, apply))), saves := s.saves[w := save])
    case Advance(event) => s.(system := Next(s.system, event))
  }

  predicate Possible(s: Service, actions: seq<Action>)
    decreases |actions|
  {
    actions == [] || (CanAct(s, actions[0]) && Possible(Act(s, actions[0]), actions[1..]))
  }

  function Perform(s: Service, actions: seq<Action>): Service
    requires Possible(s, actions)
    decreases |actions|
  {
    if actions == [] then s else Perform(Act(s, actions[0]), actions[1..])
  }

  function Opened(remote: Remote, files: set<string>, parse: Parser): Service {
    Service(Initial(remote), map[], map[], files, parse)
  }

  // ---------------------------------------------------------------- what every run of the service keeps

  /** The flags of `file` were read from the object while it had that version. */
  predicate WasShown(s: Service, at: CacheKey, flags: map<string, Flag>) {
    exists i | 0 <= i < |s.system.log| ::
      var r := s.system.log[i].remote;
      r.Present? && r.version == at.sha && at.file in r.data && s.parse(at.file, r.data[at.file]) == Ok(flags)
  }

  predicate HistoryFits(s: Service) {
    forall at | at in s.history && at.file in s.files :: WasShown(s, at, s.history[at])
  }

  ghost predicate SaveFits(s: Service, w: nat)
    requires w in s.saves && w in s.system.requests
  {
    var save, op := s.saves[w], s.system.requests[w].op;
    && op.Write? && op.key == save.file && op.base == save.base && save.file in s.files
    && op.changed.Some?
    && (forall c :: op.changed.value(c) == FlagChanged(s.parse, save.file, save.key, save.loaded, c))
    && (save.loaded.Some? ==>
          exists flags :: WasShown(s, CacheKey(save.file, save.base), flags)
                          && save.key in flags && flags[save.key] == save.loaded.value)
  }

  ghost predicate ServiceInv(s: Service) {
    && Inv(s.system)
    && HistoryFits(s)
    && s.saves.Keys == s.system.requests.Keys
    && forall w | w in s.saves :: SaveFits(s, w)
  }

  lemma {:induction false} StillShown(s: Service, t: Service, at: CacheKey, flags: map<string, Flag>)
    requires WasShown(s, at, flags) && t.parse == s.parse && s.system.log <= t.system.log
    ensures WasShown(t, at, flags)
  {
    var i :| 0 <= i < |s.system.log| &&
             var r := s.system.log[i].remote;
             r.Present? && r.version == at.sha && at.file in r.data && s.parse(at.file, r.data[at.file]) == Ok(flags);
    assert t.system.log[i] == s.system.log[i];
  }

  lemma {:induction false} StillFits(s: Service, t: Service, w: nat)
    requires w in s.saves && w in s.system.requests && SaveFits(s, w)
    requires w in t.saves && w in t.system.requests
    requires t.saves[w] == s.saves[w] && t.system.requests[w].op == s.system.requests[w].op
    requires t.parse == s.parse && t.files == s.files && s.system.log <= t.system.log
    ensures SaveFits(t, w)
  {
    var save := s.saves[w];
    if save.loaded.Some? {
      var flags :| WasShown(s, CacheKey(save.file, save.base), flags)
                   && save.key in flags && flags[save.key] == save.loaded.value;
      StillShown(s, t, CacheKey(save.file, save.base), flags);
    }
  }

  lemma {:induction false} RememberKeeps(s: Service, at: CacheKey, flags: map<string, Flag>)
    requires ServiceInv(s) && (at.file in s.files ==> WasShown(s, at, flags))
    ensures ServiceInv(s.(history := Remembered(s.history, at, flags)))
  {
    var t := s.(history := Remembered(s.history, at, flags));
    EvictionKeepsNewest(s.history, at, flags);
    forall k | k in t.history && k.file in t.files
      ensures WasShown(t, k, t.history[k])
    {
      if k != at {
        StillShown(s, t, k, s.history[k]);
      } else {
        StillShown(s, t, k, flags);
      }
    }
    forall w | w in t.saves
      ensures SaveFits(t, w)
    {
      StillFits(s, t, w);
    }
  }

  lemma {:induction false} AdvanceKeeps(s: Service, e: Event)
    requires ServiceInv(s) && CanAct(s, Advance(e))
    ensures ServiceInv(Act(s, Advance(e)))
  {
    hide Next, Enabled, Inv, Remembered, FlagChanged;
    var t := Act(s, Advance(e));
    NextKeeps(s.system, e);
    NextFrame(s.system, e);
    forall k | k in t.history && k.file in t.files
      ensures WasShown(t, k, t.history[k])
    {
      StillShown(s, t, k, s.history[k]);
    }
    forall w | w in t.saves
      ensures SaveFits(t, w)
    {
      StillFits(s, t, w);
    }
  }

  lemma {:induction false} BeginKeeps(s: Service, w: nat, file: string, base: Version, key: string,
                                      apply: (nat, Content) -> Result<Content>)
    requires ServiceInv(s) && CanAct(s, BeginSave(w, file, base, key, apply))
    ensures ServiceInv(Act(s, BeginSave(w, file, base, key, apply)))
  {
    hide Inv, Next, FlagChanged, Remembered;
    var save := SaveOf(s, file, base, key);
    var t := Act(s, BeginSave(w, file, base, key, apply));
    if !IsStaleView(s, save) {
      StartFrame(s.system, w, SaveOp(s, save, apply));
      NextKeeps(s.system, Start(w, SaveOp(s, save, apply)));
      forall k | k in t.history && k.file in t.files
        ensures WasShown(t, k, t.history[k])
      {
        StillShown(s, t, k, s.history[k]);
      }
      forall v | v in t.saves
        ensures SaveFits(t, v)
      {
        if v != w {
          StillFits(s, t, v);
        } else if save.loaded.Some? {
          var at := CacheKey(file, base);
          StillShown(s, t, at, s.history[at]);
        }
      }
    }
  }

  lemma {:induction false} PerformKeeps(s: Service, actions: seq<Action>)
    requires ServiceInv(s) && Possible(s, actions)
    ensures ServiceInv(Perform(s, actions))
    ensures Perform(s, actions).parse == s.parse
    decreases |actions|
  {
    if actions != [] {
      match actions[0] {
        case Load(file) =>
          var now := Current(s.system);
          var i := |s.system.log| - 1;
          assert s.system.log[i].remote == now;
          RememberKeeps(s, CacheKey(file, now.version), s.parse(file, now.data[file]).value);
        case LoadElsewhere(at, flags) => RememberKeeps(s, at, flags);
        case BeginSave(w, file, base, key, apply) => BeginKeeps(s, w, file, base, key, apply);
        case Advance(e) => AdvanceKeeps(s, e);
      }
      PerformKeeps(Act(s, actions[0]), actions[1..]);
    }
  }

  lemma {:induction false} OpenedInv(remote: Remote, files: set<string>, parse: Parser)
    ensures ServiceInv(Opened(remote, files, parse))
  {
    InitialInv(remote);
  }

  /** Where a shown version comes back, so do the contents. */
  lemma {:induction false} ShownContents(s: Service, at: CacheKey, flags: map<string, Flag>, remote: Remote, k: nat)
    requires Inv(s.system) && WasShown(s, at, flags)
    requires k < |s.system.log| && s.system.log[k].remote == remote && remote.Present? && remote.version == at.sha
    ensures at.file in remote.data && s.parse(at.file, remote.data[at.file]) == Ok(flags)
  {
    hide IsChain, WritesOnce, PhaseFits;
    var j :| 0 <= j < |s.system.log| &&
             var r := s.system.log[j].remote;
             r.Present? && r.version == at.sha && at.file in r.data && s.parse(at.file, r.data[at.file]) == Ok(flags);
    assert s.system.log[j].remote.data == remote.data;
  }

  lemma {:induction false} LandsOnUnchanged(s: Service, i: nat)
    requires ServiceInv(s) && i < |s.system.log| && s.system.log[i].author.By?
    ensures var w := s.system.log[i].author.writer;
            && i > 0 && w in s.saves
            && var save, before := s.saves[w], s.system.log[i - 1].remote;
               && before.Present? && save.file in before.data
               && (save.base != "" && save.loaded.Some? ==>
                     var flags := s.parse(save.file, before.data[save.file]);
                     flags.Ok? && save.key in flags.value
                     && SameFlagState(save.loaded.value, flags.value[save.key]))
  {
    hide HistoryFits, WritesOnce, PhaseFits, VersionsDetermine, SameFlagState, WasShown;
    var w := s.system.log[i].author.writer;
    var save, before := s.saves[w], s.system.log[i - 1].remote;
    assert SaveFits(s, w);
    if save.base != "" && save.loaded.Some? && before.version == save.base {
      var flags :| WasShown(s, CacheKey(save.file, save.base), flags)
                   && save.key in flags && flags[save.key] == save.loaded.value;
      ShownContents(s, CacheKey(save.file, save.base), flags, before, i - 1);
      SameAsItself(save.loaded.value);
    }
  }

  /** The comparison never holds up a save without a flag in view; and a file that cannot be read, or has lost the flag,
      counts as changed. */
  lemma {:induction false} FlagChangedElsewhere(parse: Parser, file: string, key: string, loaded: Option<Flag>,
                                                current: Content)
    ensures loaded == None ==> FlagChanged(parse, file, key, loaded, current) == Ok(false)
    ensures loaded.Some? && (parse(file, current) == Err || key !in parse(file, current).value) ==>
              FlagChanged(parse, file, key, loaded, current) == Ok(true)
  {
  }

  /** A save is let through over whatever the comparison does not see, such as another user's change of a ramp, an
      experimentation or a bucketing key; and, for a flag without zero shares, over nothing else. */
  lemma {:induction false} FlagChangedSees(parse: Parser, file: string, key: string, loaded: Flag, current: Content)
    requires parse(file, current).Ok? && key in parse(file, current).value
    ensures var now := parse(file, current).value[key];
            && (ViewOf(loaded) == ViewOf(now) ==> FlagChanged(parse, file, key, Some(loaded), current) == Ok(false))
            && (NoZeroShares(loaded) ==>
                  (FlagChanged(parse, file, key, Some(loaded), current) == Ok(false) <==>
                   ViewOf(loaded) == ViewOf(now)))
  {
    hide SameFlagState, ViewOf, NoZeroShares;
    SameFlagStateIsSameView(loaded, parse(file, current).value[key]);
  }

  /** Whatever else happens, a save that was made from a known version with the flag in view only ever lands on a
      content whose flag compares as the same as the one that was in view; `SameFlagStateIsSameView` says what that
      covers and what it does not. */
  lemma {:induction false} SaveLandsOnUnchangedFlag(remote: Remote, files: set<string>, parse: Parser,
                                                   actions: seq<Action>, i: nat)
    requires Possible(Opened(remote, files, parse), actions)
    requires i < |Perform(Opened(remote, files, parse), actions).system.log|
    requires Perform(Opened(remote, files, parse), actions).system.log[i].author.By?
    ensures var s := Perform(Opened(remote, files, parse), actions);
            var w := s.system.log[i].author.writer;
            && i > 0 && w in s.saves
            && var save, before := s.saves[w], s.system.log[i - 1].remote;
               && before.Present? && save.file in before.data
               && (save.base != "" && save.loaded.Some? ==>
                     var flags := parse(save.file, before.data[save.file]);
                     flags.Ok? && save.key in flags.value
                     && SameFlagState(save.loaded.value, flags.value[save.key]))
  {
    hide Perform, Possible, ServiceInv, SameFlagState;
    OpenedInv(remote, files, parse);
    PerformKeeps(Opened(remote, files, parse), actions);
    LandsOnUnchanged(Perform(Opened(remote, files, parse), actions), i);
  }

  // ---------------------------------------------------------------- a save, from its beginning

  lemma {:induction false} PerformConcat(s: Service, a: seq<Action>, b: seq<Action>)
    requires Possible(s, a + b)
    ensures Possible(s, a) && Possible(Perform(s, a), b) && Perform(s, a + b) == Perform(Perform(s, a), b)
    decreases |a|
  {
    hide CanAct, Act;
    if a == [] {
      assert a + b == b;
    } else {
      assert (a + b)[0] == a[0] && (a + b)[1..] == a[1..] + b;
      PerformConcat(Act(s, a[0]), a[1..], b);
    }
  }

  /** A save is begun exactly if its view is known, or it has none. */
  lemma {:induction false} SaveBegins(s: Service, w: nat, file: string, base: Version, key: string,
                                      apply: (nat, Content) -> Result<Content>)
    requires ServiceInv(s) && CanAct(s, BeginSave(w, file, base, key, apply))
    ensures var t := Act(s, BeginSave(w, file, base, key, apply));
            if base == "" || CacheKey(file, base) in s.history then
              && w in t.saves && t.saves[w] == SaveOf(s, file, base, key) && w in t.system.requests
              && var op := t.system.requests[w].op;
                 op.Write? && op.key == file && op.base == base && op.apply == apply && op.attempts == 3
            else t == s
  {
    hide FlagChanged;
  }

  lemma {:induction false} BeginFrame(s: Service, w: nat, file: string, base: Version, key: string,
                                      apply: (nat, Content) -> Result<Content>)
    requires CanAct(s, BeginSave(w, file, base, key, apply))
    ensures var t := Act(s, BeginSave(w, file, base, key, apply));
            t.parse == s.parse && file in s.files && s.system.log <= t.system.log
  {
    hide Next, FlagChanged;
    if !IsStaleView(s, SaveOf(s, file, base, key)) {
      StartFrame(s.system, w, SaveOp(s, SaveOf(s, file, base, key), apply));
    }
  }

  lemma {:induction false} SavesStay(s: Service, actions: seq<Action>, w: nat)
    requires ServiceInv(s) && Possible(s, actions) && w in s.saves
    ensures var t := Perform(s, actions); w in t.saves && t.saves[w] == s.saves[w] && s.system.log <= t.system.log
    decreases |actions|
  {
    hide Next, Enabled, Inv, Remembered, FlagChanged, HistoryFits, SaveFits;
    if actions != [] {
      var a := actions[0];
      OneActionKeeps(s, a);
      SaveStays(s, a, w);
      SavesStay(Act(s, a), actions[1..], w);
    }
  }

  lemma {:induction false} OneActionKeeps(s: Service, a: Action)
    requires ServiceInv(s) && CanAct(s, a)
    ensures ServiceInv(Act(s, a))
  {
    hide ServiceInv;
    assert [a][1..] == [];
    assert Possible(Act(s, a), []);
    PerformKeeps(s, [a]);
    assert Perform(Act(s, a), []) == Act(s, a);
  }

  lemma {:induction false} SaveStays(s: Service, a: Action, w: nat)
    requires ServiceInv(s) && CanAct(s, a) && w in s.saves
    ensures var t := Act(s, a); w in t.saves && t.saves[w] == s.saves[w] && s.system.log <= t.system.log
  {
    hide Inv, Remembered, FlagChanged, HistoryFits, SaveFits;
    match a {
      case Advance(e) => NextFrame(s.system, e);
      case BeginSave(v, file, base, key, apply) =>
        if !IsStaleView(s, SaveOf(s, file, base, key)) {
          StartFrame(s.system, v, SaveOp(s, SaveOf(s, file, base, key), apply));
        }
      case _ =>
    }
  }

  /** In every run: a save from a version whose flags the history has, made of a flag that was in them, only ever lands
      on a content whose flag compares as the same as what the file held of that flag at that version. So nobody's
      change of the flag, in so far as the comparison sees it, is overwritten. */
  lemma {:induction false} SaveLandsOnWhatWasShown(remote: Remote, files: set<string>, parse: Parser,
                                                  before: seq<Action>, w: nat, file: string, base: Version, key: string,
                                                  apply: (nat, Content) -> Result<Content>, after: seq<Action>, i: nat,
                                                  j: nat)
    requires Possible(Opened(remote, files, parse), before + ([BeginSave(w, file, base, key, apply)] + after))
    requires Possible(Opened(remote, files, parse), before)
    requires base != "" && CacheKey(file, base) in Perform(Opened(remote, files, parse), before).history
    requires var s := Perform(Opened(remote, files, parse), before + ([BeginSave(w, file, base, key, apply)] + after));
             && i < |s.system.log| && s.system.log[i].author.By? && s.system.log[i].author.writer == w
             && j < |s.system.log|
             && var r := s.system.log[j].remote;
                && r.Present? && r.version == base && file in r.data && parse(file, r.data[file]).Ok?
                && key in parse(file, r.data[file]).value
    ensures var s := Perform(Opened(remote, files, parse), before + ([BeginSave(w, file, base, key, apply)] + after));
            && i > 0
            && var shown, now := parse(file, s.system.log[j].remote.data[file]).value, s.system.log[i - 1].remote;
               && now.Present? && file in now.data && parse(file, now.data[file]).Ok?
               && key in parse(file, now.data[file]).value
               && SameFlagState(shown[key], parse(file, now.data[file]).value[key])
  {
    hide Perform, Possible, ServiceInv, SameFlagState, Act, CanAct;
    var a, s0 := BeginSave(w, file, base, key, apply), Opened(remote, files, parse);
    var s := Perform(s0, before + ([a] + after));
    OpenedInv(remote, files, parse);
    PerformConcat(s0, before, [a] + after);
    PerformKeeps(s0, before);
    var s1 := Perform(s0, before);
    OneStep(s1, a, after);
    var s2 := Act(s1, a);
    SaveBegins(s1, w, file, base, key, apply);
    BeginFrame(s1, w, file, base, key, apply);
    OneActionKeeps(s1, a);
    SavesStay(s2, after, w);
    PerformKeeps(s2, after);
    LoadedIsShown(s1, s, file, base, key, j);
    LandsOnUnchanged(s, i);
  }

  lemma {:induction false} OneStep(s: Service, a: Action, after: seq<Action>)
    requires Possible(s, [a] + after)
    ensures CanAct(s, a) && Possible(Act(s, a), after) && Perform(s, [a] + after) == Perform(Act(s, a), after)
  {
    hide CanAct, Act;
    assert ([a] + after)[0] == a && ([a] + after)[1..] == after;
  }

  /** The flag a save is begun with is what the file held at the version it is made from. */
  lemma {:induction false} LoadedIsShown(s: Service, t: Service, file: string, base: Version, key: string, j: nat)
    requires ServiceInv(s) && ServiceInv(t) && t.parse == s.parse && file in s.files && s.system.log <= t.system.log
    requires CacheKey(file, base) in s.history && j < |t.system.log|
    requires var r := t.system.log[j].remote;
             && r.Present? && r.version == base && file in r.data && t.parse(file, r.data[file]).Ok?
             && key in t.parse(file, r.data[file]).value
    ensures SaveOf(s, file, base, key).loaded == Some(t.parse(file, t.system.log[j].remote.data[file]).value[key])
  {
    hide Inv, SaveFits;
    var at := CacheKey(file, base);
    StillShown(s, t, at, s.history[at]);
    ShownContents(t, at, s.history[at], t.system.log[j].remote, j);
  }

  /** And saves do land: load a file, and save one of its flags from the version that was shown. */
  lemma {:induction false} LoadedSaveLands(remote: Remote, files: set<string>, parse: Parser, w: nat, file: string,
                                           key: string, apply: (nat, Content) -> Result<Content>, version: Version)
    requires remote.Present? && file in files && file in remote.data && parse(file, remote.data[file]).Ok?
    requires key in parse(file, remote.data[file]).value
    requires apply(1, remote.data[file]).Ok? && apply(1, remote.data[file]).value != remote.data[file]
    requires remote.version != version
    ensures var s0 := Opened(remote, files, parse);
            var actions := [Load(file), BeginSave(w, file, remote.version, key, apply), Advance(Read(w)),
                            Advance(Put(w, version))];
            && Possible(s0, actions)
            && var s := Perform(s0, actions);
               && w in s.saves && s.saves[w].loaded == Some(parse(file, remote.data[file]).value[key])
               && s.system.log == s0.system.log
                  + [Entry(By(w, 1), Present(version, remote.data[file := apply(1, remote.data[file]).value]))]
  {
    hide FlagChanged, Next, Enabled, Legal, Run, VersionFits, CanAct, Act, Possible, Perform, Remembered;
    var s0 := Opened(remote, files, parse);
    var a, b, c, d := Load(file), BeginSave(w, file, remote.version, key, apply), Advance(Read(w)),
                      Advance(Put(w, version));
    var save := Save(file, remote.version, key, Some(parse(file, remote.data[file]).value[key]));
    var s1 := BeginsFromLoad(s0, remote, w, file, key, apply);
    var op := SaveOp(s1, save, apply);
    OpenedReady(remote, op, version);
    UndisturbedCommits(s0.system, w, op, version);
    ThreeSteps(s0.system, Start(w, op), Read(w), Put(w, version));
    var s2 := Act(s1, b);
    AdvanceOnce(s2, Read(w));
    var s3 := Act(s2, c);
    AdvanceOnce(s3, Put(w, version));
    FourActions(s0, a, b, c, d);
  }

  lemma {:induction false} BeginsFromLoad(s: Service, now: Remote, w: nat, file: string, key: string,
                                          apply: (nat, Content) -> Result<Content>) returns (t: Service)
    requires s.system.log != [] && Current(s.system) == now && w !in s.system.requests
    requires now.Present? && file in s.files && file in now.data && s.parse(file, now.data[file]).Ok?
    requires key in s.parse(file, now.data[file]).value
    ensures CanAct(s, Load(file)) && t == Act(s, Load(file))
    ensures CanAct(t, BeginSave(w, file, now.version, key, apply)) && t.parse == s.parse
    ensures var save := Save(file, now.version, key, Some(s.parse(file, now.data[file]).value[key]));
            var u := Act(t, BeginSave(w, file, now.version, key, apply));
            && u.system == Next(s.system, Start(w, SaveOp(t, save, apply))) && u.saves == s.saves[w := save]
  {
    hide FlagChanged, Next, Remembered;
    t := Act(s, Load(file));
    EvictionKeepsNewest(s.history, CacheKey(file, now.version), s.parse(file, now.data[file]).value);
    StartIsEnabled(s.system, w, SaveOp(t, SaveOf(t, file, now.version, key), apply));
  }

  lemma {:induction false} StartIsEnabled(s: System, w: nat, op: Op)
    requires s.log != [] && w !in s.requests && op.attempts >= 1
    ensures Enabled(s, Start(w, op))
  {
  }

  lemma {:induction false} OpenedReady(remote: Remote, op: Op, version: Version)
    requires op.Write? && remote.Present? && op.key in remote.data && op.base == remote.version != version
    requires op.apply(1, remote.data[op.key]).Ok? && op.apply(1, remote.data[op.key]).value != remote.data[op.key]
    ensures IsReady(op, remote)
    ensures VersionFits(Initial(remote).log, Present(version, WithKey(remote, op.key, Written(op, remote))))
  {
  }

  lemma {:induction false} ThreeSteps(s: System, a: Event, b: Event, c: Event)
    requires Legal(s, [a, b, c])
    ensures Enabled(s, a) && Enabled(Next(s, a), b) && Enabled(Next(Next(s, a), b), c)
    ensures Run(s, [a, b, c]) == Next(Next(Next(s, a), b), c)
  {
    hide Enabled, Next;
    assert [a, b, c][1..] == [b, c] && [b, c][1..] == [c];
    assert Legal(Next(s, a), [b, c]) && Legal(Next(Next(s, a), b), [c]);
    LegalThree(s, a, b, c);
  }

  lemma {:induction false} AdvanceOnce(s: Service, e: Event)
    requires !e.Start? && Enabled(s.system, e)
    ensures CanAct(s, Advance(e)) && Act(s, Advance(e)) == s.(system := Next(s.system, e))
  {
    hide Next;
  }

  lemma {:induction false} FourActions(s: Service, a: Action, b: Action, c: Action, d: Action)
    requires CanAct(s, a) && CanAct(Act(s, a), b) && CanAct(Act(Act(s, a), b), c)
    requires CanAct(Act(Act(Act(s, a), b), c), d)
    ensures Possible(s, [a, b, c, d]) && Perform(s, [a, b, c, d]) == Act(Act(Act(Act(s, a), b), c), d)
  {
    hide CanAct, Act;
    var s1 := Act(s, a);
    var s2 := Act(s1, b);
    var s3 := Act(s2, c);
    var s4 := Act(s3, d);
    assert [a, b, c, d][1..] == [b, c, d] && [b, c, d][1..] == [c, d] && [c, d][1..] == [d] && [d][1..] == [];
    assert Possible(s4, []) && Perform(s4, []) == s4;
    assert Possible(s3, [d]) && Perform(s3, [d]) == s4;
    assert Possible(s2, [c, d]) && Perform(s2, [c, d]) == s4;
    assert Possible(s1, [b, c, d]) && Perform(s1, [b, c, d]) == s4;
  }
}
