/** The write protocol of the storage backends (internal/githubapp/client.go, backends/configmap/configmap.go):
    read, check, re-apply, compare and swap, retry. Any number of writers run it step by step on one remote object,
    between edits from outside.

    One remote object is what the server keeps one version for: a file on GitHub, or a ConfigMap, in which every
    file of an environment is a key. */
module WriteProtocol {
  import opened Options

  type Version = string
  type Content = string

  datatype Remote = Absent | Present(version: Version, data: map<string, Content>)

  /** What a request asks for. `apply` may answer differently on each attempt, as its time stamp does. */
  datatype Op =
    | Write(key: string, base: Version, changed: Option<Content -> Result<bool>>,
            apply: (nat, Content) -> Result<Content>, attempts: nat)
    | Create(key: string, content: Content, attempts: nat)

  datatype Outcome = Committed | Unchanged | Conflict | Failed | GaveUp

  /** Where a request is. `first` is the number of the state it read first, `at` of the one it read last. */
  datatype Phase =
    | Reading(attempt: nat, first: nat)
    | Putting(attempt: nat, first: nat, at: nat, seen: Remote, next: Content)
    | Done(outcome: Outcome, first: nat)

  datatype Author = Outside | By(writer: nat, attempt: nat)

  datatype Entry = Entry(author: Author, remote: Remote)

  datatype Request = Request(op: Op, phase: Phase)

  /** The states the remote object has been in, and the requests under way. */
  datatype System = System(log: seq<Entry>, requests: map<nat, Request>)

  function Current(s: System): Remote
    requires s.log != []
  {
    s.log[|s.log| - 1].remote
  }

  // ---------------------------------------------------------------- one request

  /** A write may go ahead on `seen`: it is the version the user had in view, or the user's flag is unchanged. */
  predicate MayLand(op: Op, seen: Remote)
    requires op.Write? && seen.Present? && op.key in seen.data
  {
    op.base == "" || seen.version == op.base || op.changed == None || op.changed.value(seen.data[op.key]) == Ok(false)
  }

  /** What reading does to a request in its `attempt`th round. */
  function AfterRead(op: Op, attempt: nat, first: nat, at: nat, seen: Remote): Phase {
    match op
    case Write(key, base, changed, apply, _) =>
      if seen == Absent || key !in seen.data then Done(Failed, first)
      else
        var content := seen.data[key];
        if base != "" && seen.version != base && changed.Some? && changed.value(content) == Err then Done(Failed, first)
        else if !MayLand(op, seen) then Done(Conflict, first)
        else
          (match apply(attempt, content)
           case Err => Done(Failed, first)
           case Ok(next) =>
             if next == content then Done(Unchanged, first) else Putting(attempt, first, at, seen, next))
    case Create(key, content, _) =>
      if seen.Present? && key in seen.data then Done(Failed, first) else Putting(attempt, first, at, seen, content)
  }

  /** The conditional write: `expected` is what the request read. */
  predicate Accepts(current: Remote, expected: Remote) {
    match expected
    case Absent => current == Absent
    case Present(version, _) => current.Present? && current.version == version
  }

  /** The data after a key is set: a merge patch, or a new object. */
  function WithKey(remote: Remote, key: string, content: Content): map<string, Content> {
    if remote.Present? then remote.data[key := content] else map[key := content]
  }

  /** A request that was refused as stale tries again, as long as it has attempts left. */
  function AfterStale(op: Op, attempt: nat, first: nat): Phase {
    if attempt >= op.attempts then Done(GaveUp, first) else Reading(attempt + 1, first)
  }

  // ---------------------------------------------------------------- steps

  datatype Event =
    | Start(writer: nat, op: Op)
    | Read(writer: nat)
    | Put(writer: nat, version: Version)
    | Break(writer: nat)
    | Edit(remote: Remote)

  /** A version is never given to two different contents. */
  predicate VersionFits(log: seq<Entry>, remote: Remote) {
    remote.Present? ==>
      forall i | 0 <= i < |log| && log[i].remote.Present? ::
        log[i].remote.version == remote.version ==> log[i].remote.data == remote.data
  }

  /** A vanished object is not a stale version: the request fails. */
  predicate PutIsStale(current: Remote, expected: Remote) {
    !Accepts(current, expected) && current.Present?
  }

  predicate Enabled(s: System, e: Event) {
    s.log != [] &&
    match e
    case Start(w, op) => w !in s.requests && op.attempts >= 1
    case Read(w) => w in s.requests && s.requests[w].phase.Reading?
    case Put(w, version) =>
      && w in s.requests && s.requests[w].phase.Putting?
      && var p := s.requests[w].phase;
         Accepts(Current(s), p.seen) ==>
           VersionFits(s.log, Present(version, WithKey(Current(s), s.requests[w].op.key, p.next)))
    case Break(w) => w in s.requests && !s.requests[w].phase.Done?
    case Edit(remote) => VersionFits(s.log, remote)
  }

  function WithPhase(s: System, w: nat, phase: Phase): System
    requires w in s.requests
  {
    s.(requests := s.requests[w := s.requests[w].(phase := phase)])
  }

  function Next(s: System, e: Event): System
    requires Enabled(s, e)
  {
    match e
    case Start(w, op) => s.(requests := s.requests[w := Request(op, Reading(1, |s.log| - 1))])
    case Read(w) =>
      var r := s.requests[w];
      WithPhase(s, w, AfterRead(r.op, r.phase.attempt, r.phase.first, |s.log| - 1, Current(s)))
    case Put(w, version) =>
      var Request(op, p) := s.requests[w];
      if Accepts(Current(s), p.seen) then
        var landed := Entry(By(w, p.attempt), Present(version, WithKey(Current(s), op.key, p.next)));
        WithPhase(s, w, Done(Committed, p.first)).(log := s.log + [landed])
      else if PutIsStale(Current(s), p.seen) then WithPhase(s, w, AfterStale(op, p.attempt, p.first))
      else WithPhase(s, w, Done(Failed, p.first))
    case Break(w) => WithPhase(s, w, Done(Failed, s.requests[w].phase.first))
    case Edit(remote) => s.(log := s.log + [Entry(Outside, remote)])
  }

  predicate Legal(s: System, events: seq<Event>)
    decreases |events|
  {
    events == [] || (Enabled(s, events[0]) && Legal(Next(s, events[0]), events[1..]))
  }

  function Run(s: System, events: seq<Event>): System
    requires Legal(s, events)
    decreases |events|
  {
    if events == [] then s else Run(Next(s, events[0]), events[1..])
  }

  /** A remote object in any state, and nobody at work. */
  function Initial(remote: Remote): System {
    System([Entry(Outside, remote)], map[])
  }

  // ---------------------------------------------------------------- what every run keeps

  ghost predicate VersionsDetermine(log: seq<Entry>) {
    forall i, j | 0 <= i < |log| && 0 <= j < |log| && log[i].remote.Present? && log[j].remote.Present? ::
      log[i].remote.version == log[j].remote.version ==> log[i].remote.data == log[j].remote.data
  }

  /** `after` is `before` with the request's own change made to it, and to nothing else. */
  predicate IsOwnChange(op: Op, attempt: nat, before: Remote, after: Remote) {
    && after.Present?
    && match op
       case Write(key, _, _, apply, _) =>
         && before.Present? && key in before.data
         && MayLand(op, before)
         && apply(attempt, before.data[key]).Ok?
         && after.data == before.data[key := apply(attempt, before.data[key]).value]
         && after.data[key] != before.data[key]
       case Create(key, content, _) =>
         && (before.Present? ==> key !in before.data)
         && after.data == WithKey(before, key, content)
  }

  /** Every state a request made comes from the state directly before it. */
  predicate IsChain(s: System) {
    forall i | 0 <= i < |s.log| && s.log[i].author.By? ::
      && i > 0
      && s.log[i].author.writer in s.requests
      && IsOwnChange(s.requests[s.log[i].author.writer].op, s.log[i].author.attempt,
                     s.log[i - 1].remote, s.log[i].remote)
  }

  predicate WroteAt(log: seq<Entry>, i: nat, w: nat)
    requires i < |log|
  {
    log[i].author.By? && log[i].author.writer == w
  }

  /** A request writes once when it commits, and never otherwise. */
  ghost predicate WritesOnce(s: System) {
    forall w | w in s.requests ::
      && (forall i, j | 0 <= i < j < |s.log| :: !(WroteAt(s.log, i, w) && WroteAt(s.log, j, w)))
      && ((exists i | 0 <= i < |s.log| :: WroteAt(s.log, i, w)) <==>
            s.requests[w].phase.Done? && s.requests[w].phase.outcome == Committed)
  }

  /** What a request has in hand, and how many states went by for every attempt it lost. */
  predicate PhaseFits(log: seq<Entry>, r: Request) {
    r.op.attempts >= 1 &&
    match r.phase
    case Reading(attempt, first) => 1 <= attempt <= r.op.attempts && first + attempt <= |log|
    case Putting(attempt, first, at, seen, next) =>
      && 1 <= attempt <= r.op.attempts
      && first + attempt - 1 <= at < |log|
      && log[at].remote == seen
      && AfterRead(r.op, attempt, first, at, seen) == r.phase
    case Done(outcome, first) => first < |log| && (outcome == GaveUp ==> first + r.op.attempts < |log|)
  }

  ghost predicate Inv(s: System) {
    && s.log != []
    && VersionsDetermine(s.log)
    && IsChain(s)
    && WritesOnce(s)
    && (forall w | w in s.requests :: PhaseFits(s.log, s.requests[w]))
    && (forall i | 0 <= i < |s.log| && s.log[i].author.By? :: s.log[i].author.writer in s.requests)
  }

  lemma {:induction false} InitialInv(remote: Remote)
    ensures Inv(Initial(remote))
  {
  }

  /** An accepted write changes exactly what was read. */
  lemma {:induction false} AcceptedIsOwnChange(s: System, w: nat, version: Version)
    requires Inv(s) && Enabled(s, Put(w, version))
    requires Accepts(Current(s), s.requests[w].phase.seen)
    ensures var Request(op, p) := s.requests[w];
            IsOwnChange(op, p.attempt, Current(s), Present(version, WithKey(Current(s), op.key, p.next)))
  {
    var Request(op, p) := s.requests[w];
    assert PhaseFits(s.log, s.requests[w]);
    assert s.log[p.at].remote == p.seen;
    if p.seen.Present? {
      assert Current(s).data == p.seen.data;
      assert Current(s) == p.seen;
    }
  }

  lemma {:induction false} LongerLogFits(log: seq<Entry>, e: Entry, r: Request)
    requires PhaseFits(log, r)
    ensures PhaseFits(log + [e], r)
  {
    if r.phase.Putting? {
      assert (log + [e])[r.phase.at] == log[r.phase.at];
    }
  }

  lemma {:induction false} LongerVersions(log: seq<Entry>, e: Entry)
    requires VersionsDetermine(log) && VersionFits(log, e.remote)
    ensures VersionsDetermine(log + [e])
  {
  }

  lemma {:induction false} EditKeeps(s: System, remote: Remote)
    requires Inv(s) && Enabled(s, Edit(remote))
    ensures Inv(Next(s, Edit(remote)))
  {
    var e := Entry(Outside, remote);
    var t := Next(s, Edit(remote));
    LongerVersions(s.log, e);
    forall w | w in t.requests
      ensures PhaseFits(t.log, t.requests[w])
    {
      LongerLogFits(s.log, e, t.requests[w]);
    }
    SameWrites(s, t, e);
  }

  lemma {:induction false} SameWrites(s: System, t: System, e: Entry)
    requires WritesOnce(s) && t.requests == s.requests && t.log == s.log + [e] && e.author == Outside
    ensures WritesOnce(t)
  {
    forall w | w in t.requests
      ensures (exists i | 0 <= i < |t.log| :: WroteAt(t.log, i, w)) <==>
              (exists i | 0 <= i < |s.log| :: WroteAt(s.log, i, w))
    {
      if i :| 0 <= i < |s.log| && WroteAt(s.log, i, w) {
        assert WroteAt(t.log, i, w);
      }
      if i :| 0 <= i < |t.log| && WroteAt(t.log, i, w) {
        assert WroteAt(s.log, i, w);
      }
    }
    forall w, i, j | w in t.requests && 0 <= i < j < |t.log|
      ensures !(WroteAt(t.log, i, w) && WroteAt(t.log, j, w))
    {
      assert j < |s.log| ==> !(WroteAt(s.log, i, w) && WroteAt(s.log, j, w));
    }
  }

  /** A step that only moves one request on. */
  lemma {:induction false} PhaseStepKeeps(s: System, w: nat, phase: Phase)
    requires Inv(s) && w in s.requests && !s.requests[w].phase.Done?
    requires phase.Done? ==> phase.outcome != Committed
    requires PhaseFits(s.log, s.requests[w].(phase := phase))
    ensures Inv(WithPhase(s, w, phase))
  {
    var t := WithPhase(s, w, phase);
    assert t.log == s.log && t.requests.Keys == s.requests.Keys;
    assert forall v | v in t.requests :: t.requests[v].op == s.requests[v].op;
    forall v | v in t.requests
      ensures (exists i | 0 <= i < |t.log| :: WroteAt(t.log, i, v))
          <==> t.requests[v].phase.Done? && t.requests[v].phase.outcome == Committed
    {
    }
  }

  lemma {:induction false} StartKeeps(s: System, w: nat, op: Op)
    requires Inv(s) && Enabled(s, Start(w, op))
    ensures Inv(Next(s, Start(w, op)))
  {
    var t := Next(s, Start(w, op));
    forall i | 0 <= i < |s.log|
      ensures !WroteAt(s.log, i, w)
    {
    }
    forall v | v in t.requests
      ensures (exists i | 0 <= i < |t.log| :: WroteAt(t.log, i, v))
          <==> t.requests[v].phase.Done? && t.requests[v].phase.outcome == Committed
    {
      if v != w {
        assert v in s.requests;
      }
    }
  }

  lemma {:induction false} ReadKeeps(s: System, w: nat)
    requires Inv(s) && Enabled(s, Read(w))
    ensures Inv(Next(s, Read(w)))
  {
    hide IsChain, WritesOnce, VersionsDetermine, VersionFits, AfterStale, IsOwnChange;
    var r := s.requests[w];
    assert PhaseFits(s.log, r);
    PhaseStepKeeps(s, w, AfterRead(r.op, r.phase.attempt, r.phase.first, |s.log| - 1, Current(s)));
  }

  /** When a write is refused as stale, the state read is no longer the last one. */
  lemma {:induction false} StaleKeeps(s: System, w: nat)
    requires Inv(s) && w in s.requests && s.requests[w].phase.Putting?
    requires PutIsStale(Current(s), s.requests[w].phase.seen)
    ensures var Request(op, p) := s.requests[w];
            Inv(WithPhase(s, w, AfterStale(op, p.attempt, p.first)))
  {
    var Request(op, p) := s.requests[w];
    assert PhaseFits(s.log, s.requests[w]);
    assert p.at < |s.log| - 1;
    PhaseStepKeeps(s, w, AfterStale(op, p.attempt, p.first));
  }

  lemma {:induction false} LandedKeeps(s: System, w: nat, version: Version)
    requires Inv(s) && Enabled(s, Put(w, version))
    requires Accepts(Current(s), s.requests[w].phase.seen)
    ensures Inv(Next(s, Put(w, version)))
  {
    var Request(op, p) := s.requests[w];
    var t := Next(s, Put(w, version));
    var e := t.log[|s.log|];
    assert t.log == s.log + [e];
    AcceptedIsOwnChange(s, w, version);
    LongerVersions(s.log, e);
    assert PhaseFits(s.log, s.requests[w]);
    forall v | v in t.requests
      ensures PhaseFits(t.log, t.requests[v])
    {
      if v != w {
        LongerLogFits(s.log, e, s.requests[v]);
      }
    }
    assert forall v | v in t.requests :: t.requests[v].op == s.requests[v].op;
    LandedChain(s, t, e);
    LandedOnce(s, t, e, w);
  }

  lemma {:induction false} LandedChain(s: System, t: System, e: Entry)
    requires IsChain(s) && s.log != [] && t.log == s.log + [e] && t.requests.Keys == s.requests.Keys
    requires forall v | v in t.requests :: t.requests[v].op == s.requests[v].op
    requires e.author.By? && e.author.writer in s.requests
    requires IsOwnChange(s.requests[e.author.writer].op, e.author.attempt, Current(s), e.remote)
    ensures IsChain(t)
  {
    forall i | 0 <= i < |t.log| && t.log[i].author.By?
      ensures i > 0 && t.log[i].author.writer in t.requests
      ensures IsOwnChange(t.requests[t.log[i].author.writer].op, t.log[i].author.attempt,
                          t.log[i - 1].remote, t.log[i].remote)
    {
      if i < |s.log| {
        assert t.log[i] == s.log[i] && t.log[i - 1] == s.log[i - 1];
      }
    }
  }

  lemma {:induction false} LandedOnce(s: System, t: System, e: Entry, w: nat)
    requires WritesOnce(s) && w in s.requests && !s.requests[w].phase.Done?
    requires t.log == s.log + [e] && e.author.By? && e.author.writer == w
    requires exists first :: t.requests == s.requests[w := s.requests[w].(phase := Done(Committed, first))]
    ensures WritesOnce(t)
  {
    forall i | 0 <= i < |s.log|
      ensures !WroteAt(s.log, i, w)
    {
    }
    assert WroteAt(t.log, |s.log|, w);
    forall v | v in t.requests
      ensures (exists i | 0 <= i < |t.log| :: WroteAt(t.log, i, v))
          <==> t.requests[v].phase.Done? && t.requests[v].phase.outcome == Committed
      ensures forall i, j | 0 <= i < j < |t.log| :: !(WroteAt(t.log, i, v) && WroteAt(t.log, j, v))
    {
      if i :| 0 <= i < |s.log| && WroteAt(s.log, i, v) {
        assert WroteAt(t.log, i, v);
      }
      if i :| 0 <= i < |t.log| && WroteAt(t.log, i, v) {
        assert i < |s.log| ==> WroteAt(s.log, i, v);
      }
      forall i, j | 0 <= i < j < |t.log|
        ensures !(WroteAt(t.log, i, v) && WroteAt(t.log, j, v))
      {
        assert WroteAt(t.log, i, v) ==> WroteAt(s.log, i, v);
        assert j < |s.log| ==> !(WroteAt(s.log, i, v) && WroteAt(s.log, j, v));
      }
    }
  }

  /** Every step of every request, and every edit from outside, keeps the invariant. */
  lemma {:induction false} NextKeeps(s: System, e: Event)
    requires Inv(s) && Enabled(s, e)
    ensures Inv(Next(s, e))
  {
    match e {
      case Start(w, op) => StartKeeps(s, w, op);
      case Read(w) => ReadKeeps(s, w);
      case Put(w, version) =>
        var Request(op, p) := s.requests[w];
        if Accepts(Current(s), p.seen) {
          LandedKeeps(s, w, version);
        } else if PutIsStale(Current(s), p.seen) {
          StaleKeeps(s, w);
        } else {
          assert PhaseFits(s.log, s.requests[w]);
          PhaseStepKeeps(s, w, Done(Failed, p.first));
        }
      case Break(w) =>
        assert PhaseFits(s.log, s.requests[w]);
        PhaseStepKeeps(s, w, Done(Failed, s.requests[w].phase.first));
      case Edit(remote) => EditKeeps(s, remote);
    }
  }

  /** The past stays as it was, and nobody's request changes. */
  lemma {:induction false} StartFrame(s: System, w: nat, op: Op)
    requires Enabled(s, Start(w, op))
    ensures var t := Next(s, Start(w, op));
            && t.log == s.log && t.requests.Keys == s.requests.Keys + {w} && t.requests[w].op == op
            && forall v | v in s.requests :: v != w && t.requests[v] == s.requests[v]
  {
    hide AfterRead, AfterStale, VersionFits;
  }

  lemma {:induction false} NextFrame(s: System, e: Event)
    requires Enabled(s, e) && !e.Start?
    ensures var t := Next(s, e);
            && s.log <= t.log && t.requests.Keys == s.requests.Keys
            && forall w | w in s.requests :: t.requests[w].op == s.requests[w].op
  {
    hide AfterRead, AfterStale, VersionFits;
  }

  lemma {:induction false} RunKeeps(s: System, events: seq<Event>)
    requires Inv(s) && Legal(s, events)
    ensures Inv(Run(s, events))
    decreases |events|
  {
    if events != [] {
      NextKeeps(s, events[0]);
      RunKeeps(Next(s, events[0]), events[1..]);
    }
  }

  // ---------------------------------------------------------------- the theorems

  /** In every interleaving of any number of requests and outside edits, the states form one chain: each state a
      request made is its own change, applied to the state directly before it. So no update is lost. */
  lemma {:induction false} NoUpdateIsLost(remote: Remote, events: seq<Event>, i: nat)
    requires Legal(Initial(remote), events)
    requires i < |Run(Initial(remote), events).log| && Run(Initial(remote), events).log[i].author.By?
    ensures var s := Run(Initial(remote), events);
            var By(w, attempt) := s.log[i].author;
            && i > 0 && w in s.requests
            && IsOwnChange(s.requests[w].op, attempt, s.log[i - 1].remote, s.log[i].remote)
  {
    InitialInv(remote);
    RunKeeps(Initial(remote), events);
  }

  /** A request writes at most once; one that ended in a conflict, an error, a no-op or by giving up has written
      nothing; and one that gave up was overtaken by at least as many writes of others as it had attempts. */
  lemma {:induction false} RequestsWriteOnce(remote: Remote, events: seq<Event>, w: nat)
    requires Legal(Initial(remote), events) && w in Run(Initial(remote), events).requests
    ensures var s := Run(Initial(remote), events);
            var p := s.requests[w].phase;
            && (forall i, j | 0 <= i < |s.log| && 0 <= j < |s.log| && WroteAt(s.log, i, w) && WroteAt(s.log, j, w) ::
                  i == j)
            && (p.Done? && p.outcome == Committed <==> exists i | 0 <= i < |s.log| :: WroteAt(s.log, i, w))
            && (p.Done? && p.outcome == GaveUp ==>
                  && |s.log| - 1 - p.first >= s.requests[w].op.attempts
                  && forall i | p.first < i < |s.log| :: !WroteAt(s.log, i, w))
  {
    InitialInv(remote);
    RunKeeps(Initial(remote), events);
    var s := Run(Initial(remote), events);
    assert PhaseFits(s.log, s.requests[w]);
  }

  /** Where one version covers many files, a request changes its own file only; and a file was created only where
      there was none directly before. */
  lemma {:induction false} OtherFilesKept(remote: Remote, events: seq<Event>, i: nat, key: string)
    requires Legal(Initial(remote), events)
    requires i < |Run(Initial(remote), events).log| && Run(Initial(remote), events).log[i].author.By?
    ensures var s := Run(Initial(remote), events);
            var before, after := if i == 0 then Absent else s.log[i - 1].remote, s.log[i].remote;
            && i > 0 && s.log[i].author.writer in s.requests && after.Present?
            && var op := s.requests[s.log[i].author.writer].op;
               if key == op.key then
                 key in after.data && (op.Create? ==> before == Absent || key !in before.data)
               else
                 && (key in after.data <==> before.Present? && key in before.data)
                 && (key in after.data ==> after.data[key] == before.data[key])
  {
    NoUpdateIsLost(remote, events, i);
  }

  // ---------------------------------------------------------------- requests get done

  /** Nothing is in the way of a request: the key is there to write and the change applies, or not there to create. */
  predicate IsReady(op: Op, now: Remote) {
    match op
    case Write(key, _, _, apply, _) =>
      && now.Present? && key in now.data && MayLand(op, now)
      && apply(1, now.data[key]).Ok? && apply(1, now.data[key]).value != now.data[key]
    case Create(key, _, _) => now.Present? ==> key !in now.data
  }

  /** The content a request that is ready writes. */
  function Written(op: Op, now: Remote): Content
    requires IsReady(op, now)
  {
    match op
    case Write(key, _, _, apply, _) => apply(1, now.data[key]).value
    case Create(_, content, _) => content
  }

  /** A request that is ready and is not disturbed commits in its three steps, and its change is all that is new. */
  lemma {:induction false} UndisturbedCommits(s: System, w: nat, op: Op, version: Version)
    requires s.log != [] && w !in s.requests && op.attempts >= 1 && IsReady(op, Current(s))
    requires VersionFits(s.log, Present(version, WithKey(Current(s), op.key, Written(op, Current(s)))))
    ensures var events, written := [Start(w, op), Read(w), Put(w, version)], Written(op, Current(s));
            && Legal(s, events)
            && var t := Run(s, events);
               && t.log == s.log + [Entry(By(w, 1), Present(version, WithKey(Current(s), op.key, written)))]
               && t.requests.Keys == s.requests.Keys + {w} && t.requests[w].phase.Done?
               && t.requests[w].phase.outcome == Committed
               && forall v | v in s.requests :: t.requests[v] == s.requests[v]
  {
    hide VersionFits, WithKey;
    var now := Current(s);
    var a := Next(s, Start(w, op));
    assert a.requests[w].phase == Reading(1, |s.log| - 1) && Current(a) == now;
    ReadyReads(op, |s.log| - 1, |s.log| - 1, now);
    var b := Next(a, Read(w));
    assert b.requests[w].phase == Putting(1, |s.log| - 1, |s.log| - 1, now, Written(op, now)) && Current(b) == now;
    assert Accepts(now, now);
    var c := Next(b, Put(w, version));
    LegalThree(s, Start(w, op), Read(w), Put(w, version));
  }

  lemma {:induction false} ReadyReads(op: Op, first: nat, at: nat, now: Remote)
    requires IsReady(op, now)
    ensures AfterRead(op, 1, first, at, now) == Putting(1, first, at, now, Written(op, now))
  {
  }

  lemma {:induction false} LegalThree(s: System, a: Event, b: Event, c: Event)
    requires Enabled(s, a) && Enabled(Next(s, a), b) && Enabled(Next(Next(s, a), b), c)
    ensures Legal(s, [a, b, c]) && Run(s, [a, b, c]) == Next(Next(Next(s, a), b), c)
  {
    hide Enabled, Next;
    var t := Next(Next(Next(s, a), b), c);
    assert [a, b, c][1..] == [b, c] && [b, c][1..] == [c] && [c][1..] == [];
    assert Legal(t, []) && Run(t, []) == t;
    assert Legal(Next(Next(s, a), b), [c]) && Run(Next(Next(s, a), b), [c]) == t;
    assert Legal(Next(s, a), [b, c]) && Run(Next(s, a), [b, c]) == t;
  }

  /** What the conditional write does: it lands exactly where the object still has the version that was read, or is
      still missing; otherwise the request reads again while it has attempts left, unless the object is gone. */
  lemma {:induction false} PutAnswers(s: System, w: nat, version: Version)
    requires Enabled(s, Put(w, version))
    ensures var p, q := s.requests[w].phase, Next(s, Put(w, version)).requests[w].phase;
            var now, attempts := Current(s), s.requests[w].op.attempts;
            var same := if p.seen.Present? then now.Present? && now.version == p.seen.version else now == Absent;
            && (same <==> q == Done(Committed, p.first))
            && (!same && now == Absent <==> q == Done(Failed, p.first))
            && (!same && now.Present? && p.attempt < attempts <==> q == Reading(p.attempt + 1, p.first))
            && (!same && now.Present? && p.attempt >= attempts <==> q == Done(GaveUp, p.first))
  {
    hide VersionFits, WithKey;
  }

  /** What a read makes of a request, told from what was read. A write fails where the object or its key is missing, or
      where asking about the flag or applying the change fails; it conflicts only where the user's view is not the
      current one and the flag changed; it is over where the change changes nothing; and otherwise it has the changed
      content to write. A creation fails where the key is there. */
  lemma {:induction false} ReadAnswers(op: Op, attempt: nat, first: nat, at: nat, seen: Remote)
    ensures var p := AfterRead(op, attempt, first, at, seen);
            match op
            case Write(key, base, changed, apply, _) =>
              if seen == Absent || key !in seen.data then p == Done(Failed, first)
              else
                var content, moved := seen.data[key], base != "" && seen.version != base;
                var asked := if moved && changed.Some? then changed.value(content) else Ok(false);
                && (asked == Err ==> p == Done(Failed, first))
                && (asked == Ok(true) <==> p == Done(Conflict, first))
                && (asked == Ok(false) ==>
                      && (apply(attempt, content) == Err <==> p == Done(Failed, first))
                      && (apply(attempt, content) == Ok(content) <==> p == Done(Unchanged, first))
                      && (apply(attempt, content).Ok? && apply(attempt, content).value != content ==>
                            p == Putting(attempt, first, at, seen, apply(attempt, content).value)))
            case Create(key, content, _) =>
              p == if seen.Present? && key in seen.data then Done(Failed, first)
                   else Putting(attempt, first, at, seen, content)
  {
    if op.Write? && seen.Present? && op.key in seen.data && op.changed.Some? {
      var answer := op.changed.value(seen.data[op.key]);
      if answer.Ok? {
        assert answer == Ok(answer.value);
        assert if answer.value then answer == Ok(true) else answer == Ok(false);
      }
    }
  }

  /** A request can break off at any time before it is done; nothing is written then. */
  lemma {:induction false} BreakWritesNothing(s: System, w: nat)
    requires s.log != [] && w in s.requests && !s.requests[w].phase.Done?
    ensures Enabled(s, Break(w)) && Next(s, Break(w)).log == s.log
    ensures Next(s, Break(w)).requests[w].phase == Done(Failed, s.requests[w].phase.first)
  {
  }
}
