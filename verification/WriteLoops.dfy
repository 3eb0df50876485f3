/** The retry loops themselves: `Commit` of internal/githubapp/client.go, which the other backends' `Write` repeats,
    and `CreateFile` of backends/configmap/configmap.go. */
module WriteLoops {
  import opened Options
  import opened WriteProtocol

  datatype Answer = Accepted | Stale | Broken

  /** One remote object, with every state it has been in. */
  class Server {
    var remote: Remote
    var log: seq<Entry>

    ghost predicate Valid()
      reads this
    {
      log != [] && log[|log| - 1].remote == remote && VersionsDetermine(log)
    }

    constructor (remote: Remote)
      ensures Valid() && this.remote == remote && log == [Entry(Outside, remote)]
    {
      this.remote := remote;
      log := [Entry(Outside, remote)];
    }

    /** What others do in the meantime. An edit that would give a known version to new contents cannot happen. */
    method Edits(edits: seq<Remote>)
      requires Valid()
      modifies this
      ensures Valid() && old(log) <= log
      ensures forall i | |old(log)| <= i < |log| :: log[i].author == Outside
      ensures |log| == |old(log)| ==> remote == old(remote)
      ensures edits == [] ==> log == old(log)
    {
      var k := 0;
      while k < |edits|
        invariant 0 <= k <= |edits|
        invariant Valid() && old(log) <= log
        invariant forall i | |old(log)| <= i < |log| :: log[i].author == Outside
        invariant |log| == |old(log)| ==> remote == old(remote)
        invariant edits == [] ==> log == old(log)
      {
        if VersionFits(log, edits[k]) {
          LongerVersions(log, Entry(Outside, edits[k]));
          remote := edits[k];
          log := log + [Entry(Outside, edits[k])];
        }
        k := k + 1;
      }
    }

    /** The conditional write: it succeeds exactly when the object still is what `expected` says and the version the
        server gives is not one of other contents. */
    method Put(author: Author, expected: Remote, key: string, next: Content, version: Version) returns (answer: Answer)
      requires Valid()
      modifies this
      ensures Valid()
      ensures answer == Accepted <==>
                && Accepts(old(remote), expected)
                && VersionFits(old(log), Present(version, WithKey(old(remote), key, next)))
      ensures answer == Accepted ==>
                && remote == Present(version, WithKey(old(remote), key, next))
                && log == old(log) + [Entry(author, remote)]
      ensures answer != Accepted ==> remote == old(remote) && log == old(log)
      ensures answer == Stale <==> PutIsStale(old(remote), expected)
    {
      var written := Present(version, WithKey(remote, key, next));
      if Accepts(remote, expected) && VersionFits(log, written) {
        LongerVersions(log, Entry(author, written));
        remote := written;
        log := log + [Entry(author, written)];
        answer := Accepted;
      } else {
        answer := if PutIsStale(remote, expected) then Stale else Broken;
      }
    }
  }

  /** What happens around one attempt: the edits others land before the read and between read and write, and the
      version the server would give. */
  datatype Turn = Turn(beforeRead: seq<Remote>, beforePut: seq<Remote>, version: Version)

  datatype CommitResult = CommitResult(outcome: Outcome, attempts: nat, retried: bool)

  /** Everything that landed since `start` came from outside. */
  predicate OnlyOthers(log: seq<Entry>, start: nat) {
    forall i | start <= i < |log| :: log[i].author == Outside
  }

  /** The user's view is not the current one. */
  predicate Moved(now: Remote, op: Op)
    requires op.Write? && now.Present?
  {
    op.base != "" && now.version != op.base
  }

  /** A request cannot go on from what it read: the key is missing, or there already; or asking whether the flag
      changed, or applying the change, fails. */
  predicate CannotGoOn(now: Remote, op: Op, attempt: nat) {
    match op
    case Write(key, _, changed, apply, _) =>
      || now == Absent || key !in now.data
      || (Moved(now, op) && changed.Some? && changed.value(now.data[key]) == Err)
      || apply(attempt, now.data[key]) == Err
    case Create(key, _, _) => now.Present? && key in now.data
  }

  /** Why a request stopped without writing, seen from the last state. */
  predicate Reason(now: Remote, op: Op, r: CommitResult) {
    match r.outcome
    case Failed => CannotGoOn(now, op, r.attempts)
    case Conflict =>
      && op.Write? && now.Present? && op.key in now.data
      && Moved(now, op) && op.changed.Some? && op.changed.value(now.data[op.key]) == Ok(true)
    case Unchanged =>
      && op.Write? && now.Present? && op.key in now.data
      && op.apply(r.attempts, now.data[op.key]) == Ok(now.data[op.key])
    case _ => false
  }

  /** Why a write fails for good: the object is gone, or the server gives a version that was others' already. */
  predicate Refused(log: seq<Entry>, version: Version) {
    log != [] &&
    (log[|log| - 1].remote == Absent
     || exists i | 0 <= i < |log| :: log[i].remote.Present? && log[i].remote.version == version)
  }

  /** What happened to one request, told from the states from `start` on. A commit is reported as retried exactly if it
      took more than one attempt or the user's view was no longer the current one; and `version` is what the server gave
      in the last attempt. */
  predicate Account(log: seq<Entry>, start: nat, w: nat, op: Op, version: Version, r: CommitResult) {
    1 <= start <= |log| &&
    match r.outcome
    case Committed =>
      && start < |log|
      && OnlyOthers(log[..|log| - 1], start)
      && log[|log| - 1].author == By(w, r.attempts)
      && IsOwnChange(op, r.attempts, log[|log| - 2].remote, log[|log| - 1].remote)
      && log[|log| - 1].remote.version == version
      && (r.retried <==> r.attempts > 1 || (op.Write? && Moved(log[|log| - 2].remote, op)))
    case GaveUp => OnlyOthers(log, start) && |log| - start >= op.attempts
    case Failed => OnlyOthers(log, start) && (Reason(log[|log| - 1].remote, op, r) || Refused(log, version))
    case _ => OnlyOthers(log, start) && Reason(log[|log| - 1].remote, op, r)
  }

  /** Accepting means the contents are the ones that were read. */
  lemma {:induction false} AcceptedIsSame(log: seq<Entry>, at: nat, seen: Remote, now: Remote)
    requires VersionsDetermine(log) && at < |log| && log[at].remote == seen && log[|log| - 1].remote == now
    ensures Accepts(now, seen) ==> now == seen
  {
  }

  lemma {:induction false} StaleMeansEdited(log: seq<Entry>, at: nat, current: Remote, now: Remote)
    requires 0 < at <= |log| && log[at - 1].remote == current && log[|log| - 1].remote == now
    requires PutIsStale(now, current)
    ensures at < |log|
  {
  }

  lemma {:induction false} LandedAccount(before: seq<Entry>, log: seq<Entry>, start: nat, w: nat, op: Op,
                                         version: Version, r: CommitResult, now: Remote)
    requires 1 <= start <= |before| && OnlyOthers(before, start) && log == before + [Entry(By(w, r.attempts), now)]
    requires r.outcome == Committed && IsOwnChange(op, r.attempts, before[|before| - 1].remote, now)
    requires now.version == version
    requires r.retried <==> r.attempts > 1 || (op.Write? && Moved(before[|before| - 1].remote, op))
    ensures Account(log, start, w, op, version, r)
  {
    assert log[..|log| - 1] == before;
  }

  lemma {:induction false} LeftAlone(log: seq<Entry>, start: nat, w: nat, op: Op, version: Version, r: CommitResult)
    requires 1 <= start <= |log| && OnlyOthers(log, start)
    requires match r.outcome
             case Committed => false
             case GaveUp => |log| - start >= op.attempts
             case Failed => Reason(log[|log| - 1].remote, op, r) || Refused(log, version)
             case _ => Reason(log[|log| - 1].remote, op, r)
    ensures Account(log, start, w, op, version, r)
  {
  }

  lemma {:induction false} BrokenIsRefused(log: seq<Entry>, seen: Remote, now: Remote, next: Remote)
    requires log != [] && log[|log| - 1].remote == now && next.Present?
    requires !PutIsStale(now, seen) && !(Accepts(now, seen) && VersionFits(log, next))
    ensures Refused(log, next.version)
  {
  }

  lemma {:induction false} OwnWrite(op: Op, attempt: nat, before: Remote, next: Content, version: Version)
    requires op.Write? && before.Present? && op.key in before.data && MayLand(op, before)
    requires op.apply(attempt, before.data[op.key]) == Ok(next) && next != before.data[op.key]
    ensures IsOwnChange(op, attempt, before, Present(version, WithKey(before, op.key, next)))
  {
  }

  lemma {:induction false} OwnCreate(op: Op, attempt: nat, before: Remote, version: Version)
    requires op.Create? && (before.Present? ==> op.key !in before.data)
    ensures IsOwnChange(op, attempt, before, Present(version, WithKey(before, op.key, op.content)))
  {
  }

  lemma {:induction false} ReadyGoesOn(op: Op, now: Remote, retried: bool, outcome: Outcome)
    requires IsReady(op, now) && (outcome == Failed || outcome == Conflict || outcome == Unchanged)
    ensures !Reason(now, op, CommitResult(outcome, 1, retried))
  {
  }

  /** Undisturbed and ready, a request commits at once. */
  lemma {:induction false} ReadyCommits(before: seq<Entry>, log: seq<Entry>, w: nat, op: Op, version: Version,
                                        r: CommitResult)
    requires before != [] && op.attempts >= 1 && Account(log, |before|, w, op, version, r)
    requires IsReady(op, before[|before| - 1].remote) && !Refused(before, version)
    requires r.attempts == 1 && (if r.outcome == Committed then log[..|log| - 1] == before else log == before)
    ensures r.outcome == Committed && log[|log| - 1].remote.version == version
    ensures IsOwnChange(op, 1, before[|before| - 1].remote, log[|log| - 1].remote)
  {
    hide Refused, IsReady, Reason, IsOwnChange;
    if r.outcome == Committed {
      assert log[..|log| - 1][|before| - 1] == log[|log| - 2];
    } else if r.outcome != GaveUp {
      ReadyGoesOn(op, before[|before| - 1].remote, r.retried, r.outcome);
    }
  }

  predicate Undisturbed(turn: Turn) {
    turn.beforeRead == [] && turn.beforePut == []
  }

  /** In each of the first `n` attempts others were at work between read and write. */
  predicate Overtaken(schedule: seq<Turn>, n: nat)
    requires n <= |schedule|
  {
    forall k | 0 <= k < n :: schedule[k].beforePut != []
  }

  /** What a request makes of its schedule: the account; a new attempt only where the last one was overtaken; giving up
      only after all of them were; and a commit at once where nothing is in the way. */
  predicate Kept(was: seq<Entry>, log: seq<Entry>, w: nat, op: Op, schedule: seq<Turn>, r: CommitResult) {
    && 1 <= |was| <= |log| && was <= log
    && 1 <= r.attempts <= op.attempts <= |schedule|
    && Account(log, |was|, w, op, schedule[r.attempts - 1].version, r)
    && Overtaken(schedule, if r.outcome == GaveUp then r.attempts else r.attempts - 1)
    && (r.outcome == GaveUp ==> r.attempts == op.attempts)
    && var last := was[|was| - 1].remote;
       Undisturbed(schedule[0]) && IsReady(op, last) && !Refused(was, schedule[0].version) ==>
         && r.outcome == Committed && r.attempts == 1
         && IsOwnChange(op, 1, last, log[|log| - 1].remote) && log[|log| - 1].remote.version == schedule[0].version
  }

  lemma {:induction false} LandedKept(was: seq<Entry>, before: seq<Entry>, log: seq<Entry>, w: nat, op: Op,
                                      schedule: seq<Turn>, r: CommitResult)
    requires 1 <= |was| <= |before| && was <= before && OnlyOthers(before, |was|)
    requires 1 <= r.attempts <= op.attempts <= |schedule| && Overtaken(schedule, r.attempts - 1)
    requires r.attempts == 1 && Undisturbed(schedule[0]) ==> before == was
    requires log != [] && log == before + [Entry(By(w, r.attempts), log[|log| - 1].remote)]
    requires r.outcome == Committed && IsOwnChange(op, r.attempts, before[|before| - 1].remote, log[|log| - 1].remote)
    requires log[|log| - 1].remote.version == schedule[r.attempts - 1].version
    requires r.retried <==> r.attempts > 1 || (op.Write? && Moved(before[|before| - 1].remote, op))
    ensures Kept(was, log, w, op, schedule, r)
  {
    hide IsOwnChange, Refused, IsReady;
    LandedAccount(before, log, |was|, w, op, schedule[r.attempts - 1].version, r, log[|log| - 1].remote);
  }

  lemma {:induction false} StoppedKept(was: seq<Entry>, log: seq<Entry>, w: nat, op: Op, schedule: seq<Turn>,
                                       r: CommitResult)
    requires 1 <= |was| <= |log| && was <= log && OnlyOthers(log, |was|)
    requires 1 <= r.attempts <= op.attempts <= |schedule| && Overtaken(schedule, r.attempts - 1)
    requires r.attempts == 1 && Undisturbed(schedule[0]) ==> log == was
    requires match r.outcome
             case Committed => false
             case GaveUp => |log| - |was| >= op.attempts == r.attempts && Overtaken(schedule, r.attempts)
             case Failed => Reason(log[|log| - 1].remote, op, r) || Refused(log, schedule[r.attempts - 1].version)
             case _ => Reason(log[|log| - 1].remote, op, r)
    ensures Kept(was, log, w, op, schedule, r)
  {
    hide IsOwnChange, Refused, IsReady, Reason;
    LeftAlone(log, |was|, w, op, schedule[r.attempts - 1].version, r);
    if Undisturbed(schedule[0]) && IsReady(op, was[|was| - 1].remote) && !Refused(was, schedule[0].version) {
      assert r.attempts == 1;
      ReadyCommits(was, log, w, op, schedule[0].version, r);
    }
  }

  lemma {:induction false} OneMoreOvertaken(schedule: seq<Turn>, n: nat)
    requires n < |schedule| && Overtaken(schedule, n) && schedule[n].beforePut != []
    ensures Overtaken(schedule, n + 1)
  {
  }

  /** One round of `Commit` between read and write: compare with the base version, ask whether the user's flag changed,
      and re-apply. It stops, or says what to write; it is the protocol's step. */
  method Decide(current: Remote, op: Op, attempt: nat, retried: bool) returns (stop: Option<Outcome>, next: Content,
                                                                               again: bool)
    requires op.Write?
    ensures stop.Some? ==> Reason(current, op, CommitResult(stop.value, attempt, again))
    ensures stop.None? ==>
              && current.Present? && op.key in current.data && MayLand(op, current)
              && op.apply(attempt, current.data[op.key]) == Ok(next) && next != current.data[op.key]
    ensures stop.None? ==> (again <==> retried || Moved(current, op))
    ensures forall first: nat, at: nat :: AfterRead(op, attempt, first, at, current) ==
              match stop case Some(o) => Done(o, first) case None => Putting(attempt, first, at, current, next)
  {
    stop, next, again := None, "", retried;
    if current == Absent || op.key !in current.data {
      return Some(Failed), next, again;
    }
    var content := current.data[op.key];
    if op.base != "" && current.version != op.base {
      again := true;
      if op.changed.Some? {
        var changed := op.changed.value(content);
        if changed == Err {
          return Some(Failed), next, again;
        }
        if changed.value {
          return Some(Conflict), next, again;
        }
      }
    }
    var applied := op.apply(attempt, content);
    if applied == Err {
      return Some(Failed), next, again;
    }
    next := applied.value;
    if next == content {
      return Some(Unchanged), next, false;
    }
  }

  /** `Commit`: read, decide, write conditionally, and start over when the write is stale, which takes an edit between
      read and write. */
  method Commit(server: Server, w: nat, op: Op, schedule: seq<Turn>) returns (r: CommitResult)
    requires server.Valid() && op.Write? && op.attempts >= 1 && |schedule| >= op.attempts
    modifies server
    ensures server.Valid() && Kept(old(server.log), server.log, w, op, schedule, r)
  {
    hide VersionsDetermine, Accepts, PutIsStale, IsOwnChange, WithKey, Account, Reason, MayLand, Refused, IsReady,
         AfterRead, VersionFits, Kept, Overtaken;
    ghost var was := server.log;
    var retried := false;
    var attempt := 1;
    NoneOvertaken(schedule);
    while attempt <= op.attempts
      invariant 1 <= attempt <= op.attempts + 1
      invariant server.Valid() && was <= server.log
      invariant OnlyOthers(server.log, |was|)
      invariant |server.log| - |was| >= attempt - 1
      invariant attempt == 1 ==> server.log == was
      invariant retried <==> attempt > 1
      invariant Overtaken(schedule, attempt - 1)
    {
      var turn := schedule[attempt - 1];
      server.Edits(turn.beforeRead);
      var current := server.remote;
      ghost var at := |server.log|;
      var stop, next, again := Decide(current, op, attempt, retried);
      if stop.Some? {
        r := CommitResult(stop.value, attempt, again);
        StoppedKept(was, server.log, w, op, schedule, r);
        return;
      }
      server.Edits(turn.beforePut);
      ghost var before := server.log;
      assert before[at - 1].remote == current;
      AcceptedIsSame(before, at - 1, current, server.remote);
      OwnWrite(op, attempt, current, next, turn.version);
      var answer := server.Put(By(w, attempt), current, op.key, next, turn.version);
      if answer == Accepted {
        r := CommitResult(Committed, attempt, again);
        LandedKept(was, before, server.log, w, op, schedule, r);
        return;
      }
      if answer == Broken {
        BrokenIsRefused(before, current, server.remote, Present(turn.version, WithKey(server.remote, op.key, next)));
        r := CommitResult(Failed, attempt, again);
        StoppedKept(was, server.log, w, op, schedule, r);
        return;
      }
      StaleMeansEdited(server.log, at, current, server.remote);
      OneMoreOvertaken(schedule, attempt - 1);
      retried := true;
      attempt := attempt + 1;
    }
    r := CommitResult(GaveUp, op.attempts, retried);
    FewerOvertaken(schedule, op.attempts);
    StoppedKept(was, server.log, w, op, schedule, r);
  }

  lemma {:induction false} NoneOvertaken(schedule: seq<Turn>)
    ensures Overtaken(schedule, 0)
  {
  }

  lemma {:induction false} FewerOvertaken(schedule: seq<Turn>, n: nat)
    requires 1 <= n <= |schedule| && Overtaken(schedule, n)
    ensures Overtaken(schedule, n - 1) && !Undisturbed(schedule[0])
  {
    assert schedule[0].beforePut != [];
  }

  /** `CreateFile`: add the key if it is not there, creating the object if need be; never overwrite. */
  method CreateFile(server: Server, w: nat, op: Op, schedule: seq<Turn>) returns (r: CommitResult)
    requires server.Valid() && op.Create? && op.attempts >= 1 && |schedule| >= op.attempts
    modifies server
    ensures server.Valid() && Kept(old(server.log), server.log, w, op, schedule, r)
  {
    hide VersionsDetermine, Accepts, PutIsStale, WithKey, Reason, Account, IsOwnChange, Refused, IsReady, VersionFits,
         Kept, Overtaken;
    ghost var was := server.log;
    var attempt := 1;
    NoneOvertaken(schedule);
    while attempt <= op.attempts
      invariant 1 <= attempt <= op.attempts + 1
      invariant server.Valid() && was <= server.log
      invariant OnlyOthers(server.log, |was|)
      invariant |server.log| - |was| >= attempt - 1
      invariant attempt == 1 ==> server.log == was
      invariant Overtaken(schedule, attempt - 1)
    {
      var turn := schedule[attempt - 1];
      server.Edits(turn.beforeRead);
      var current := server.remote;
      ghost var at := |server.log|;
      if current.Present? && op.key in current.data {
        r := CommitResult(Failed, attempt, attempt > 1);
        IsThere(current, op, r);
        StoppedKept(was, server.log, w, op, schedule, r);
        return;
      }
      server.Edits(turn.beforePut);
      ghost var before := server.log;
      assert before[at - 1].remote == current;
      AcceptedIsSame(before, at - 1, current, server.remote);
      var answer := server.Put(By(w, attempt), current, op.key, op.content, turn.version);
      if answer == Accepted {
        OwnCreate(op, attempt, current, turn.version);
        r := CommitResult(Committed, attempt, attempt > 1);
        LandedKept(was, before, server.log, w, op, schedule, r);
        return;
      }
      if answer == Broken {
        BrokenIsRefused(before, current, server.remote,
                        Present(turn.version, WithKey(server.remote, op.key, op.content)));
        r := CommitResult(Failed, attempt, attempt > 1);
        StoppedKept(was, server.log, w, op, schedule, r);
        return;
      }
      StaleMeansEdited(server.log, at, current, server.remote);
      OneMoreOvertaken(schedule, attempt - 1);
      attempt := attempt + 1;
    }
    r := CommitResult(GaveUp, op.attempts, true);
    FewerOvertaken(schedule, op.attempts);
    StoppedKept(was, server.log, w, op, schedule, r);
  }

  lemma {:induction false} IsThere(now: Remote, op: Op, r: CommitResult)
    requires op.Create? && now.Present? && op.key in now.data && r.outcome == Failed
    ensures Reason(now, op, r)
  {
  }
}
