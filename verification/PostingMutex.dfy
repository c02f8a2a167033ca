/** `posting_lock_with_content` as interleaved steps of threads in several processes: the pending
    hashes of each process, the lock file's path, and the advisory lock of each inode. */
module PostingMutex {
  import opened Text

  /** Where a thread stands. `Leaving` is the start of the `finally` block. */
  datatype Place = Outside | Waiting | Opened | Locked | Inside | Leaving | Releasing | Unlinking | Gone {
    /** In the body of the `try`, past the check. */
    predicate Working() {
      Waiting? || Opened? || Locked? || Inside?
    }
    /** Before opening the lock file, or after closing it. */
    predicate Closed() {
      Outside? || Waiting? || Unlinking? || Gone?
    }
  }

  /** A thread's locals: `added` is the source's `content_hash_added`, `handle` the inode that its
      open lock file refers to. */
  datatype Thread = Thread(process: nat, hash: string, place: Place, added: bool, handle: Option<nat>) {
    /** The thread put its hash into the pending set and has not taken it out. */
    predicate Owns() {
      added && (place.Working() || place.Leaving?)
    }
    predicate HoldsLock() {
      place.Locked? || place.Inside?
    }
  }

  datatype State = State(
    threads: map<nat, Thread>,
    pending: set<(nat, string)>,
    path: Option<nat>,
    nextInode: nat,
    locks: map<nat, nat>
  )

  /** What a thread may do next; a step that is not enabled where the thread stands does nothing. */
  datatype Action =
    | Enter          // the in-memory check, and the hash added if it is not pending
    | TimeOut        // the wait is over: the hash is discarded and TimeoutError raised
    | OpenFile       // opening the lock file, which creates it if the path is free
    | TryLock        // the non-blocking lock: taken, or the handle closed again
    | WritePid       // the lock file written, control yielded
    | Finish         // the caller's block ends
    | Raise          // an exception, wherever it comes from outside the pending set's lock
    | Discard        // the `finally` block takes the hash out if it was added
    | Release        // the handle unlocked and closed
    | ReleaseFails   // unlocking raises: the handle stays open and the lock held
    | Unlink         // the lock file removed from the path, if the path exists
    | UnlinkFails    // removing it raises

  function With(s: State, t: nat, th: Thread): State
    requires t in s.threads
  {
    s.(threads := s.threads[t := th])
  }

  function Step(s: State, t: nat, a: Action): State {
    if t !in s.threads then s
    else
      var th := s.threads[t];
      var id := (th.process, th.hash);
      match a
      case Enter =>
        if th.place != Outside then s
        else if id in s.pending then With(s, t, th.(place := Leaving))
        else With(s, t, th.(place := Waiting, added := true)).(pending := s.pending + {id})
      case TimeOut =>
        if th.place != Waiting then s
        else With(s, t, th.(place := Leaving, added := false)).(pending := s.pending - {id})
      case OpenFile =>
        if th.place != Waiting then s
        else if s.path.Some? then With(s, t, th.(place := Opened, handle := s.path))
        else With(s, t, th.(place := Opened, handle := Some(s.nextInode)))
             .(path := Some(s.nextInode), nextInode := s.nextInode + 1)
      case TryLock =>
        if th.place != Opened || th.handle.None? then s
        else if th.handle.value in s.locks then With(s, t, th.(place := Waiting, handle := None))
        else With(s, t, th.(place := Locked)).(locks := s.locks[th.handle.value := t])
      case WritePid =>
        if th.place != Locked then s else With(s, t, th.(place := Inside))
      case Finish =>
        if th.place != Inside then s else With(s, t, th.(place := Leaving))
      case Raise =>
        if !th.place.Working() then s else With(s, t, th.(place := Leaving))
      case Discard =>
        if th.place != Leaving then s
        else
          var s' := if th.added then s.(pending := s.pending - {id}) else s;
          With(s', t, th.(place := Releasing))
      case Release =>
        if th.place != Releasing then s
        else if th.handle.None? then With(s, t, th.(place := Gone))
        else
          var i := th.handle.value;
          var s' := if i in s.locks && s.locks[i] == t then s.(locks := s.locks - {i}) else s;
          With(s', t, th.(place := Unlinking, handle := None))
      case ReleaseFails =>
        if th.place != Releasing || th.handle.None? then s else With(s, t, th.(place := Unlinking))
      case Unlink =>
        if th.place != Unlinking then s else With(s, t, th.(place := Gone)).(path := None)
      case UnlinkFails =>
        if th.place != Unlinking then s else With(s, t, th.(place := Gone))
  }

  /** A run: who moves and how, in order. */
  type Trace = seq<(nat, Action)>

  function Run(s: State, trace: Trace): State {
    if trace == [] then s
    else
      var last := trace[|trace| - 1];
      Step(Run(s, trace[..|trace| - 1]), last.0, last.1)
  }

  /** Threads about to call, nothing pending, no lock held; the lock file may or may not exist. */
  predicate Initial(s: State) {
    && (forall t | t in s.threads :: s.threads[t].place == Outside && !s.threads[t].added && s.threads[t].handle.None?)
    && s.pending == {}
    && s.locks == map[]
    && (s.path.Some? ==> s.path.value < s.nextInode)
  }

  // ---------------------------------------------------------------- the invariant

  /** The pending set is exactly what the threads own. */
  ghost predicate PendingIsOwned(s: State) {
    && (forall t | t in s.threads && s.threads[t].Owns() :: (s.threads[t].process, s.threads[t].hash) in s.pending)
    && (forall id | id in s.pending ::
          exists t :: t in s.threads && s.threads[t].Owns() && (s.threads[t].process, s.threads[t].hash) == id)
  }

  /** A hash has one owner in its process. */
  ghost predicate OneOwner(s: State) {
    forall t, t' | t in s.threads && t' in s.threads && s.threads[t].Owns() && s.threads[t'].Owns()
      && s.threads[t].process == s.threads[t'].process && s.threads[t].hash == s.threads[t'].hash :: t == t'
  }

  /** A thread past the lock holds the lock of the inode it opened. */
  ghost predicate LockIsHeld(s: State) {
    forall t | t in s.threads && s.threads[t].HoldsLock() ::
      s.threads[t].handle.Some? && s.threads[t].handle.value in s.locks && s.locks[s.threads[t].handle.value] == t
  }

  /** Between the check and the `finally` block the thread owns its hash, before it none. */
  ghost predicate WorkersOwn(s: State) {
    forall t | t in s.threads ::
      (s.threads[t].place.Working() ==> s.threads[t].added) && (s.threads[t].place.Outside? ==> !s.threads[t].added)
  }

  ghost predicate Inv(s: State) {
    PendingIsOwned(s) && OneOwner(s) && LockIsHeld(s) && WorkersOwn(s)
  }

  lemma InitialInv(s: State)
    requires Initial(s)
    ensures Inv(s)
  {
  }

  /** Threads other than the one that moves are untouched. */
  lemma OthersStay(s: State, t: nat, a: Action, u: nat)
    ensures u != t ==> (u in Step(s, t, a).threads <==> u in s.threads)
    ensures u != t && u in s.threads ==> Step(s, t, a).threads[u] == s.threads[u]
    ensures t in s.threads ==> t in Step(s, t, a).threads
  {
  }

  lemma StepWorkersOwn(s: State, t: nat, a: Action)
    requires Inv(s)
    ensures WorkersOwn(Step(s, t, a))
  {
    forall u { OthersStay(s, t, a, u); }
  }

  /** How a step changes the pending set: only by the moving thread's own hash. */
  lemma StepPending(s: State, t: nat, a: Action)
    requires Inv(s) && t in s.threads
    ensures var th, th', id := s.threads[t], Step(s, t, a).threads[t], (s.threads[t].process, s.threads[t].hash);
            && th'.process == th.process && th'.hash == th.hash
            && (th.Owns() == th'.Owns() ==> Step(s, t, a).pending == s.pending)
            && (th.Owns() && !th'.Owns() ==> Step(s, t, a).pending == s.pending - {id})
            && (!th.Owns() && th'.Owns() ==> id !in s.pending && Step(s, t, a).pending == s.pending + {id})
  {
  }

  lemma StepOwners(s: State, t: nat, a: Action)
    requires Inv(s)
    ensures PendingIsOwned(Step(s, t, a)) && OneOwner(Step(s, t, a))
  {
    forall u { OthersStay(s, t, a, u); }
    if t in s.threads {
      StepPending(s, t, a);
      OwnersAfter(s, Step(s, t, a), t);
    }
  }

  /** One thread changes, and the pending set changes with its ownership. */
  lemma OwnersAfter(s: State, s': State, t: nat)
    requires PendingIsOwned(s) && OneOwner(s) && t in s.threads && t in s'.threads
    requires forall u :: u != t ==>
               (u in s'.threads <==> u in s.threads) && (u in s.threads ==> s'.threads[u] == s.threads[u])
    requires var th, th', id := s.threads[t], s'.threads[t], (s.threads[t].process, s.threads[t].hash);
             && th'.process == th.process && th'.hash == th.hash
             && (th.Owns() == th'.Owns() ==> s'.pending == s.pending)
             && (th.Owns() && !th'.Owns() ==> s'.pending == s.pending - {id})
             && (!th.Owns() && th'.Owns() ==> id !in s.pending && s'.pending == s.pending + {id})
    ensures PendingIsOwned(s') && OneOwner(s')
  {
    forall id | id in s'.pending
      ensures exists u :: u in s'.threads && s'.threads[u].Owns() && (s'.threads[u].process, s'.threads[u].hash) == id
    {
      if id in s.pending {
        var u :| u in s.threads && s.threads[u].Owns() && (s.threads[u].process, s.threads[u].hash) == id;
        assert u in s'.threads;
      } else {
        assert s'.threads[t].Owns();
      }
    }
  }

  lemma StepLocks(s: State, t: nat, a: Action)
    requires Inv(s)
    ensures LockIsHeld(Step(s, t, a))
  {
    forall u { OthersStay(s, t, a, u); }
  }

  /** Every step of every thread, exceptional ones included, keeps the invariant. Entering and timing
      out are single steps: an exception between a change of the pending set and of the flag beside
      it is none. */
  lemma StepInv(s: State, t: nat, a: Action)
    requires Inv(s)
    ensures Inv(Step(s, t, a))
  {
    StepWorkersOwn(s, t, a);
    StepOwners(s, t, a);
    StepLocks(s, t, a);
  }

  lemma {:induction false} RunInv(s: State, trace: Trace)
    requires Initial(s)
    ensures Inv(Run(s, trace))
  {
    if trace == [] {
      InitialInv(s);
    } else {
      RunInv(s, trace[..|trace| - 1]);
      StepInv(Run(s, trace[..|trace| - 1]), trace[|trace| - 1].0, trace[|trace| - 1].1);
    }
  }

  // ---------------------------------------------------------------- what holds in every run

  /** In every reachable state, two threads of one process that are past the check and not yet out
      have different hashes: a duplicate post is never in flight twice in a process. */
  lemma NoDuplicateInFlight(s: State, trace: Trace, t: nat, t': nat)
    requires Initial(s)
    requires var r := Run(s, trace);
             && t in r.threads && t' in r.threads && t != t'
             && r.threads[t].place.Working()
             && r.threads[t'].place.Working()
             && r.threads[t].process == r.threads[t'].process
    ensures Run(s, trace).threads[t].hash != Run(s, trace).threads[t'].hash
  {
    RunInv(s, trace);
  }

  /** The check refuses exactly the hashes that another thread of the process owns. */
  lemma RefusedIff(s: State, trace: Trace, t: nat)
    requires Initial(s)
    requires var r := Run(s, trace); t in r.threads && r.threads[t].place == Outside
    ensures var r := Run(s, trace);
            var th := r.threads[t];
            Step(r, t, Enter).threads[t].place == Leaving <==>
            exists u :: u in r.threads && r.threads[u].Owns()
                        && r.threads[u].process == th.process && r.threads[u].hash == th.hash
  {
    RunInv(s, trace);
    var r := Run(s, trace);
    var id := (r.threads[t].process, r.threads[t].hash);
    if id in r.pending {
      var u :| u in r.threads && r.threads[u].Owns() && (r.threads[u].process, r.threads[u].hash) == id;
    }
  }

  /** No step removes a hash that another thread owns. */
  lemma OnlyOwnHashIsRemoved(s: State, trace: Trace, t: nat, a: Action, u: nat)
    requires Initial(s)
    requires var r := Run(s, trace); u in r.threads && u != t && r.threads[u].Owns()
    ensures var r := Run(s, trace);
            (r.threads[u].process, r.threads[u].hash) in Step(r, t, a).pending
  {
    RunInv(s, trace);
    StepInv(Run(s, trace), t, a);
    OthersStay(Run(s, trace), t, a, u);
  }

  /** Nothing is pending exactly when no thread owns a hash: every exit, however it comes, gives its
      hash back. */
  lemma NothingPendingIff(s: State, trace: Trace)
    requires Initial(s)
    ensures Run(s, trace).pending == {} <==>
            forall t | t in Run(s, trace).threads :: !Run(s, trace).threads[t].Owns()
  {
    RunInv(s, trace);
    var r := Run(s, trace);
    if forall t | t in r.threads :: !r.threads[t].Owns() {
      assert forall id :: id !in r.pending;
    }
  }

  /** Two threads past the lock, of any processes, hold the locks of different inodes. */
  lemma OneHolderPerInode(s: State, trace: Trace, t: nat, t': nat)
    requires Initial(s)
    requires var r := Run(s, trace);
             t in r.threads && t' in r.threads && t != t' && r.threads[t].HoldsLock() && r.threads[t'].HoldsLock()
    ensures Run(s, trace).threads[t].handle != Run(s, trace).threads[t'].handle
  {
    RunInv(s, trace);
  }

  /** Of the threads past the lock, at most one holds the inode that the path names: two threads
      are inside together only when one of them works on an unlinked file. */
  lemma OneHolderOnThePath(s: State, trace: Trace, t: nat, t': nat)
    requires Initial(s)
    requires var r := Run(s, trace);
             && t in r.threads && t' in r.threads && r.threads[t].HoldsLock() && r.threads[t'].HoldsLock()
             && r.threads[t].handle == r.path && r.threads[t'].handle == r.path
    ensures t == t'
  {
    RunInv(s, trace);
  }

  // ---------------------------------------------------------------- the path as a mutex

  /** No other thread has the file open that the path names. */
  predicate Alone(s: State, t: nat) {
    forall u | u in s.threads && u != t :: s.threads[u].handle.None? || s.threads[u].handle != s.path
  }

  /** Every removal of the lock file in the run happens while no other thread has it open, and no
      unlocking fails. */
  predicate QuietUnlinks(s: State, trace: Trace) {
    trace == [] ||
    (var n := |trace| - 1;
     var was := Run(s, trace[..n]);
     && QuietUnlinks(s, trace[..n])
     && trace[n].1 != ReleaseFails
     && (trace[n].1 == Unlink ==> Alone(was, trace[n].0)))
  }

  /** Every open handle is on the inode that the path names, and closed once released. */
  ghost predicate HandlesOnPath(s: State) {
    && (forall t | t in s.threads && s.threads[t].handle.Some? :: s.threads[t].handle == s.path)
    && (forall t | t in s.threads && s.threads[t].place.Closed() :: s.threads[t].handle.None?)
  }

  lemma StepHandles(s: State, t: nat, a: Action)
    requires HandlesOnPath(s) && a != ReleaseFails && (a == Unlink ==> Alone(s, t))
    ensures HandlesOnPath(Step(s, t, a))
  {
    forall u { OthersStay(s, t, a, u); }
  }

  lemma {:induction false} QuietHandles(s: State, trace: Trace)
    requires Initial(s) && QuietUnlinks(s, trace)
    ensures HandlesOnPath(Run(s, trace))
  {
    if trace != [] {
      var n := |trace| - 1;
      QuietHandles(s, trace[..n]);
      StepHandles(Run(s, trace[..n]), trace[n].0, trace[n].1);
    }
  }

  /** The lock is a mutex for all processes in the runs where unlocking never fails and the file is
      never removed while another thread has it open. */
  lemma QuietRunsExclude(s: State, trace: Trace, t: nat, t': nat)
    requires Initial(s) && QuietUnlinks(s, trace)
    requires var r := Run(s, trace);
             t in r.threads && t' in r.threads && r.threads[t].HoldsLock() && r.threads[t'].HoldsLock()
    ensures t == t'
  {
    RunInv(s, trace);
    QuietHandles(s, trace);
  }

  // ---------------------------------------------------------------- when the path is a mutex

  /** The same threads for the same content, wherever they stand. */
  predicate SameThreads(s: State, s': State) {
    s'.threads.Keys == s.threads.Keys &&
    forall t | t in s.threads :: t in s'.threads && Id(s', t) == Id(s, t)
  }

  /** The process and hash of a thread. */
  function Id(s: State, t: nat): (nat, string)
    requires t in s.threads
  {
    (s.threads[t].process, s.threads[t].hash)
  }

  lemma {:induction false} RunSameThreads(s: State, trace: Trace)
    ensures SameThreads(s, Run(s, trace))
  {
    if trace != [] {
      var n := |trace| - 1;
      RunSameThreads(s, trace[..n]);
      StepSameThreads(Run(s, trace[..n]), trace[n].0, trace[n].1);
    }
  }

  lemma StepSameThreads(s: State, t: nat, a: Action)
    ensures SameThreads(s, Step(s, t, a))
  {
    forall u { OthersStay(s, t, a, u); }
    if t in s.threads {
      var th, th' := s.threads[t], Step(s, t, a).threads[t];
      assert th'.process == th.process && th'.hash == th.hash;
    }
  }

  /** No thread has come to the removal of the file yet. */
  predicate NoneLeft(s: State) {
    forall t | t in s.threads :: !s.threads[t].place.Unlinking? && !s.threads[t].place.Gone?
  }

  lemma StepNoneLeft(s: State, t: nat, a: Action)
    requires NoneLeft(s) ==> HandlesOnPath(s)
    ensures NoneLeft(Step(s, t, a)) ==> NoneLeft(s) && HandlesOnPath(Step(s, t, a))
  {
    forall u { OthersStay(s, t, a, u); }
    if NoneLeft(Step(s, t, a)) {
      assert t in s.threads ==> !s.threads[t].place.Unlinking? && !s.threads[t].place.Gone?;
      forall u | u in s.threads ensures !s.threads[u].place.Unlinking? && !s.threads[u].place.Gone? {
        assert u in Step(s, t, a).threads;
      }
      if a != ReleaseFails && a != Unlink {
        StepHandles(s, t, a);
      }
    }
  }

  lemma {:induction false} RunNoneLeft(s: State, trace: Trace)
    requires Initial(s)
    ensures NoneLeft(Run(s, trace)) ==> HandlesOnPath(Run(s, trace))
  {
    if trace != [] {
      var n := |trace| - 1;
      RunNoneLeft(s, trace[..n]);
      StepNoneLeft(Run(s, trace[..n]), trace[n].0, trace[n].1);
    }
  }

  /** Three threads, two of them with different processes or contents. */
  predicate Rivals(s: State, a: nat, b: nat, c: nat) {
    a in s.threads && b in s.threads && c in s.threads && a != b && b != c && a != c && Id(s, b) != Id(s, c)
  }

  /** Two different threads are past the lock. */
  predicate Together(s: State, t: nat, t': nat) {
    t in s.threads && t' in s.threads && t != t' && s.threads[t].HoldsLock() && s.threads[t'].HoldsLock()
  }

  /** Two threads are past the lock together only with a rival that has left. */
  lemma TogetherNeedsRival(s: State, trace: Trace, t: nat, t': nat) returns (a: nat)
    requires Initial(s) && Together(Run(s, trace), t, t')
    ensures Rivals(s, a, t, t')
  {
    var r := Run(s, trace);
    RunInv(s, trace);
    RunSameThreads(s, trace);
    assert Id(r, t) == Id(s, t) && Id(r, t') == Id(s, t');
    assert Id(r, t) != Id(r, t') by {
      if Id(r, t) == Id(r, t') {
        NoDuplicateInFlight(s, trace, t, t');
      }
    }
    OneHolderPerInode(s, trace, t, t');
    RunNoneLeft(s, trace);
    assert !NoneLeft(r);
    a :| a in r.threads && (r.threads[a].place.Unlinking? || r.threads[a].place.Gone?);
  }

  // ---------------------------------------------------------------- when it is not

  /** The steps of `more`, one after the other. */
  function Steps(s: State, more: Trace): State
    decreases |more|
  {
    if more == [] then s else Steps(Step(s, more[0].0, more[0].1), more[1..])
  }

  lemma {:induction false} RunSteps(s: State, trace: Trace, more: Trace)
    ensures Run(s, trace + more) == Steps(Run(s, trace), more)
    decreases |more|
  {
    if more == [] {
      assert trace + more == trace;
    } else {
      assert trace + more == (trace + [more[0]]) + more[1..];
      RunSteps(s, trace + [more[0]], more[1..]);
      assert (trace + [more[0]])[..|trace|] == trace;
    }
  }

  /** The first thread comes, and leaves up to the release of its lock. */
  function ComesAndGoes(a: nat): Trace {
    [(a, Enter), (a, OpenFile), (a, TryLock), (a, WritePid), (a, Finish), (a, Discard)]
  }

  /** The second opens the file before the first releases it, and the first removes it after. */
  function TakesOver(a: nat, b: nat): Trace {
    [(b, Enter), (b, OpenFile), (a, Release), (b, TryLock), (b, WritePid), (a, Unlink)]
  }

  /** The third finds no file, and makes its own. */
  function FindsNoFile(c: nat): Trace {
    [(c, Enter), (c, OpenFile), (c, TryLock), (c, WritePid)]
  }

  function Breaking(a: nat, b: nat, c: nat): Trace {
    ComesAndGoes(a) + TakesOver(a, b) + FindsNoFile(c)
  }

  /** The inode that the first thread opens, and the next one to be made. */
  function FirstInode(s: State): nat {
    if s.path.Some? then s.path.value else s.nextInode
  }

  function NextInode(s: State): nat {
    if s.path.Some? then s.nextInode else s.nextInode + 1
  }

  function At(th: Thread, place: Place, handle: Option<nat>): Thread {
    Thread(th.process, th.hash, place, true, handle)
  }

  function AfterFirst(s: State, a: nat): State
    requires a in s.threads
  {
    State(s.threads[a := At(s.threads[a], Releasing, Some(FirstInode(s)))], {}, Some(FirstInode(s)), NextInode(s),
          map[FirstInode(s) := a])
  }

  function AfterSecond(s: State, a: nat, b: nat): State
    requires a in s.threads && b in s.threads
  {
    State(s.threads[a := At(s.threads[a], Gone, None)][b := At(s.threads[b], Inside, Some(FirstInode(s)))],
          {Id(s, b)}, None, NextInode(s), map[FirstInode(s) := b])
  }

  function Do(s: State, x: (nat, Action)): State {
    Step(s, x.0, x.1)
  }

  lemma OneStep(s: State, x: (nat, Action), more: Trace)
    ensures Steps(s, [x] + more) == Steps(Do(s, x), more)
  {
    assert ([x] + more)[1..] == more;
  }

  lemma ThreeSteps(s: State, x: (nat, Action), y: (nat, Action), z: (nat, Action), more: Trace)
    ensures Steps(s, [x, y, z] + more) == Steps(Do(Do(Do(s, x), y), z), more)
  {
    assert [x, y, z] + more == [x] + ([y] + ([z] + more));
    OneStep(s, x, [y] + ([z] + more));
    OneStep(Do(s, x), y, [z] + more);
    OneStep(Do(Do(s, x), y), z, more);
  }

  lemma SixSteps(s: State, x: (nat, Action), y: (nat, Action), z: (nat, Action),
                 u: (nat, Action), v: (nat, Action), w: (nat, Action))
    ensures Steps(s, [x, y, z, u, v, w]) == Do(Do(Do(Do(Do(Do(s, x), y), z), u), v), w)
  {
    ThreeSteps(s, x, y, z, [u, v, w]);
    ThreeSteps(Do(Do(Do(s, x), y), z), u, v, w, []);
    assert [x, y, z] + [u, v, w] == [x, y, z, u, v, w];
    assert [u, v, w] + [] == [u, v, w];
  }

  lemma FourSteps(s: State, x: (nat, Action), y: (nat, Action), z: (nat, Action), u: (nat, Action))
    ensures Steps(s, [x, y, z, u]) == Do(Do(Do(Do(s, x), y), z), u)
  {
    ThreeSteps(s, x, y, z, [u]);
    assert [x, y, z] + [u] == [x, y, z, u];
    assert [u][1..] == [];
  }

  /** A thread that may enter does, opens the file `i` and locks it, if nobody else has it locked. */
  lemma Acquires(s: State, t: nat, i: nat, n: nat)
    requires t in s.threads && s.threads[t].place == Outside && s.threads[t].handle.None? && Id(s, t) !in s.pending
    requires (s.path == Some(i) && n == s.nextInode) || (s.path.None? && i == s.nextInode && n == i + 1)
    ensures var begun := State(s.threads[t := At(s.threads[t], Opened, Some(i))], s.pending + {Id(s, t)}, Some(i), n,
                               s.locks);
            && Step(Step(s, t, Enter), t, OpenFile) == begun
            && (i !in s.locks ==>
                  Step(Step(begun, t, TryLock), t, WritePid) ==
                  State(s.threads[t := At(s.threads[t], Inside, Some(i))], s.pending + {Id(s, t)}, Some(i), n,
                        s.locks[i := t]))
  {
    var s1 := Step(s, t, Enter);
    assert s1.threads == s.threads[t := At(s.threads[t], Waiting, None)];
    var begun := State(s.threads[t := At(s.threads[t], Opened, Some(i))], s.pending + {Id(s, t)}, Some(i), n, s.locks);
    assert Step(s1, t, OpenFile).threads == begun.threads;
    var s3 := Step(begun, t, TryLock);
    if i !in s.locks {
      assert s3.threads == s.threads[t := At(s.threads[t], Locked, Some(i))];
      assert Step(s3, t, WritePid).threads == s.threads[t := At(s.threads[t], Inside, Some(i))];
    }
  }

  lemma FirstPart(s: State, a: nat)
    requires Initial(s) && a in s.threads
    ensures Steps(s, ComesAndGoes(a)) == AfterFirst(s, a)
  {
    var i, n := FirstInode(s), NextInode(s);
    SixSteps(s, (a, Enter), (a, OpenFile), (a, TryLock), (a, WritePid), (a, Finish), (a, Discard));
    Acquires(s, a, i, n);
    var inside := State(s.threads[a := At(s.threads[a], Inside, Some(i))], {Id(s, a)}, Some(i), n, map[i := a]);
    assert s.pending + {Id(s, a)} == {Id(s, a)} && s.locks[i := a] == map[i := a];
    Leaves(inside, a);
    assert inside.threads[a := At(inside.threads[a], Releasing, Some(i))] == AfterFirst(s, a).threads;
  }

  lemma Leaves(s: State, t: nat)
    requires t in s.threads && s.threads[t].place == Inside && s.threads[t].added && s.pending == {Id(s, t)}
    ensures Step(Step(s, t, Finish), t, Discard) ==
            s.(threads := s.threads[t := At(s.threads[t], Releasing, s.threads[t].handle)], pending := {})
  {
    assert s.pending - {Id(s, t)} == {};
  }

  /** The second thread has the file open that the first has just released. */
  function Freed(s: State, a: nat, b: nat): State
    requires a in s.threads && b in s.threads
  {
    State(s.threads[a := At(s.threads[a], Unlinking, None)][b := At(s.threads[b], Opened, Some(FirstInode(s)))],
          {Id(s, b)}, Some(FirstInode(s)), NextInode(s), map[])
  }

  lemma LocksFreed(s: State, a: nat, b: nat)
    requires a in s.threads && b in s.threads && a != b
    ensures Step(Step(Step(Freed(s, a, b), b, TryLock), b, WritePid), a, Unlink) == AfterSecond(s, a, b)
  {
    var i, base := FirstInode(s), s.threads[a := At(s.threads[a], Unlinking, None)];
    var s1 := Step(Freed(s, a, b), b, TryLock);
    assert s1.threads == base[b := At(s.threads[b], Locked, Some(i))];
    var s2 := Step(s1, b, WritePid);
    assert s2.threads == base[b := At(s.threads[b], Inside, Some(i))];
    assert Step(s2, a, Unlink).threads == AfterSecond(s, a, b).threads;
  }

  lemma SecondPart(s: State, a: nat, b: nat)
    requires Initial(s) && a in s.threads && b in s.threads && a != b
    ensures Steps(AfterFirst(s, a), TakesOver(a, b)) == AfterSecond(s, a, b)
  {
    var r := AfterFirst(s, a);
    var i := FirstInode(s);
    SixSteps(r, (b, Enter), (b, OpenFile), (a, Release), (b, TryLock), (b, WritePid), (a, Unlink));
    Acquires(r, b, i, r.nextInode);
    assert r.pending + {Id(r, b)} == {Id(s, b)};
    var begun := Step(Step(r, b, Enter), b, OpenFile);
    var freed := Step(begun, a, Release);
    assert freed == Freed(s, a, b);
    LocksFreed(s, a, b);
  }

  lemma ThirdPart(s: State, a: nat, b: nat, c: nat)
    requires Initial(s) && Rivals(s, a, b, c)
    ensures var r := Steps(AfterSecond(s, a, b), FindsNoFile(c));
            Together(r, b, c) && r.threads[b].place.Inside? && r.threads[c].place.Inside?
  {
    var r := AfterSecond(s, a, b);
    FourSteps(r, (c, Enter), (c, OpenFile), (c, TryLock), (c, WritePid));
    Acquires(r, c, r.nextInode, r.nextInode + 1);
  }

  lemma RunThree(s: State, a: Trace, b: Trace, c: Trace)
    ensures Run(s, a + b + c) == Steps(Steps(Steps(s, a), b), c)
  {
    RunSteps(s, [], a);
    assert [] + a == a;
    RunSteps(s, a, b);
    RunSteps(s, a + b, c);
  }

  /** Any three such threads can end with two of them inside together. */
  lemma RivalsBreakIn(s: State, a: nat, b: nat, c: nat)
    requires Initial(s) && Rivals(s, a, b, c)
    ensures var r := Run(s, Breaking(a, b, c));
            Together(r, b, c) && r.threads[b].place.Inside? && r.threads[c].place.Inside?
  {
    FirstPart(s, a);
    SecondPart(s, a, b);
    ThirdPart(s, a, b, c);
    RunThree(s, ComesAndGoes(a), TakesOver(a, b), FindsNoFile(c));
  }

  /** The lock excludes, in every run and across all processes, if and only if there are no three
      callers of which two differ in process or content: the third is the one that removes the file
      under the others. */
  lemma ExcludesIff(s: State)
    requires Initial(s)
    ensures (forall trace, t, t' :: !Together(Run(s, trace), t, t')) <==> (forall a, b, c :: !Rivals(s, a, b, c))
  {
    forall trace, t, t' | Together(Run(s, trace), t, t') ensures exists a, b, c :: Rivals(s, a, b, c) {
      var a := TogetherNeedsRival(s, trace, t, t');
    }
    if a, b, c :| Rivals(s, a, b, c) {
      RivalsBreakIn(s, a, b, c);
      assert Together(Run(s, Breaking(a, b, c)), b, c);
    }
  }

  /** Two threads of different processes are inside with the same content. */
  predicate Clash(s: State, t: nat, t': nat) {
    && t in s.threads && t' in s.threads
    && s.threads[t].place.Inside? && s.threads[t'].place.Inside?
    && s.threads[t].hash == s.threads[t'].hash && s.threads[t].process != s.threads[t'].process
  }

  /** Removing the file after unlocking breaks the exclusion that the path is meant to give, even for
      one content: with any third caller, two processes that post the same can be inside together. */
  lemma PathIsNotAMutex(s: State, a: nat, b: nat, c: nat)
    requires Initial(s) && Rivals(s, a, b, c) && s.threads[b].hash == s.threads[c].hash
    ensures Clash(Run(s, Breaking(a, b, c)), b, c)
  {
    RivalsBreakIn(s, a, b, c);
    RunSameThreads(s, Breaking(a, b, c));
    var r := Run(s, Breaking(a, b, c));
    assert Id(r, b) == Id(s, b) && Id(r, c) == Id(s, c);
  }
}
