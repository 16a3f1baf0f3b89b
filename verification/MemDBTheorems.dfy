/**
 What every run of a MemDB under concurrent use guarantees: snapshot iteration, lock
 discipline, atomic batches, progress, and validity that ends once and for all.
 */
module MemDBTheorems {
  import opened ByteStrings
  import opened Store
  import opened OpLog
  import opened Traversal
  import opened IteratorProtocol
  import opened MemDBSystem

  // ---------------------------------------------------------------- what a run keeps

  predicate SameOrigin(a: Iter, b: Iter) {
    a.born == b.born && a.start == b.start && a.end == b.end && a.reverse == b.reverse
  }

  /** A run only adds to the commit log and to the calls, and never changes what a call is about. */
  predicate Extends(s: State, s': State) {
    && s.log <= s'.log
    && |s.iters| <= |s'.iters|
    && (forall i :: 0 <= i < |s.iters| ==> SameOrigin(s.iters[i], s'.iters[i]))
    && |s.gets| <= |s'.gets|
    && (forall g :: 0 <= g < |s.gets| ==> s.gets[g].key == s'.gets[g].key && s.gets[g].born == s'.gets[g].born)
  }

  lemma StepExtends(s: State, e: Event)
    requires Step(s, e).Some?
    ensures Extends(s, Step(s, e).value)
  {
    if e.IterMove? {
      StepKeepsOrigin(s.tree, s.iters[e.i], e.move);
    }
  }

  lemma {:induction false} RunExtends(s: State, events: seq<Event>)
    requires Run(s, events).Some?
    ensures Extends(s, Run(s, events).value)
    decreases |events|
  {
    if events != [] {
      StepExtends(s, events[0]);
      RunExtends(Step(s, events[0]).value, events[1..]);
    }
  }

  lemma {:induction false} RunConcat(s: State, a: seq<Event>, b: seq<Event>)
    requires Run(s, a).Some?
    ensures Run(s, a + b) == Run(Run(s, a).value, b)
    decreases |a|
  {
    if a == [] {
      assert a + b == b;
    } else {
      RunConcat(Step(s, a[0]).value, a[1..], b);
      assert (a + b)[1..] == a[1..] + b;
    }
  }

  // ---------------------------------------------------------------- the writes of a run

  /** The valid writes issued in a run, each with all its operations, in the order they took the lock. */
  function WritesOf(events: seq<Event>): seq<seq<Op>> {
    if events == [] then []
    else
      var rest := WritesOf(events[1..]);
      if events[0].LockWrite? && ValidOps(events[0].ops) then [events[0].ops] + rest else rest
  }

  function Pending(s: State): seq<seq<Op>> {
    if s.writer.Some? then [s.writer.value.ops] else []
  }

  function Concat(log: seq<seq<Op>>): seq<Op> {
    if log == [] then [] else log[0] + Concat(log[1..])
  }

  /** Every operation written in a run, in order. */
  function OpsOf(events: seq<Event>): seq<Op> {
    Concat(WritesOf(events))
  }

  lemma StepWrites(s: State, e: Event)
    requires Step(s, e).Some?
    ensures var s' := Step(s, e).value;
            s'.log + Pending(s') == s.log + Pending(s) + (if e.LockWrite? && ValidOps(e.ops) then [e.ops] else [])
  {
  }

  /** The commit log and the writer inside are exactly the writes issued. */
  lemma {:induction false} RunWrites(s: State, events: seq<Event>)
    requires Run(s, events).Some?
    ensures var s' := Run(s, events).value;
            s'.log + Pending(s') == s.log + Pending(s) + WritesOf(events)
    decreases |events|
  {
    if events == [] {
      assert s.log + Pending(s) + [] == s.log + Pending(s);
    } else {
      StepWrites(s, events[0]);
      RunWrites(Step(s, events[0]).value, events[1..]);
    }
  }

  lemma {:induction false} ConcatFold(m: Contents, log: seq<seq<Op>>, ops: seq<Op>)
    ensures ApplyAll(m, Concat(log + [ops])) == ApplyAll(ApplyAll(m, Concat(log)), ops)
    decreases |log|
  {
    if log == [] {
      assert log + [ops] == [ops] && Concat([ops]) == ops + [] == ops;
    } else {
      assert (log + [ops])[1..] == log[1..] + [ops];
      ConcatFold(ApplyAll(m, log[0]), log[1..], ops);
      ApplyAllConcat(m, log[0], Concat(log[1..]));
      ApplyAllConcat(m, log[0], Concat(log[1..] + [ops]));
    }
  }

  lemma {:induction false} CommittedIsFold(log: seq<seq<Op>>)
    ensures CommittedMap(log) == ApplyAll(map[], Concat(log))
  {
    if log != [] {
      CommittedIsFold(log[..|log| - 1]);
      ConcatFold(map[], log[..|log| - 1], log[|log| - 1]);
      assert log == log[..|log| - 1] + [log[|log| - 1]];
    }
  }

  /** With no writer inside, the commits are the writes of the run and the store is their fold. */
  lemma CommitsAreWrites(events: seq<Event>, s: State)
    requires Run(INIT, events) == Some(s) && s.writer.None?
    ensures s.log == WritesOf(events)
    ensures CommittedMap(s.log) == ApplyAll(map[], OpsOf(events))
  {
    RunWrites(INIT, events);
    assert s.log + [] == s.log && [] + [] + WritesOf(events) == WritesOf(events);
    CommittedIsFold(s.log);
  }

  // ---------------------------------------------------------------- snapshot iteration

  /**
   An iterator created in any reachable state `s0` and used in any interleaving `after` it
   delivers a prefix of the range as the writes before it left it, and all of it once it is
   invalid without having been closed, whatever writers do after the goroutine has let go of the
   lock.
   */
  lemma SnapshotSafety(before: seq<Event>, start: Option<Bytes>, end: Option<Bytes>, reverse: bool,
                       after: seq<Event>, s0: State, s: State)
    requires ValidEndpoints(start, end)
    requires Run(INIT, before) == Some(s0)
    requires Run(INIT, before + [NewIterator(start, end, reverse)] + after) == Some(s)
    ensures |s0.iters| < |s.iters|
    ensures var it, full := s.iters[|s0.iters|], Emission(s0.tree, start, end, reverse);
            && Enumerates(full, ToMap(s0.tree), start, end, reverse)
            && ToMap(s0.tree) == ApplyAll(map[], OpsOf(before))
            && it.delivered <= full
            && (it.item.Some? ==> it.delivered != [] && it.item.value == it.delivered[|it.delivered| - 1])
            && (it.consumer.Idle? && it.item.None? && !it.cancelled ==> it.delivered == full)
  {
    var e := NewIterator(start, end, reverse);
    var s1 := SplitRun(before, e, after, s0, s);
    RunExtends(s1, after);
    var i := |s0.iters|;
    assert SameOrigin(s1.iters[i], s.iters[i]);
    assert s.log[..|s0.log|] == s0.log;
    IterDelivered(before + [e] + after, s, i);
    ReachableTree(before, s0);
    CommittedCorrect(s0.log);
    DispatchEnumerates(s0.tree, start, end, reverse);
    CommitsAreWrites(before, s0);
  }

  lemma ReachableTree(events: seq<Event>, s: State)
    requires Run(INIT, events) == Some(s)
    ensures TreeExplained(s)
  {
    ReachableInv(events);
  }

  lemma IterDelivered(events: seq<Event>, s: State, i: nat)
    requires Run(INIT, events) == Some(s) && i < |s.iters|
    ensures var it := s.iters[i];
            && it.born <= |s.log|
            && it.delivered <= FullRange(Snapshot(s.log, it), it)
            && (it.item.Some? ==> it.delivered != [] && it.item.value == it.delivered[|it.delivered| - 1])
            && (it.consumer.Idle? && it.item.None? && !it.cancelled
                ==> it.delivered == FullRange(Snapshot(s.log, it), it))
  {
    ReachableIter(events, s, i);
    Delivered(Snapshot(s.log, s.iters[i]), s.iters[i]);
  }

  lemma SplitRun(before: seq<Event>, e: Event, after: seq<Event>, s0: State, s: State) returns (s1: State)
    requires Run(INIT, before) == Some(s0)
    requires Run(INIT, before + [e] + after) == Some(s)
    ensures Step(s0, e) == Some(s1) && Run(s1, after) == Some(s) && Run(s0, [e] + after) == Some(s)
  {
    assert before + [e] + after == before + ([e] + after);
    RunConcat(INIT, before, [e] + after);
    assert ([e] + after)[1..] == after;
    s1 := Step(s0, e).value;
  }

  // ---------------------------------------------------------------- atomic reads

  /**
   A `Get` begun in any reachable state `s0` returns, whatever else runs, the value that the
   in-order fold of all the writes issued before gives its key: never a partial batch.
   */
  lemma ReadsAreAtomic(before: seq<Event>, key: Bytes, after: seq<Event>, s0: State, s: State)
    requires key != []
    requires Run(INIT, before) == Some(s0)
    requires Run(INIT, before + [BeginGet(key)] + after) == Some(s)
    ensures |s0.gets| < |s.gets|
    ensures var g := s.gets[|s0.gets|];
            !g.phase.Locked? ==> g.result == Lookup(CommittedMap(s0.log), key)
                                 && g.result == Lookup(ApplyAll(map[], OpsOf(before)), key)
  {
    var s1 := SplitRun(before, BeginGet(key), after, s0, s);
    RunExtends(s1, after);
    ReachableGet(before + [BeginGet(key)] + after, s, |s0.gets|);
    assert s.log[..|s0.log|] == s0.log;
    CommitsAreWrites(before, s0);
  }

  lemma ReachableGet(events: seq<Event>, s: State, g: nat)
    requires Run(INIT, events) == Some(s) && g < |s.gets|
    ensures GetOk(s.log, s.gets[g])
  {
    ReachableInv(events);
  }

  /** With no writer inside, the store is the in-order fold of the writes issued, each in full. */
  lemma StoreIsFoldOfCommits(events: seq<Event>, s: State)
    requires Run(INIT, events) == Some(s) && s.writer.None?
    ensures Sorted(s.tree) && ToMap(s.tree) == CommittedMap(s.log)
    ensures s.log == WritesOf(events) && ToMap(s.tree) == ApplyAll(map[], OpsOf(events))
  {
    ReachableInv(events);
    CommittedCorrect(s.log);
    CommitsAreWrites(events, s);
  }

  // ---------------------------------------------------------------- lock discipline

  /**
   In every reachable state the read locks are exactly those of the live goroutines and the
   `Get`s in progress, one each, and an event that changes the tree or commits a write happens
   only while no traversal and no read is live.
   */
  lemma LockDiscipline(events: seq<Event>, e: Event, s: State, s': State)
    requires Run(INIT, events) == Some(s) && Step(s, e) == Some(s')
    ensures s.readers == Count(IterLocks(s.iters)) + Count(GetLocks(s.gets))
    ensures s'.tree != s.tree || s'.log != s.log ==>
              && s.writer.Some?
              && (forall i :: 0 <= i < |s.iters| ==> !Holding(s.iters[i]))
              && (forall g :: 0 <= g < |s.gets| ==> s.gets[g].phase.Unlocked?)
  {
    ReachableInv(events);
    OnlyWritersChange(s, e, s');
    forall i | 0 <= i < |s.iters| && Holding(s.iters[i]) ensures s.writer.None? {
      LiveIterSeesSnapshot(s, i);
    }
    forall g | 0 <= g < |s.gets| && !s.gets[g].phase.Unlocked? ensures s.writer.None? {
      LiveGetSeesSnapshot(s, g);
    }
  }

  lemma OnlyWritersChange(s: State, e: Event, s': State)
    requires Step(s, e) == Some(s')
    ensures s'.tree != s.tree || s'.log != s.log ==> s.writer.Some?
  {
  }

  /** A goroutine that has closed its channel can release its lock at once: there is one to release. */
  lemma ReleaseNeverFatal(events: seq<Event>, s: State, i: nat)
    requires Run(INIT, events) == Some(s)
    requires i < |s.iters| && s.iters[i].producer.ClosedChannel?
    ensures Step(s, IterMove(i, ReleaseLock)).Some?
    ensures Step(s, IterMove(i, ReleaseLock)).value.readers == s.readers - 1
  {
    ReachableLocks(events, s);
    HolderCounted(s, i);
  }

  /** So can a `Get` that has read. */
  lemma GetReleaseNeverFatal(events: seq<Event>, s: State, g: nat)
    requires Run(INIT, events) == Some(s)
    requires g < |s.gets| && s.gets[g].phase.Read?
    ensures Step(s, EndGet(g)).Some?
    ensures Step(s, EndGet(g)).value.readers == s.readers - 1
  {
    ReachableLocks(events, s);
    CountPositive(GetLocks(s.gets), g);
  }

  lemma ReachableLocks(events: seq<Event>, s: State)
    requires Run(INIT, events) == Some(s)
    ensures LocksAccounted(s)
  {
    ReachableInv(events);
  }

  lemma ReachableIter(events: seq<Event>, s: State, i: nat)
    requires Run(INIT, events) == Some(s) && i < |s.iters|
    ensures IterOk(s.log, s.iters[i])
  {
    ReachableInv(events);
  }

  lemma HolderCounted(s: State, i: nat)
    requires LocksAccounted(s) && i < |s.iters| && Holding(s.iters[i])
    ensures s.readers > 0
  {
    CountPositive(IterLocks(s.iters), i);
  }

  /**
   While more than 64 items of the range are undelivered and the iterator is not closed, its
   goroutine keeps the lock, so no writer gets in.
   */
  lemma AbandonedIteratorBlocksWriters(events: seq<Event>, s: State, i: nat, ops: seq<Op>)
    requires Run(INIT, events) == Some(s)
    requires i < |s.iters| && !s.iters[i].cancelled && s.iters[i].born <= |s.log|
    requires |FullRange(Snapshot(s.log, s.iters[i]), s.iters[i])| > |s.iters[i].delivered| + CH_BUFFER_SIZE
    requires ValidOps(ops)
    ensures Holding(s.iters[i]) && Step(s, LockWrite(ops)).None?
  {
    ReachableIter(events, s, i);
    UndeliveredKeepsLock(Snapshot(s.log, s.iters[i]), s.iters[i]);
    ReachableLocks(events, s);
    HolderCounted(s, i);
  }

  /**
   The documentation says an iterator keeps its read lock until it is closed. It does not: here
   the only item is buffered, the goroutine has gone, a writer deletes the item, and the
   iterator, still open, then delivers it.
   */
  lemma LockReleasedBeforeClose() returns (events: seq<Event>, s: State)
    ensures Run(INIT, events) == Some(s) && |s.iters| == 1
    ensures !s.iters[0].cancelled && s.tree == [] && s.iters[0].item == Some(Item([1], [1]))
  {
    events := OneItemIterated();
    events := GoroutineGone(events);
    events, s := ItemDeleted(events);
    events, s := Then(events, s, IterMove(0, Receive));
  }

  lemma ItemDeleted(before: seq<Event>) returns (events: seq<Event>, s: State)
    requires Run(INIT, before) == Some(WALKED)
    ensures Run(INIT, events) == Some(s) && s.tree == [] && s.iters == WALKED.iters
  {
    assert Remove(ONE, [1]) == [];
    events, s := Then(before, WALKED, LockWrite([Delete([1])]));
    assert s == WALKED.(writer := Some(Writer([Delete([1])], 0)));
    events, s := Then(events, s, WriteOne);
    assert s == WALKED.(tree := [], writer := Some(Writer([Delete([1])], 1)));
    events, s := Then(events, s, UnlockWrite);
  }

  const ONE := [Item([1], [1])]
  const PRIMING := State(ONE, 1, None, [Fresh(None, None, false, 1)], [], [[Set([1], [1])]])
  const WALKED := PRIMING.(readers := 0,
                           iters := [PRIMING.iters[0].(producer := Released, buffer := ONE, open := false)])

  lemma OneItemIterated() returns (events: seq<Event>)
    ensures Run(INIT, events) == Some(PRIMING)
  {
    var s;
    assert Insert([], [1], [1]) == ONE;
    events, s := Then([], INIT, LockWrite([Set([1], [1])]));
    events, s := Then(events, s, WriteOne);
    events, s := Then(events, s, UnlockWrite);
    assert s == State(ONE, 0, None, [], [], [[Set([1], [1])]]);
    events, s := Then(events, s, NewIterator(None, None, false));
    assert s.iters == PRIMING.iters;
  }

  lemma GoroutineGone(before: seq<Event>) returns (events: seq<Event>)
    requires Run(INIT, before) == Some(PRIMING)
    ensures Run(INIT, events) == Some(WALKED)
  {
    var s;
    var it, v := PRIMING.iters[0], Visitor(None, None);
    assert WalkOf(ONE, it) == ONE;
    events, s := Then(before, PRIMING, IterMove(0, VisitNext));
    assert s.iters == [it.(producer := Sending(0, v, ONE[0]))];
    events, s := Then(events, s, IterMove(0, Send));
    assert it.buffer + [ONE[0]] == ONE;
    assert s.iters == [it.(producer := Walking(1, v), buffer := ONE)];
    events, s := Then(events, s, IterMove(0, VisitNext));
    assert s.iters == [it.(producer := Returned, buffer := ONE)];
    events, s := Then(events, s, IterMove(0, CloseChannel));
    events, s := Then(events, s, IterMove(0, ReleaseLock));
    assert s == WALKED;
  }

  lemma Then(events: seq<Event>, s: State, e: Event) returns (events': seq<Event>, s': State)
    requires Run(INIT, events) == Some(s) && Step(s, e).Some?
    ensures Step(s, e) == Some(s') && Run(INIT, events') == Some(s')
  {
    events', s' := events + [e], Step(s, e).value;
    RunConcat(INIT, events, [e]);
  }

  // ---------------------------------------------------------------- progress

  /** In every reachable state a waiting caller can receive, or its own goroutine can move. */
  lemma WaitNeverDeadlocks(events: seq<Event>, s: State, i: nat)
    requires Run(INIT, events) == Some(s) && i < |s.iters| && Waiting(s.iters[i])
    ensures Step(s, IterMove(i, WakingMove(s.iters[i]))).Some?
    ensures |s.iters[i].buffer| <= CH_BUFFER_SIZE
  {
    ReachableInv(events);
    WakeEnabled(s, i);
  }

  lemma WakeEnabled(s: State, i: nat)
    requires Inv(s) && i < |s.iters| && Waiting(s.iters[i])
    ensures Step(s, IterMove(i, WakingMove(s.iters[i]))).Some? && |s.iters[i].buffer| <= CH_BUFFER_SIZE
  {
    assert IterOk(s.log, s.iters[i]);
    WaiterNotStuck(Snapshot(s.log, s.iters[i]), s.tree, s.iters[i]);
  }

  predicate Has(s: State, i: nat) {
    i < |s.iters| && s.iters[i].born <= |s.log|
  }

  function WorkOf(s: State, i: nat): nat
    requires Has(s, i)
  {
    Work(Snapshot(s.log, s.iters[i]), s.iters[i])
  }

  /** What an event does to iterator `i`. */
  lemma StepAt(s: State, e: Event, i: nat)
    requires Step(s, e).Some? && Has(s, i)
    ensures var s' := Step(s, e).value;
            && Has(s', i)
            && Snapshot(s'.log, s.iters[i]) == Snapshot(s.log, s.iters[i])
            && SameOrigin(s'.iters[i], s.iters[i])
            && (if e.IterMove? && e.i == i then IterStep(s.tree, s.iters[i], e.move) == Some(s'.iters[i])
                else s'.iters[i] == s.iters[i])
  {
    StepExtends(s, e);
    assert Step(s, e).value.log[..s.iters[i].born] == s.log[..s.iters[i].born];
  }

  predicate CallsNothing(events: seq<Event>, i: nat) {
    forall e :: e in events && e.IterMove? && e.i == i ==> !StartsCall(e.move)
  }

  function MovesOf(events: seq<Event>, i: nat): nat {
    if events == [] then 0
    else MovesOf(events[1..], i) + (if events[0].IterMove? && events[0].i == i then 1 else 0)
  }

  lemma StepWork(s: State, e: Event, i: nat)
    requires Inv(s) && Step(s, e).Some? && Has(s, i) && CallsNothing([e], i)
    ensures Has(Step(s, e).value, i)
    ensures WorkOf(Step(s, e).value, i) + (if e.IterMove? && e.i == i then 1 else 0) <= WorkOf(s, i)
  {
    StepAt(s, e, i);
    var it := s.iters[i];
    if e.IterMove? && e.i == i {
      assert e in [e] && IterOk(s.log, it);
      if Holding(it) { LiveIterSeesSnapshot(s, i); }
      MoveUsesWork(Snapshot(s.log, it), s.tree, it, e.move);
    }
  }

  /**
   However the run goes on, as long as the caller starts no new call, the goroutine and the call
   in progress take no more moves than the work left: untraversed plus buffered items.
   */
  lemma {:induction false} WorkBoundsMoves(s: State, events: seq<Event>, i: nat)
    requires Inv(s) && Run(s, events).Some? && Has(s, i) && CallsNothing(events, i)
    ensures Has(Run(s, events).value, i)
    ensures MovesOf(events, i) + WorkOf(Run(s, events).value, i) <= WorkOf(s, i)
    decreases |events|
  {
    if events != [] {
      assert CallsNothing([events[0]], i) && CallsNothing(events[1..], i);
      StepInv(s, events[0]);
      StepWork(s, events[0], i);
      WorkBoundsMoves(Step(s, events[0]).value, events[1..], i);
    }
  }

  /**
   Priming, `Next` and `Close` all return: from any reachable state the moves of this iterator
   alone, no more of them than the work left, bring the waiting caller back.
   */
  lemma {:induction false} WaitEnds(s: State, i: nat) returns (events: seq<Event>)
    requires Inv(s) && Has(s, i)
    ensures forall e :: e in events ==> e.IterMove? && e.i == i && !StartsCall(e.move)
    ensures |events| <= WorkOf(s, i)
    ensures Run(s, events).Some? && Has(Run(s, events).value, i)
    ensures !Waiting(Run(s, events).value.iters[i])
    decreases WorkOf(s, i)
  {
    if !Waiting(s.iters[i]) {
      events := [];
    } else {
      var e := Wake(s, i);
      var rest := WaitEnds(Step(s, e).value, i);
      events := [e] + rest;
      assert events[1..] == rest;
    }
  }

  lemma Wake(s: State, i: nat) returns (e: Event)
    requires Inv(s) && Has(s, i) && Waiting(s.iters[i])
    ensures e.IterMove? && e.i == i && !StartsCall(e.move)
    ensures Step(s, e).Some? && Inv(Step(s, e).value) && Has(Step(s, e).value, i)
    ensures WorkOf(Step(s, e).value, i) < WorkOf(s, i)
  {
    WakeEnabled(s, i);
    e := IterMove(i, WakingMove(s.iters[i]));
    StepInv(s, e);
    StepWork(s, e, i);
  }

  predicate GoroutineOnly(events: seq<Event>, i: nat) {
    forall e :: e in events ==> e.IterMove? && e.i == i && GoroutineMove(e.move)
  }

  /** How many items the iterator still owes its caller. */
  function Owed(s: State, i: nat): int
    requires Has(s, i)
  {
    |FullRange(Snapshot(s.log, s.iters[i]), s.iters[i])| - |s.iters[i].delivered|
  }

  /** The iterator is closed, or what it owes fits the channel. */
  predicate CanFinish(s: State, i: nat)
    requires Has(s, i)
  {
    s.iters[i].cancelled || Owed(s, i) <= 64
  }

  lemma GoroutineStep(s: State, e: Event, i: nat)
    requires Has(s, i) && Step(s, e).Some? && GoroutineOnly([e], i)
    ensures var s' := Step(s, e).value;
            Has(s', i) && Owed(s', i) == Owed(s, i) && s'.iters[i].cancelled == s.iters[i].cancelled
  {
    assert e in [e];
    StepAt(s, e, i);
    GoroutineKeeps(s.tree, s.iters[i], e.move);
  }

  lemma {:induction false} GoroutineRun(s: State, own: seq<Event>, i: nat)
    requires Has(s, i) && Run(s, own).Some? && GoroutineOnly(own, i)
    ensures var s' := Run(s, own).value;
            Has(s', i) && Owed(s', i) == Owed(s, i) && s'.iters[i].cancelled == s.iters[i].cancelled
    decreases |own|
  {
    if own != [] {
      assert GoroutineOnly([own[0]], i) && GoroutineOnly(own[1..], i);
      GoroutineStep(s, own[0], i);
      GoroutineRun(Step(s, own[0]).value, own[1..], i);
    }
  }

  /** Closed, or with at most 64 items owed, the goroutine ends and releases its lock with no help from its caller. */
  lemma {:induction false} GoroutineEnds(s: State, i: nat) returns (own: seq<Event>, s': State)
    requires Inv(s) && Has(s, i) && CanFinish(s, i)
    ensures GoroutineOnly(own, i) && Run(s, own) == Some(s') && Has(s', i) && !Holding(s'.iters[i])
    decreases WorkOf(s, i)
  {
    if !Holding(s.iters[i]) {
      own, s' := [], s;
    } else {
      var e, s1 := GoroutineMoves(s, i);
      var rest;
      rest, s' := GoroutineEnds(s1, i);
      own := [e] + rest;
      RunCons(s, e, s1, rest);
    }
  }

  lemma RunCons(s: State, e: Event, s1: State, rest: seq<Event>)
    requires Step(s, e) == Some(s1)
    ensures Run(s, [e] + rest) == Run(s1, rest)
  {
    assert ([e] + rest)[1..] == rest;
  }

  lemma GoroutineMoves(s: State, i: nat) returns (e: Event, s': State)
    requires Inv(s) && Has(s, i) && CanFinish(s, i) && Holding(s.iters[i])
    ensures e.IterMove? && e.i == i && GoroutineMove(e.move) && Step(s, e) == Some(s') && Inv(s') && Has(s', i)
    ensures WorkOf(s', i) < WorkOf(s, i) && Owed(s', i) == Owed(s, i) && s'.iters[i].cancelled == s.iters[i].cancelled
  {
    e := GoroutineEnabled(s, i);
    s' := Step(s, e).value;
    StepInv(s, e);
    GoroutineProgress(s, e, i);
  }

  lemma GoroutineProgress(s: State, e: Event, i: nat)
    requires Inv(s) && Has(s, i) && Step(s, e).Some? && e.IterMove? && e.i == i && GoroutineMove(e.move)
    ensures var s' := Step(s, e).value;
            && Has(s', i) && WorkOf(s', i) < WorkOf(s, i)
            && Owed(s', i) == Owed(s, i) && s'.iters[i].cancelled == s.iters[i].cancelled
  {
    assert CallsNothing([e], i) && GoroutineOnly([e], i);
    StepWork(s, e, i);
    GoroutineStep(s, e, i);
  }

  lemma GoroutineEnabled(s: State, i: nat) returns (e: Event)
    requires Inv(s) && Has(s, i) && CanFinish(s, i) && Holding(s.iters[i])
    ensures e.IterMove? && e.i == i && GoroutineMove(e.move) && Step(s, e).Some?
  {
    assert IterOk(s.log, s.iters[i]);
    LiveIterSeesSnapshot(s, i);
    RoomToMove(Snapshot(s.log, s.iters[i]), s.tree, s.iters[i]);
    e := IterMove(i, NextMove(s.iters[i]));
    MoveEnabled(s, i, e.move);
  }

  lemma MoveEnabled(s: State, i: nat, move: Move)
    requires i < |s.iters| && IterStep(s.tree, s.iters[i], move).Some? && s.readers > 0
    ensures Step(s, IterMove(i, move)).Some?
  {
  }

  /**
   Exactly when an iterator that is left alone lets writers in: its goroutine can reach the release
   of its lock by itself if and only if it has been closed or at most 64 items are undelivered.
   */
  lemma LockReleaseExact(events: seq<Event>, s: State, i: nat)
    requires Run(INIT, events) == Some(s) && Has(s, i)
    ensures (exists own: seq<Event> :: GoroutineOnly(own, i) && Run(s, own).Some? && Has(Run(s, own).value, i)
                                       && !Holding(Run(s, own).value.iters[i]))
            <==> s.iters[i].cancelled || Owed(s, i) <= 64
  {
    ReachableInv(events);
    if CanFinish(s, i) {
      var own, s' := GoroutineEnds(s, i);
    } else {
      forall own: seq<Event> | GoroutineOnly(own, i) && Run(s, own).Some?
        ensures Has(Run(s, own).value, i) && Holding(Run(s, own).value.iters[i])
      {
        GoroutineRun(s, own, i);
        StillHeld(s, own, i);
      }
    }
  }

  lemma StillHeld(s: State, own: seq<Event>, i: nat)
    requires Inv(s) && Run(s, own).Some? && Has(Run(s, own).value, i)
    requires Owed(Run(s, own).value, i) > CH_BUFFER_SIZE && !Run(s, own).value.iters[i].cancelled
    ensures Holding(Run(s, own).value.iters[i])
  {
    RunInv(s, own);
    var s' := Run(s, own).value;
    assert IterOk(s'.log, s'.iters[i]);
    UndeliveredKeepsLock(Snapshot(s'.log, s'.iters[i]), s'.iters[i]);
  }

  /** No call is reading and every goroutine has closed its channel, as after exhaustion or `Close`. */
  predicate ReadersLeaving(s: State) {
    && s.writer.None?
    && (forall g :: 0 <= g < |s.gets| ==> s.gets[g].phase.Unlocked?)
    && (forall i :: 0 <= i < |s.iters| ==> s.iters[i].producer.ClosedChannel? || s.iters[i].producer.Released?)
  }

  /**
   Once every iterator is exhausted or closed and no `Get` is in progress, the goroutines' pending
   releases alone, one per lock held, let any writer in.
   */
  lemma {:induction false} WritersGetIn(s: State, ops: seq<Op>) returns (events: seq<Event>)
    requires Inv(s) && ReadersLeaving(s)
    ensures forall e :: e in events ==> e.IterMove? && e.move.ReleaseLock?
    ensures |events| == s.readers
    ensures Run(s, events).Some? && Step(Run(s, events).value, LockWrite(ops)).Some?
    decreases s.readers
  {
    if s.readers == 0 {
      events := [];
    } else {
      var e := Leave(s);
      StepInv(s, e);
      var rest := WritersGetIn(Step(s, e).value, ops);
      events := [e] + rest;
      assert events[1..] == rest;
    }
  }

  lemma Leave(s: State) returns (e: Event)
    requires LocksAccounted(s) && ReadersLeaving(s) && s.readers > 0
    ensures e.IterMove? && e.move.ReleaseLock? && Step(s, e).Some?
    ensures var s' := Step(s, e).value; ReadersLeaving(s') && s'.readers == s.readers - 1
  {
    CountNone(GetLocks(s.gets));
    var i := CountWitness(IterLocks(s.iters));
    e := IterMove(i, ReleaseLock);
  }

  // ---------------------------------------------------------------- the end of iteration

  lemma StepKeepsOver(s: State, e: Event, i: nat)
    requires Inv(s) && Step(s, e).Some? && Has(s, i) && Over(s.iters[i])
    ensures var s' := Step(s, e).value;
            Has(s', i) && Over(s'.iters[i]) && s'.iters[i].delivered == s.iters[i].delivered
  {
    StepAt(s, e, i);
    if e.IterMove? && e.i == i {
      assert IterOk(s.log, s.iters[i]);
      OverForever(Snapshot(s.log, s.iters[i]), s.tree, s.iters[i], e.move);
    }
  }

  lemma {:induction false} RunKeepsOver(s: State, events: seq<Event>, i: nat)
    requires Inv(s) && Run(s, events).Some? && Has(s, i) && Over(s.iters[i])
    ensures var s' := Run(s, events).value;
            Has(s', i) && Over(s'.iters[i]) && s'.iters[i].delivered == s.iters[i].delivered
    decreases |events|
  {
    if events != [] {
      StepInv(s, events[0]);
      StepKeepsOver(s, events[0], i);
      RunKeepsOver(Step(s, events[0]).value, events[1..], i);
    }
  }

  /**
   Once a call has returned with the iterator invalid, by exhaustion or by `Close`, its channel is
   empty and closed, its goroutine has at most its lock left to release, and in every
   continuation the iterator stays invalid and delivers nothing more.
   */
  lemma InvalidForever(events: seq<Event>, more: seq<Event>, s: State, s': State, i: nat)
    requires Run(INIT, events) == Some(s) && Run(s, more) == Some(s')
    requires i < |s.iters| && s.iters[i].consumer.Idle? && s.iters[i].item.None?
    ensures s.iters[i].buffer == [] && !s.iters[i].open
    ensures s.iters[i].producer.ClosedChannel? || s.iters[i].producer.Released?
    ensures i < |s'.iters| && s'.iters[i].item.None? && s'.iters[i].delivered == s.iters[i].delivered
  {
    ReachableInv(events);
    assert IterOk(s.log, s.iters[i]);
    RunKeepsOver(s, more, i);
  }

  /** A `Close` that has returned leaves the iterator invalid. */
  lemma CloseInvalidates(events: seq<Event>, s: State, i: nat)
    requires Run(INIT, events) == Some(s)
    requires i < |s.iters| && s.iters[i].cancelled && s.iters[i].consumer.Idle?
    ensures s.iters[i].item.None?
  {
    ReachableInv(events);
    assert IterOk(s.log, s.iters[i]);
  }
}
