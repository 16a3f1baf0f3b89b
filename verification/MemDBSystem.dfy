/**
 A MemDB under concurrent use (memdb.go, memdb_batch.go, memdb_iterator.go): any number
 of iterators, readers and writers interleaved over one B-tree and one read-write lock.
 Every atomic step of every goroutine is an event; a run is any enabled sequence of events.
 The lock admits a reader whenever no writer holds it, which includes every schedule of
 Go's `sync.RWMutex` (a waiting writer only holds readers back further).
 */
module MemDBSystem {
  import opened ByteStrings
  import opened Store
  import opened OpLog
  import opened IteratorProtocol

  /** A `Set`, a `Delete` or a batch `Write` that holds the write lock. */
  datatype Writer = Writer(ops: seq<Op>, done: nat)

  datatype GetPhase = Locked | Read | Unlocked

  /** A `Get` call; `result` is meaningful once it has read. */
  datatype Get = Get(key: Bytes, born: nat, phase: GetPhase, result: Option<Bytes>)

  datatype State = State(
    tree: seq<Item>,          // the B-tree, partial batches included
    readers: nat,             // the lock's anonymous count of read locks
    writer: Option<Writer>,
    iters: seq<Iter>,
    gets: seq<Get>,
    log: seq<seq<Op>>)        // the committed writes, in order

  datatype Event =
    | NewIterator(start: Option<Bytes>, end: Option<Bytes>, reverse: bool)
    | IterMove(i: nat, move: Move)
    | BeginGet(key: Bytes)
    | ReadGet(g: nat)
    | EndGet(g: nat)
    | LockWrite(ops: seq<Op>)
    | WriteOne
    | UnlockWrite

  const INIT := State([], 0, None, [], [], [])

  predicate ValidOps(ops: seq<Op>) {
    forall op :: op in ops ==> op.key != []
  }

  /** The state after an event, or None when the event is not enabled. */
  function Step(s: State, e: Event): Option<State> {
    match e
    case NewIterator(start, end, reverse) =>
      if !ValidEndpoints(start, end) then Some(s)          // errKeyEmpty
      else if s.writer.Some? then None
      else Some(s.(readers := s.readers + 1, iters := s.iters + [Fresh(start, end, reverse, |s.log|)]))
    case IterMove(i, move) =>
      if i >= |s.iters| || IterStep(s.tree, s.iters[i], move).None? then None
      else
        var s' := s.(iters := s.iters[i := IterStep(s.tree, s.iters[i], move).value]);
        if !move.ReleaseLock? then Some(s')
        else if s.readers == 0 then None                   // RUnlock of an unlocked RWMutex is fatal
        else Some(s'.(readers := s.readers - 1))
    case BeginGet(key) =>
      if key == [] then Some(s)                            // errKeyEmpty
      else if s.writer.Some? then None
      else Some(s.(readers := s.readers + 1, gets := s.gets + [Get(key, |s.log|, Locked, None)]))
    case ReadGet(g) =>
      if g >= |s.gets| || !s.gets[g].phase.Locked? then None
      else Some(s.(gets := s.gets[g := s.gets[g].(phase := Read, result := Lookup(ToMap(s.tree), s.gets[g].key))]))
    case EndGet(g) =>
      if g >= |s.gets| || !s.gets[g].phase.Read? then None
      else if s.readers == 0 then None                     // fatal as above
      else Some(s.(readers := s.readers - 1, gets := s.gets[g := s.gets[g].(phase := Unlocked)]))
    case LockWrite(ops) =>
      if !ValidOps(ops) then Some(s)                       // errKeyEmpty, before the lock
      else if s.readers > 0 || s.writer.Some? then None
      else Some(s.(writer := Some(Writer(ops, 0))))
    case WriteOne =>
      if s.writer.None? || s.writer.value.done >= |s.writer.value.ops| then None
      else
        var w := s.writer.value;
        Some(s.(tree := ApplyTree(s.tree, w.ops[w.done]), writer := Some(w.(done := w.done + 1))))
    case UnlockWrite =>
      if s.writer.None? || s.writer.value.done < |s.writer.value.ops| then None
      else Some(s.(writer := None, log := s.log + [s.writer.value.ops]))
  }

  function Run(s: State, events: seq<Event>): Option<State>
    decreases |events|
  {
    if events == [] then Some(s)
    else
      var next := Step(s, events[0]);
      if next.None? then None else Run(next.value, events[1..])
  }

  // ---------------------------------------------------------------- committed contents

  function TreeFold(t: seq<Item>, ops: seq<Op>): seq<Item> {
    if ops == [] then t else ApplyTree(TreeFold(t, ops[..|ops| - 1]), ops[|ops| - 1])
  }

  /** The B-tree after the given committed writes. */
  function Committed(log: seq<seq<Op>>): seq<Item> {
    if log == [] then [] else TreeFold(Committed(log[..|log| - 1]), log[|log| - 1])
  }

  /** The map after the given committed writes: their in-order fold over the empty store. */
  function CommittedMap(log: seq<seq<Op>>): Contents {
    if log == [] then map[] else ApplyAll(CommittedMap(log[..|log| - 1]), log[|log| - 1])
  }

  lemma {:induction false} TreeFoldCorrect(t: seq<Item>, ops: seq<Op>)
    requires Sorted(t)
    ensures Sorted(TreeFold(t, ops)) && ToMap(TreeFold(t, ops)) == ApplyAll(ToMap(t), ops)
  {
    if ops != [] {
      TreeFoldCorrect(t, ops[..|ops| - 1]);
      ApplyTreeCorrect(TreeFold(t, ops[..|ops| - 1]), ops[|ops| - 1]);
    }
  }

  lemma {:induction false} CommittedCorrect(log: seq<seq<Op>>)
    ensures Sorted(Committed(log)) && ToMap(Committed(log)) == CommittedMap(log)
  {
    if log != [] {
      CommittedCorrect(log[..|log| - 1]);
      TreeFoldCorrect(Committed(log[..|log| - 1]), log[|log| - 1]);
    }
  }

  // ---------------------------------------------------------------- counting read locks

  function Count(flags: seq<bool>): nat {
    if flags == [] then 0 else Count(flags[..|flags| - 1]) + (if flags[|flags| - 1] then 1 else 0)
  }

  lemma {:induction false} CountUpdate(flags: seq<bool>, i: nat, b: bool)
    requires i < |flags|
    ensures Count(flags[i := b]) + (if flags[i] then 1 else 0) == Count(flags) + (if b then 1 else 0)
  {
    if i < |flags| - 1 {
      CountUpdate(flags[..|flags| - 1], i, b);
      assert flags[i := b][..|flags| - 1] == flags[..|flags| - 1][i := b];
    } else {
      assert flags[i := b][..|flags| - 1] == flags[..|flags| - 1];
    }
  }

  lemma CountAppend(flags: seq<bool>, b: bool)
    ensures Count(flags + [b]) == Count(flags) + if b then 1 else 0
  {
    assert (flags + [b])[..|flags|] == flags;
  }

  lemma {:induction false} CountPositive(flags: seq<bool>, i: nat)
    requires i < |flags| && flags[i]
    ensures Count(flags) > 0
  {
    CountUpdate(flags, i, false);
  }

  lemma {:induction false} CountWitness(flags: seq<bool>) returns (i: nat)
    requires Count(flags) > 0
    ensures i < |flags| && flags[i]
  {
    if flags[|flags| - 1] {
      i := |flags| - 1;
    } else {
      i := CountWitness(flags[..|flags| - 1]);
    }
  }

  lemma {:induction false} CountNone(flags: seq<bool>)
    requires forall i :: 0 <= i < |flags| ==> !flags[i]
    ensures Count(flags) == 0
  {
    if Count(flags) > 0 {
      var i := CountWitness(flags);
    }
  }

  function IterLocks(iters: seq<Iter>): seq<bool> {
    seq(|iters|, i requires 0 <= i < |iters| => Holding(iters[i]))
  }

  function GetLocks(gets: seq<Get>): seq<bool> {
    seq(|gets|, i requires 0 <= i < |gets| => !gets[i].phase.Unlocked?)
  }

  // ---------------------------------------------------------------- the system invariant

  /** Each live goroutine and each `Get` in progress accounts for one read lock, and no other. */
  predicate LocksAccounted(s: State) {
    && s.readers == Count(IterLocks(s.iters)) + Count(GetLocks(s.gets))
    && (s.writer.Some? ==> s.readers == 0)
  }

  /** The tree is the committed one, plus what a writer has applied under its lock. */
  predicate TreeExplained(s: State) {
    match s.writer
    case None => s.tree == Committed(s.log)
    case Some(w) => w.done <= |w.ops| && s.tree == TreeFold(Committed(s.log), w.ops[..w.done])
  }

  /** What an iterator walks: the contents when it took the read lock. */
  function Snapshot(log: seq<seq<Op>>, it: Iter): seq<Item>
    requires it.born <= |log|
  {
    Committed(log[..it.born])
  }

  predicate IterOk(log: seq<seq<Op>>, it: Iter) {
    it.born <= |log| && (Holding(it) ==> it.born == |log|) && IterInv(Snapshot(log, it), it)
  }

  predicate GetOk(log: seq<seq<Op>>, g: Get) {
    && g.born <= |log|
    && (!g.phase.Unlocked? ==> g.born == |log|)
    && (!g.phase.Locked? ==> g.result == Lookup(CommittedMap(log[..g.born]), g.key))
  }

  predicate AllItersOk(log: seq<seq<Op>>, iters: seq<Iter>) {
    forall i :: 0 <= i < |iters| ==> IterOk(log, iters[i])
  }

  predicate AllGetsOk(log: seq<seq<Op>>, gets: seq<Get>) {
    forall g :: 0 <= g < |gets| ==> GetOk(log, gets[g])
  }

  predicate Inv(s: State) {
    && LocksAccounted(s)
    && TreeExplained(s)
    && AllItersOk(s.log, s.iters)
    && AllGetsOk(s.log, s.gets)
  }

  /** A goroutine that holds its read lock walks the last committed contents. */
  lemma LiveIterSeesSnapshot(s: State, i: nat)
    requires Inv(s) && i < |s.iters| && Holding(s.iters[i])
    ensures s.readers > 0 && s.writer.None? && s.tree == Snapshot(s.log, s.iters[i])
  {
    assert IterOk(s.log, s.iters[i]);
    assert s.log[..|s.log|] == s.log;
    CountPositive(IterLocks(s.iters), i);
  }

  lemma LiveGetSeesSnapshot(s: State, g: nat)
    requires Inv(s) && g < |s.gets| && !s.gets[g].phase.Unlocked?
    ensures s.readers > 0 && s.writer.None? && s.tree == Committed(s.log[..s.gets[g].born])
  {
    assert s.log[..|s.log|] == s.log;
    CountPositive(GetLocks(s.gets), g);
  }

  lemma StepKeepsOrigin(tree: seq<Item>, it: Iter, move: Move)
    requires IterStep(tree, it, move).Some?
    ensures var it' := IterStep(tree, it, move).value;
            && it'.born == it.born && it'.start == it.start && it'.end == it.end && it'.reverse == it.reverse
            && (Holding(it') <==> Holding(it) && !move.ReleaseLock?)
            && (move.ReleaseLock? ==> Holding(it))
  {
  }

  lemma IterMoveOk(s: State, i: nat, move: Move)
    requires Inv(s) && i < |s.iters| && IterStep(s.tree, s.iters[i], move).Some?
    ensures IterOk(s.log, IterStep(s.tree, s.iters[i], move).value)
  {
    var it := s.iters[i];
    assert IterOk(s.log, it);
    if Holding(it) { LiveIterSeesSnapshot(s, i); }
    IterStepInv(Snapshot(s.log, it), s.tree, it, move);
    StepKeepsOrigin(s.tree, it, move);
  }

  lemma IterLocksUpdate(iters: seq<Iter>, i: nat, it: Iter)
    requires i < |iters|
    ensures Count(IterLocks(iters[i := it])) + (if Holding(iters[i]) then 1 else 0)
         == Count(IterLocks(iters)) + (if Holding(it) then 1 else 0)
  {
    assert IterLocks(iters[i := it]) == IterLocks(iters)[i := Holding(it)];
    CountUpdate(IterLocks(iters), i, Holding(it));
  }

  lemma GetLocksUpdate(gets: seq<Get>, i: nat, g: Get)
    requires i < |gets|
    ensures Count(GetLocks(gets[i := g])) + (if gets[i].phase.Unlocked? then 0 else 1)
         == Count(GetLocks(gets)) + (if g.phase.Unlocked? then 0 else 1)
  {
    assert GetLocks(gets[i := g]) == GetLocks(gets)[i := !g.phase.Unlocked?];
    CountUpdate(GetLocks(gets), i, !g.phase.Unlocked?);
  }

  lemma IterLocksAppend(iters: seq<Iter>, it: Iter)
    requires Holding(it)
    ensures Count(IterLocks(iters + [it])) == Count(IterLocks(iters)) + 1
  {
    assert IterLocks(iters + [it]) == IterLocks(iters) + [true];
    CountAppend(IterLocks(iters), true);
  }

  lemma GetLocksAppend(gets: seq<Get>, g: Get)
    requires !g.phase.Unlocked?
    ensures Count(GetLocks(gets + [g])) == Count(GetLocks(gets)) + 1
  {
    assert GetLocks(gets + [g]) == GetLocks(gets) + [true];
    CountAppend(GetLocks(gets), true);
  }

  lemma AllGetsOkAppend(log: seq<seq<Op>>, gets: seq<Get>, g: Get)
    requires AllGetsOk(log, gets) && GetOk(log, g)
    ensures AllGetsOk(log, gets + [g])
  {
  }

  lemma IterMoveInv(s: State, i: nat, move: Move)
    requires Inv(s) && Step(s, IterMove(i, move)).Some?
    ensures Inv(Step(s, IterMove(i, move)).value)
  {
    IterMoveOk(s, i, move);
    IterMoveLocks(s, i, move);
    AllItersOkUpdate(s.log, s.iters, i, IterStep(s.tree, s.iters[i], move).value);
  }

  lemma AllItersOkUpdate(log: seq<seq<Op>>, iters: seq<Iter>, i: nat, it: Iter)
    requires AllItersOk(log, iters) && i < |iters| && IterOk(log, it)
    ensures AllItersOk(log, iters[i := it])
  {
    var updated := iters[i := it];
    forall j | 0 <= j < |updated| ensures IterOk(log, updated[j]) {
      assert IterOk(log, iters[j]);
    }
  }

  lemma AllItersOkAppend(log: seq<seq<Op>>, iters: seq<Iter>, it: Iter)
    requires AllItersOk(log, iters) && IterOk(log, it)
    ensures AllItersOk(log, iters + [it])
  {
    var longer := iters + [it];
    forall j | 0 <= j < |longer| ensures IterOk(log, longer[j]) {
      if j < |iters| { assert IterOk(log, iters[j]); }
    }
  }

  lemma IterMoveLocks(s: State, i: nat, move: Move)
    requires Inv(s) && Step(s, IterMove(i, move)).Some?
    ensures LocksAccounted(Step(s, IterMove(i, move)).value)
  {
    var it, it' := s.iters[i], IterStep(s.tree, s.iters[i], move).value;
    StepKeepsOrigin(s.tree, it, move);
    IterLocksUpdate(s.iters, i, it');
    if Holding(it) { LiveIterSeesSnapshot(s, i); }
  }

  lemma FreshOk(log: seq<seq<Op>>, start: Option<Bytes>, end: Option<Bytes>, reverse: bool) returns (it: Iter)
    ensures it == Fresh(start, end, reverse, |log|) && IterOk(log, it) && Holding(it)
  {
    it := Fresh(start, end, reverse, |log|);
    FreshInv(Snapshot(log, it), start, end, reverse, |log|);
  }

  lemma NewIteratorInv(s: State, start: Option<Bytes>, end: Option<Bytes>, reverse: bool)
    requires Inv(s) && Step(s, NewIterator(start, end, reverse)).Some?
    ensures Inv(Step(s, NewIterator(start, end, reverse)).value)
  {
    if ValidEndpoints(start, end) {
      var it := FreshOk(s.log, start, end, reverse);
      AllItersOkAppend(s.log, s.iters, it);
      IterLocksAppend(s.iters, it);
    }
  }

  lemma BeginGetInv(s: State, key: Bytes)
    requires Inv(s) && Step(s, BeginGet(key)).Some?
    ensures Inv(Step(s, BeginGet(key)).value)
  {
    if key != [] {
      var g := Get(key, |s.log|, Locked, None);
      GetLocksAppend(s.gets, g);
      AllGetsOkAppend(s.log, s.gets, g);
    }
  }

  lemma ContinueGetInv(s: State, e: Event)
    requires Inv(s) && Step(s, e).Some? && (e.ReadGet? || e.EndGet?)
    ensures Inv(Step(s, e).value)
  {
    var g := s.gets[e.g];
    assert GetOk(s.log, g);
    LiveGetSeesSnapshot(s, e.g);
    CommittedCorrect(s.log[..g.born]);
    GetLocksUpdate(s.gets, e.g, Step(s, e).value.gets[e.g]);
  }

  lemma WriteInv(s: State, e: Event)
    requires Inv(s) && Step(s, e).Some? && (e.LockWrite? || e.WriteOne?)
    ensures Inv(Step(s, e).value)
  {
    if e.WriteOne? {
      var w := s.writer.value;
      assert w.ops[..w.done + 1][..w.done] == w.ops[..w.done];
    } else {
      assert e.ops[..0] == [];
    }
  }

  lemma LogGrows(log: seq<seq<Op>>, ops: seq<Op>, it: Iter)
    requires IterOk(log, it) && !Holding(it)
    ensures IterOk(log + [ops], it)
  {
    assert (log + [ops])[..it.born] == log[..it.born];
  }

  lemma UnlockInv(s: State)
    requires Inv(s) && Step(s, UnlockWrite).Some?
    ensures Inv(Step(s, UnlockWrite).value)
  {
    var ops := s.writer.value.ops;
    assert ops[..|ops|] == ops;
    assert (s.log + [ops])[..|s.log|] == s.log;
    UnlockIters(s, ops);
    UnlockGets(s, ops);
  }

  lemma UnlockIters(s: State, ops: seq<Op>)
    requires Inv(s) && s.writer.Some?
    ensures AllItersOk(s.log + [ops], s.iters)
  {
    forall i | 0 <= i < |s.iters| ensures IterOk(s.log + [ops], s.iters[i]) {
      if Holding(s.iters[i]) { LiveIterSeesSnapshot(s, i); }
      LogGrows(s.log, ops, s.iters[i]);
    }
  }

  lemma UnlockGets(s: State, ops: seq<Op>)
    requires Inv(s) && s.writer.Some?
    ensures AllGetsOk(s.log + [ops], s.gets)
  {
    forall g | 0 <= g < |s.gets| ensures GetOk(s.log + [ops], s.gets[g]) {
      if !s.gets[g].phase.Unlocked? { LiveGetSeesSnapshot(s, g); }
      assert (s.log + [ops])[..s.gets[g].born] == s.log[..s.gets[g].born];
    }
  }

  lemma StepInv(s: State, e: Event)
    requires Inv(s) && Step(s, e).Some?
    ensures Inv(Step(s, e).value)
  {
    match e
    case NewIterator(start, end, reverse) => NewIteratorInv(s, start, end, reverse);
    case IterMove(i, move) => IterMoveInv(s, i, move);
    case BeginGet(key) => BeginGetInv(s, key);
    case ReadGet(_) => ContinueGetInv(s, e);
    case EndGet(_) => ContinueGetInv(s, e);
    case LockWrite(_) => WriteInv(s, e);
    case WriteOne => WriteInv(s, e);
    case UnlockWrite => UnlockInv(s);
  }

  lemma {:induction false} RunInv(s: State, events: seq<Event>)
    requires Inv(s) && Run(s, events).Some?
    ensures Inv(Run(s, events).value)
    decreases |events|
  {
    if events != [] {
      StepInv(s, events[0]);
      RunInv(Step(s, events[0]).value, events[1..]);
    }
  }

  /** Every reachable state satisfies the system invariant. */
  lemma ReachableInv(events: seq<Event>)
    requires Run(INIT, events).Some?
    ensures Inv(Run(INIT, events).value)
  {
    RunInv(INIT, events);
  }
}
