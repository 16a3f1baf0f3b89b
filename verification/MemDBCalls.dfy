/**
 What each call on a MemDB does under concurrent use (memdb.go, memdb_batch.go,
 memdb_iterator.go): creating, advancing, draining and closing an iterator, reading a key
 and writing a batch, each from call to return with anything else interleaved.
 */
module MemDBCalls {
  import opened ByteStrings
  import opened Store
  import opened OpLog
  import opened Traversal
  import opened IteratorProtocol
  import opened MemDBSystem
  import opened MemDBTheorems

  // ---------------------------------------------------------------- a call that takes the next item

  /**
   A call that began with `d` delivered: until it returns nothing is delivered, and it returns
   with exactly one more item, which is current, or with none.
   */
  predicate TakesOne(d: seq<Item>, it: Iter) {
    && !it.cancelled
    && (if Waiting(it) || it.item.None? then it.delivered == d
        else |it.delivered| == |d| + 1 && d <= it.delivered)
  }

  lemma MoveTakesOne(tree: seq<Item>, d: seq<Item>, it: Iter, move: Move)
    requires TakesOne(d, it) && IterStep(tree, it, move).Some? && !StartsCall(move)
    ensures TakesOne(d, IterStep(tree, it, move).value)
  {
  }

  lemma {:induction false} RunTakesOne(s: State, during: seq<Event>, i: nat, d: seq<Item>)
    requires Run(s, during).Some? && Has(s, i) && CallsNothing(during, i) && TakesOne(d, s.iters[i])
    ensures var s' := Run(s, during).value;
            Has(s', i) && TakesOne(d, s'.iters[i]) && SameOrigin(s'.iters[i], s.iters[i])
    ensures Snapshot(Run(s, during).value.log, s.iters[i]) == Snapshot(s.log, s.iters[i])
    decreases |during|
  {
    if during != [] {
      var e := during[0];
      assert e in during && CallsNothing(during[1..], i);
      StepAt(s, e, i);
      if e.IterMove? && e.i == i { MoveTakesOne(s.tree, d, s.iters[i], e.move); }
      RunTakesOne(Step(s, e).value, during[1..], i, d);
    }
  }

  /** The iterator stands where it should after a call that found `d` delivered of `full`. */
  predicate StandsAfter(it: Iter, d: seq<Item>, full: seq<Item>) {
    if |d| < |full| then it.item == Some(full[|d|]) && it.delivered == d + [full[|d|]]
    else it.item.None? && it.delivered == d == full
  }

  lemma TakenFromRange(snap: seq<Item>, d: seq<Item>, it: Iter)
    requires IterInv(snap, it) && TakesOne(d, it) && it.consumer.Idle?
    ensures StandsAfter(it, d, FullRange(snap, it))
  {
    Delivered(snap, it);
    if it.item.Some? {
      assert it.delivered == d + [it.delivered[|d|]];
    }
  }

  lemma ReturnedCall(events: seq<Event>, s: State, i: nat, d: seq<Item>)
    requires Run(INIT, events) == Some(s) && Has(s, i) && TakesOne(d, s.iters[i]) && s.iters[i].consumer.Idle?
    ensures StandsAfter(s.iters[i], d, FullRange(Snapshot(s.log, s.iters[i]), s.iters[i]))
  {
    ReachableIter(events, s, i);
    TakenFromRange(Snapshot(s.log, s.iters[i]), d, s.iters[i]);
  }

  // ---------------------------------------------------------------- creation and Next

  /**
   A new iterator, once it is back from priming and before any other call on it, stands on the
   first item of the range, or is invalid if the range is empty.
   */
  lemma PrimingTakesFirst(before: seq<Event>, start: Option<Bytes>, end: Option<Bytes>, reverse: bool,
                          during: seq<Event>, s0: State, s: State)
    requires ValidEndpoints(start, end) && Run(INIT, before) == Some(s0)
    requires Run(INIT, before + [NewIterator(start, end, reverse)] + during) == Some(s)
    requires CallsNothing(during, |s0.iters|)
    ensures |s0.iters| < |s.iters|
    ensures s.iters[|s0.iters|].consumer.Idle?
            ==> StandsAfter(s.iters[|s0.iters|], [], Emission(s0.tree, start, end, reverse))
  {
    var i, e := |s0.iters|, NewIterator(start, end, reverse);
    var s1 := SplitRun(before, e, during, s0, s);
    RunTakesOne(s1, during, i, []);
    if s.iters[i].consumer.Idle? {
      ReturnedCall(before + [e] + during, s, i, []);
      ReachableTree(before, s0);
      assert s1.log[..|s0.log|] == s0.log;
    }
  }

  /**
   `Next` can be called on any valid iterator that is not in a call, and, whatever else runs
   before the next call on it, returns with the iterator on the very next item of its range, or
   invalid if there is none.
   */
  lemma NextAdvances(events: seq<Event>, during: seq<Event>, s: State, s': State, i: nat)
    requires Run(INIT, events) == Some(s) && i < |s.iters|
    requires s.iters[i].consumer.Idle? && s.iters[i].item.Some?
    requires Run(INIT, events + [IterMove(i, CallNext)] + during) == Some(s') && CallsNothing(during, i)
    ensures i < |s'.iters| && s.iters[i].born <= |s.log|
    ensures s'.iters[i].consumer.Idle?
            ==> StandsAfter(s'.iters[i], s.iters[i].delivered, FullRange(Snapshot(s.log, s.iters[i]), s.iters[i]))
  {
    ReachableIter(events, s, i);
    var it := s.iters[i];
    var s1 := SplitRun(events, IterMove(i, CallNext), during, s, s');
    RunTakesOne(s1, during, i, it.delivered);
    if s'.iters[i].consumer.Idle? {
      ReturnedCall(events + [IterMove(i, CallNext)] + during, s', i, it.delivered);
      assert Snapshot(s'.log, s'.iters[i]) == Snapshot(s.log, it);
    }
  }

  lemma NextEnabled(s: State, i: nat)
    requires i < |s.iters| && s.iters[i].consumer.Idle?
    ensures Step(s, IterMove(i, CallNext)).Some? <==> s.iters[i].item.Some?
    ensures Step(s, IterMove(i, CallClose)).Some?
  {
  }

  // ---------------------------------------------------------------- the caller's loop

  /** The whole range of iterator `i`, as of its creation. */
  function RangeOf(s: State, i: nat): seq<Item>
    requires Has(s, i)
  {
    FullRange(Snapshot(s.log, s.iters[i]), s.iters[i])
  }

  /** Moves of iterator `i` and its goroutine alone, without a `Close`. */
  predicate OwnMoves(events: seq<Event>, i: nat) {
    forall e :: e in events ==> e.IterMove? && e.i == i && !e.move.CallClose?
  }

  /** A step of anybody leaves the range of an iterator alone. */
  lemma SameRange(s: State, s': State, i: nat)
    requires Has(s, i) && Has(s', i) && SameOrigin(s'.iters[i], s.iters[i])
    requires Snapshot(s'.log, s.iters[i]) == Snapshot(s.log, s.iters[i])
    ensures RangeOf(s', i) == RangeOf(s, i)
  {
    assert Snapshot(s'.log, s'.iters[i]) == Snapshot(s'.log, s.iters[i]);
  }

  lemma KeepsCancelled(tree: seq<Item>, it: Iter, move: Move)
    requires IterStep(tree, it, move).Some? && !move.CallClose?
    ensures IterStep(tree, it, move).value.cancelled == it.cancelled
  {
  }

  lemma OwnStep(s: State, e: Event, i: nat)
    requires Has(s, i) && Step(s, e).Some? && e.IterMove? && e.i == i && !e.move.CallClose?
    ensures var s' := Step(s, e).value;
            && Has(s', i) && RangeOf(s', i) == RangeOf(s, i)
            && s'.iters[i].cancelled == s.iters[i].cancelled
  {
    StepAt(s, e, i);
    SameRange(s, Step(s, e).value, i);
    KeepsCancelled(s.tree, s.iters[i], e.move);
  }

  lemma {:induction false} OwnRun(s: State, events: seq<Event>, i: nat)
    requires Has(s, i) && Run(s, events).Some? && OwnMoves(events, i)
    ensures var s' := Run(s, events).value;
            && Has(s', i) && RangeOf(s', i) == RangeOf(s, i)
            && s'.iters[i].cancelled == s.iters[i].cancelled
    decreases |events|
  {
    if events != [] {
      assert events[0] in events && OwnMoves(events[1..], i);
      OwnStep(s, events[0], i);
      OwnRun(Step(s, events[0]).value, events[1..], i);
    }
  }

  lemma IdleInRange(s: State, i: nat, d: seq<Item>)
    requires Inv(s) && Has(s, i) && TakesOne(d, s.iters[i]) && s.iters[i].consumer.Idle?
    ensures StandsAfter(s.iters[i], d, RangeOf(s, i))
  {
    assert IterOk(s.log, s.iters[i]);
    TakenFromRange(Snapshot(s.log, s.iters[i]), d, s.iters[i]);
  }

  lemma CallStarts(s: State, i: nat, call: Move, it: Iter)
    requires Has(s, i) && StartsCall(call) && IterStep(s.tree, s.iters[i], call) == Some(it)
    ensures Step(s, IterMove(i, call)) == Some(s.(iters := s.iters[i := it]))
    ensures it.born == s.iters[i].born && Has(s.(iters := s.iters[i := it]), i)
  {
  }

  lemma StartNext(s: State, i: nat) returns (e: Event, s': State)
    requires Has(s, i) && s.iters[i].consumer.Idle? && s.iters[i].item.Some? && !s.iters[i].cancelled
    ensures e == IterMove(i, CallNext) && Step(s, e) == Some(s') && Has(s', i)
    ensures RangeOf(s', i) == RangeOf(s, i) && TakesOne(s.iters[i].delivered, s'.iters[i]) && Waiting(s'.iters[i])
  {
    e := IterMove(i, CallNext);
    CallStarts(s, i, CallNext, s.iters[i].(consumer := Advancing));
    s' := Step(s, e).value;
    OwnStep(s, e, i);
  }

  /** One `Next` from call to return, through the moves of this iterator alone. */
  lemma NextCall(s: State, i: nat) returns (events: seq<Event>, s': State)
    requires Inv(s) && Has(s, i) && s.iters[i].consumer.Idle? && s.iters[i].item.Some? && !s.iters[i].cancelled
    ensures OwnMoves(events, i) && Run(s, events) == Some(s') && Inv(s') && Has(s', i)
    ensures RangeOf(s', i) == RangeOf(s, i) && s'.iters[i].consumer.Idle? && !s'.iters[i].cancelled
    ensures StandsAfter(s'.iters[i], s.iters[i].delivered, RangeOf(s, i))
  {
    var e, s1 := StartNext(s, i);
    StepInv(s, e);
    var rest := WaitEnds(s1, i);
    s' := Run(s1, rest).value;
    RunInv(s1, rest);
    RunTakesOne(s1, rest, i, s.iters[i].delivered);
    OwnRun(s1, rest, i);
    IdleInRange(s', i, s.iters[i].delivered);
    events := [e] + rest;
    RunCons(s, e, s1, rest);
  }

  lemma RangeLeft(s: State, i: nat)
    requires Inv(s) && Has(s, i)
    ensures s.iters[i].delivered <= RangeOf(s, i)
    ensures s.iters[i].consumer.Idle? && s.iters[i].item.None? && !s.iters[i].cancelled
            ==> s.iters[i].delivered == RangeOf(s, i)
  {
    assert IterOk(s.log, s.iters[i]);
    Delivered(Snapshot(s.log, s.iters[i]), s.iters[i]);
  }

  lemma {:induction false} ExhaustIdle(s: State, i: nat) returns (events: seq<Event>, s': State)
    requires Inv(s) && Has(s, i) && s.iters[i].consumer.Idle? && !s.iters[i].cancelled
    ensures OwnMoves(events, i) && Run(s, events) == Some(s') && Has(s', i)
    ensures s'.iters[i].consumer.Idle? && s'.iters[i].item.None? && s'.iters[i].delivered == RangeOf(s, i)
    decreases |RangeOf(s, i)| - |s.iters[i].delivered|, if s.iters[i].item.Some? then 1 else 0
  {
    RangeLeft(s, i);
    if s.iters[i].item.None? {
      events, s' := [], s;
    } else {
      var first, s1 := NextCall(s, i);
      var rest;
      rest, s' := ExhaustIdle(s1, i);
      events := first + rest;
      RunConcat(s, first, rest);
    }
  }

  /**
   From any reachable state the caller's loop of `Next` over an open iterator can run to its end
   through the iterator's own moves, and by then it has delivered the whole range.
   */
  lemma LoopDeliversAll(s: State, i: nat) returns (events: seq<Event>, s': State)
    requires Inv(s) && Has(s, i) && !s.iters[i].cancelled
    ensures OwnMoves(events, i) && Run(s, events) == Some(s') && Has(s', i)
    ensures s'.iters[i].consumer.Idle? && s'.iters[i].item.None? && s'.iters[i].delivered == RangeOf(s, i)
  {
    var first := WaitEnds(s, i);
    var s1 := Run(s, first).value;
    RunInv(s, first);
    OwnRun(s, first, i);
    var rest;
    rest, s' := ExhaustIdle(s1, i);
    events := first + rest;
    RunConcat(s, first, rest);
  }

  // ---------------------------------------------------------------- Close

  /** Closing delivers nothing, and once it is done the iterator is invalid. */
  predicate Closing(d: seq<Item>, it: Iter) {
    it.cancelled && it.delivered == d && (it.consumer.Draining? || (it.consumer.Idle? && it.item.None?))
  }

  lemma MoveCloses(tree: seq<Item>, d: seq<Item>, it: Iter, move: Move)
    requires Closing(d, it) && IterStep(tree, it, move).Some? && !StartsCall(move)
    ensures Closing(d, IterStep(tree, it, move).value)
  {
  }

  lemma {:induction false} RunCloses(s: State, during: seq<Event>, i: nat, d: seq<Item>)
    requires Run(s, during).Some? && Has(s, i) && CallsNothing(during, i) && Closing(d, s.iters[i])
    ensures Has(Run(s, during).value, i) && Closing(d, Run(s, during).value.iters[i])
    decreases |during|
  {
    if during != [] {
      assert during[0] in during && CallsNothing(during[1..], i);
      StepAt(s, during[0], i);
      if during[0].IterMove? && during[0].i == i { MoveCloses(s.tree, d, s.iters[i], during[0].move); }
      RunCloses(Step(s, during[0]).value, during[1..], i, d);
    }
  }

  lemma StartClose(s: State, i: nat) returns (e: Event, s': State)
    requires Has(s, i) && s.iters[i].consumer.Idle?
    ensures e == IterMove(i, CallClose) && Step(s, e) == Some(s') && Has(s', i)
    ensures Closing(s.iters[i].delivered, s'.iters[i])
  {
    e := IterMove(i, CallClose);
    CallStarts(s, i, CallClose, s.iters[i].(consumer := Draining, cancelled := true));
    s' := Step(s, e).value;
  }

  lemma OverAtEnd(s: State, i: nat)
    requires Inv(s) && Has(s, i) && s.iters[i].consumer.Idle? && s.iters[i].item.None?
    ensures s.iters[i].producer.ClosedChannel? || s.iters[i].producer.Released?
  {
    assert IterOk(s.log, s.iters[i]);
  }

  /**
   `Close` from call to return: it can be called on any iterator that is not in a call, the
   iterator's own moves bring it back, no more of them than the work left, and then the iterator
   is invalid, nothing more has been delivered, and its goroutine has only its lock to release.
   */
  lemma CloseReturns(s: State, i: nat) returns (events: seq<Event>, s': State)
    requires Inv(s) && Has(s, i) && s.iters[i].consumer.Idle?
    ensures Run(s, [IterMove(i, CallClose)] + events) == Some(s') && Has(s', i)
    ensures forall e :: e in events ==> e.IterMove? && e.i == i && !StartsCall(e.move)
    ensures s'.iters[i].consumer.Idle? && s'.iters[i].item.None? && s'.iters[i].cancelled
    ensures s'.iters[i].delivered == s.iters[i].delivered
    ensures s'.iters[i].producer.ClosedChannel? || s'.iters[i].producer.Released?
  {
    var e, s1 := StartClose(s, i);
    StepInv(s, e);
    events := WaitEnds(s1, i);
    s' := Run(s1, events).value;
    RunCons(s, e, s1, events);
    RunCloses(s1, events, i, s.iters[i].delivered);
    RunInv(s1, events);
    OverAtEnd(s', i);
  }

  /** How many moves the goroutine of a closed iterator needs at most: it looks at two more items. */
  function MovesToRelease(it: Iter): (n: nat)
    ensures n <= 5
  {
    match it.producer
    case Walking(_, v) => if v.skipEqual.Some? then 5 else 4
    case Sending(_, _, _) => 3
    case Returned => 2
    case ClosedChannel => 1
    case Released => 0
  }

  lemma CancelledMove(tree: seq<Item>, it: Iter)
    requires it.cancelled && Holding(it)
    ensures IterStep(tree, it, NextMove(it)).Some? && GoroutineMove(NextMove(it))
    ensures var it' := IterStep(tree, it, NextMove(it)).value;
            it'.cancelled && MovesToRelease(it') < MovesToRelease(it)
  {
  }

  lemma CancelledStep(s: State, i: nat) returns (e: Event, s': State)
    requires Inv(s) && Has(s, i) && s.iters[i].cancelled && Holding(s.iters[i])
    ensures e.IterMove? && e.i == i && GoroutineMove(e.move) && Step(s, e) == Some(s') && Has(s', i) && Inv(s')
    ensures s'.iters[i].cancelled && MovesToRelease(s'.iters[i]) < MovesToRelease(s.iters[i])
  {
    CancelledMove(s.tree, s.iters[i]);
    HolderCounted(s, i);
    e := IterMove(i, NextMove(s.iters[i]));
    MoveEnabled(s, i, e.move);
    s' := Step(s, e).value;
    StepAt(s, e, i);
    StepInv(s, e);
  }

  lemma {:induction false} StopsWithin(s: State, i: nat, n: nat) returns (own: seq<Event>, s': State)
    requires Inv(s) && Has(s, i) && s.iters[i].cancelled && MovesToRelease(s.iters[i]) <= n
    ensures GoroutineOnly(own, i) && |own| <= n && Run(s, own) == Some(s') && Has(s', i) && !Holding(s'.iters[i])
    decreases n
  {
    if !Holding(s.iters[i]) {
      own, s' := [], s;
    } else {
      var e, s1 := CancelledStep(s, i);
      var rest;
      rest, s' := StopsWithin(s1, i, n - 1);
      own := [e] + rest;
      RunCons(s, e, s1, rest);
    }
  }

  /**
   `Close` stops the walk: once it is called the goroutine can release its lock by itself within
   five moves, however much of the range is left and however full the channel is.
   */
  lemma CloseStopsWalk(s: State, i: nat) returns (own: seq<Event>, s': State)
    requires Inv(s) && Has(s, i) && s.iters[i].cancelled
    ensures GoroutineOnly(own, i) && |own| <= 5
    ensures Run(s, own) == Some(s') && Has(s', i) && !Holding(s'.iters[i])
  {
    own, s' := StopsWithin(s, i, 5);
  }

  // ---------------------------------------------------------------- reads and writes

  /** A `Get` with no writer inside runs from call to return and answers from the store it found. */
  lemma GetReturns(s: State, key: Bytes) returns (events: seq<Event>, s': State)
    requires s.writer.None? && key != []
    ensures events == [BeginGet(key), ReadGet(|s.gets|), EndGet(|s.gets|)] && Run(s, events) == Some(s')
    ensures s'.gets == s.gets + [Get(key, |s.log|, Unlocked, Lookup(ToMap(s.tree), key))]
    ensures s' == s.(gets := s'.gets)
  {
    var g := |s.gets|;
    events := [BeginGet(key), ReadGet(g), EndGet(g)];
    var s1 := Step(s, BeginGet(key)).value;
    var s2 := Step(s1, ReadGet(g)).value;
    s' := Step(s2, EndGet(g)).value;
    assert Run(s2, [EndGet(g)]) == Some(s') by { RunCons(s2, EndGet(g), s', []); }
    RunCons(s1, ReadGet(g), s2, [EndGet(g)]);
    RunCons(s, BeginGet(key), s1, [ReadGet(g), EndGet(g)]);
    assert events == [BeginGet(key)] + [ReadGet(g), EndGet(g)];
    assert [ReadGet(g), EndGet(g)] == [ReadGet(g)] + [EndGet(g)];
  }

  /** A writer inside can always finish, and then all its operations have been committed. */
  lemma {:induction false} WriterFinishes(s: State) returns (events: seq<Event>, s': State)
    requires s.writer.Some? && s.writer.value.done <= |s.writer.value.ops|
    ensures forall e :: e in events ==> e.WriteOne? || e.UnlockWrite?
    ensures Run(s, events) == Some(s') && s'.writer.None? && s'.log == s.log + [s.writer.value.ops]
    ensures s'.readers == s.readers
    decreases |s.writer.value.ops| - s.writer.value.done
  {
    var e := if s.writer.value.done < |s.writer.value.ops| then WriteOne else UnlockWrite;
    var s1 := Step(s, e).value;
    var rest: seq<Event>;
    if e.WriteOne? {
      rest, s' := WriterFinishes(s1);
    } else {
      rest, s' := [], s1;
    }
    events := [e] + rest;
    RunCons(s, e, s1, rest);
  }

  /**
   A `Set`, `Delete` or batch `Write` gets in exactly when no lock is held, and then can run to its
   end and leaves the fold of all its operations over the store it found.
   */
  lemma WriteReturns(before: seq<Event>, s: State, ops: seq<Op>) returns (events: seq<Event>, s': State)
    requires Run(INIT, before) == Some(s) && ValidOps(ops) && s.readers == 0 && s.writer.None?
    ensures Run(s, [LockWrite(ops)] + events) == Some(s') && s'.writer.None? && s'.readers == 0
    ensures forall e :: e in events ==> e.WriteOne? || e.UnlockWrite?
    ensures Sorted(s'.tree) && ToMap(s'.tree) == ApplyAll(ToMap(s.tree), ops)
  {
    var s1 := Step(s, LockWrite(ops)).value;
    events, s' := WriterFinishes(s1);
    RunCons(s, LockWrite(ops), s1, events);
    RunConcat(INIT, before, [LockWrite(ops)] + events);
    StoreIsFoldOfCommits(before, s);
    StoreIsFoldOfCommits(before + ([LockWrite(ops)] + events), s');
    assert (s.log + [ops])[..|s.log|] == s.log;
  }

  /** When calls get in: readers whenever no writer is inside, writers when nobody is. */
  lemma AdmissionExact(s: State, start: Option<Bytes>, end: Option<Bytes>, reverse: bool, key: Bytes, ops: seq<Op>)
    requires ValidEndpoints(start, end) && key != [] && ValidOps(ops)
    ensures Step(s, NewIterator(start, end, reverse)).Some? <==> s.writer.None?
    ensures Step(s, BeginGet(key)).Some? <==> s.writer.None?
    ensures Step(s, LockWrite(ops)).Some? <==> s.writer.None? && s.readers == 0
  {
  }
}
