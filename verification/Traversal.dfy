/**
 The traversal behind a MemDB iterator (memdb_iterator.go): the six-way choice of a
 B-tree walk, and the visitor whose variables `skipEqual` and `abortLessThan` turn the
 B-tree's `(start, end]` descent into the database's `[start, end)`.
 */
module Traversal {
  import opened ByteStrings
  import opened Store

  // ---------------------------------------------------------------- B-tree walks

  /** The range walks of the B-tree, on its sorted items. */
  function AtLeast(t: seq<Item>, k: Bytes): seq<Item> {
    if t == [] then []
    else AtLeast(t[..|t| - 1], k) + (if Less(t[|t| - 1].key, k) then [] else [t[|t| - 1]])
  }

  function Below(t: seq<Item>, k: Bytes): seq<Item> {
    if t == [] then []
    else Below(t[..|t| - 1], k) + (if Less(t[|t| - 1].key, k) then [t[|t| - 1]] else [])
  }

  function AtMost(t: seq<Item>, k: Bytes): seq<Item> {
    if t == [] then []
    else AtMost(t[..|t| - 1], k) + (if Less(k, t[|t| - 1].key) then [] else [t[|t| - 1]])
  }

  function OrEmpty(k: Option<Bytes>): Bytes {
    if k.Some? then k.value else []
  }

  /** The items the chosen walk presents to the visitor, in order. */
  function Walk(t: seq<Item>, start: Option<Bytes>, end: Option<Bytes>, reverse: bool): seq<Item> {
    if start.None? && end.None? && !reverse then t                            // Ascend
    else if start.None? && end.None? && reverse then Reverse(t)               // Descend
    else if end.None? && !reverse then AtLeast(t, start.value)                // AscendGreaterOrEqual
    else if !reverse then Below(AtLeast(t, OrEmpty(start)), end.value)        // AscendRange
    else if end.None? then Reverse(t)                                         // Descend
    else Reverse(AtMost(t, end.value))                                        // DescendLessOrEqual
  }

  // ---------------------------------------------------------------- the visitor

  datatype Visitor = Visitor(skipEqual: Option<Bytes>, abortLessThan: Option<Bytes>)

  datatype Verdict = Skip | Abort | Offer

  function InitialVisitor(start: Option<Bytes>, end: Option<Bytes>, reverse: bool): Visitor {
    if !reverse || (start.None? && end.None?) then Visitor(None, None)
    else if end.None? then Visitor(None, start)
    else Visitor(end, start)
  }

  /** One visitor call: what becomes of the key, and the variables it leaves. */
  function Visit(v: Visitor, key: Bytes): (Verdict, Visitor) {
    if v.skipEqual == Some(key) then (Skip, v.(skipEqual := None))
    else if v.abortLessThan.Some? && Less(key, v.abortLessThan.value) then (Abort, v)
    else (Offer, v)
  }

  /** The items offered to the channel when no send is cancelled. */
  function Emit(v: Visitor, walk: seq<Item>): seq<Item>
    decreases |walk|
  {
    if walk == [] then []
    else
      var (verdict, v') := Visit(v, walk[0].key);
      match verdict
      case Skip => Emit(v', walk[1..])
      case Abort => []
      case Offer => [walk[0]] + Emit(v', walk[1..])
  }

  function Emission(t: seq<Item>, start: Option<Bytes>, end: Option<Bytes>, reverse: bool): seq<Item> {
    Emit(InitialVisitor(start, end, reverse), Walk(t, start, end, reverse))
  }

  // ---------------------------------------------------------------- ascending walks

  lemma {:induction false} EmitPlain(walk: seq<Item>)
    ensures Emit(Visitor(None, None), walk) == walk
  {
    if walk != [] {
      EmitPlain(walk[1..]);
    }
  }

  lemma {:induction false} AtLeastIsWithin(t: seq<Item>, k: Bytes)
    ensures AtLeast(t, k) == Within(t, Some(k), None)
  {
    if t != [] {
      AtLeastIsWithin(t[..|t| - 1], k);
      Trichotomy(t[|t| - 1].key, k);
    }
  }

  lemma {:induction false} AscendRangeIsWithin(t: seq<Item>, start: Option<Bytes>, end: Bytes)
    ensures Below(AtLeast(t, OrEmpty(start)), end) == Within(t, start, Some(end))
  {
    if t != [] {
      var front, last := t[..|t| - 1], t[|t| - 1];
      AscendRangeIsWithin(front, start, end);
      Trichotomy(last.key, OrEmpty(start));
      Trichotomy(last.key, end);
      if Less(last.key, OrEmpty(start)) {
        assert AtLeast(t, OrEmpty(start)) == AtLeast(front, OrEmpty(start));
      } else {
        BelowSnoc(AtLeast(front, OrEmpty(start)), last, end);
      }
    }
  }

  lemma BelowSnoc(t: seq<Item>, it: Item, k: Bytes)
    ensures Below(t + [it], k) == Below(t, k) + if Less(it.key, k) then [it] else []
  {
    assert (t + [it])[..|t|] == t;
  }

  lemma {:induction false} WithinAll(t: seq<Item>)
    ensures Within(t, None, None) == t
  {
    if t != [] {
      WithinAll(t[..|t| - 1]);
      Trichotomy(t[|t| - 1].key, []);
      assert t == t[..|t| - 1] + [t[|t| - 1]];
    }
  }

  // ---------------------------------------------------------------- descending walks

  lemma {:induction false} WithinNothing(t: seq<Item>, start: Bytes, end: Option<Bytes>)
    requires forall i :: 0 <= i < |t| ==> Less(t[i].key, start)
    ensures Within(t, Some(start), end) == []
  {
    if t != [] {
      WithinNothing(t[..|t| - 1], start, end);
    }
  }

  ghost predicate AllUpTo(t: seq<Item>, end: Bytes) {
    forall i :: 0 <= i < |t| ==> !Less(end, t[i].key)
  }

  ghost predicate AllBelowEnd(t: seq<Item>, end: Option<Bytes>) {
    end.Some? ==> forall i :: 0 <= i < |t| ==> Less(t[i].key, end.value)
  }

  /** Descending without a key to skip: the visitor only cuts off below start. */
  lemma {:induction false} DescendNoSkip(t: seq<Item>, start: Option<Bytes>, end: Option<Bytes>)
    requires Sorted(t) && AllBelowEnd(t, end)
    ensures Emit(Visitor(None, start), Reverse(t)) == Reverse(Within(t, start, end))
  {
    if t != [] {
      var front, last := t[..|t| - 1], t[|t| - 1];
      assert Reverse(t)[0] == last && Reverse(t)[1..] == Reverse(front);
      if start.Some? && Less(last.key, start.value) {
        forall i | 0 <= i < |t| - 1 ensures Less(t[i].key, start.value) {
          LessTransitive(t[i].key, last.key, start.value);
        }
        WithinNothing(t, start.value, end);
      } else {
        Trichotomy(last.key, OrEmpty(start));
        if end.Some? { Trichotomy(last.key, end.value); }
        DescendNoSkip(front, start, end);
        ReverseSnoc(Within(front, start, end), last);
      }
    }
  }

  /** Descending from the end inclusive: the visitor drops the end key, once. */
  lemma {:induction false} DescendSkip(t: seq<Item>, start: Option<Bytes>, end: Bytes)
    requires Sorted(t) && AllUpTo(t, end)
    ensures Emit(Visitor(Some(end), start), Reverse(t)) == Reverse(Within(t, start, Some(end)))
  {
    if t != [] {
      if t[|t| - 1].key == end {
        DescendEndKey(t[..|t| - 1], t[|t| - 1], start);
        assert t == t[..|t| - 1] + [t[|t| - 1]];
      } else {
        Trichotomy(t[|t| - 1].key, end);
        BelowLast(t, end);
        ReverseAt(t);
        SkipUnused(Reverse(t), start, end);
        DescendNoSkip(t, start, Some(end));
      }
    }
  }

  lemma {:induction false} DescendEndKey(front: seq<Item>, last: Item, start: Option<Bytes>)
    requires Sorted(front + [last])
    ensures Emit(Visitor(Some(last.key), start), Reverse(front + [last]))
         == Reverse(Within(front + [last], start, Some(last.key)))
  {
    AllBelowFront(front + [last]);
    assert (front + [last])[..|front|] == front;
    DescendNoSkip(front, start, Some(last.key));
    ReverseSnoc(front, last);
    assert ([last] + Reverse(front))[1..] == Reverse(front);
    Trichotomy(last.key, last.key);
    WithinSnoc(front, last, start, Some(last.key));
    assert Within(front, start, Some(last.key)) + [] == Within(front, start, Some(last.key));
  }

  lemma BelowLast(t: seq<Item>, end: Bytes)
    requires Sorted(t) && t != [] && Less(t[|t| - 1].key, end)
    ensures AllBelowEnd(t, Some(end)) && forall i :: 0 <= i < |t| ==> t[i].key != end
  {
    forall i | 0 <= i < |t| ensures Less(t[i].key, end) {
      if i < |t| - 1 { LessTransitive(t[i].key, t[|t| - 1].key, end); }
    }
    Trichotomy(end, end);
  }

  /** A key to skip that never comes up has no effect. */
  lemma {:induction false} SkipUnused(walk: seq<Item>, start: Option<Bytes>, end: Bytes)
    requires forall i :: 0 <= i < |walk| ==> walk[i].key != end
    ensures Emit(Visitor(Some(end), start), walk) == Emit(Visitor(None, start), walk)
  {
    if walk != [] {
      SkipUnused(walk[1..], start, end);
    }
  }

  lemma {:induction false} AtMostSorted(t: seq<Item>, end: Bytes, bound: Option<Bytes>)
    requires Sorted(t) && AllBelowEnd(t, bound)
    ensures Sorted(AtMost(t, end)) && AllUpTo(AtMost(t, end), end) && AllBelowEnd(AtMost(t, end), bound)
  {
    if t != [] {
      var front, last := t[..|t| - 1], t[|t| - 1];
      AtMostSorted(front, end, bound);
      AtMostSorted(front, end, Some(last.key));
    }
  }

  lemma {:induction false} AtMostSuffices(t: seq<Item>, start: Option<Bytes>, end: Bytes)
    ensures Within(AtMost(t, end), start, Some(end)) == Within(t, start, Some(end))
  {
    if t != [] {
      var front, last := t[..|t| - 1], t[|t| - 1];
      AtMostSuffices(front, start, end);
      Trichotomy(last.key, end);
      if !Less(end, last.key) {
        WithinSnoc(AtMost(front, end), last, start, Some(end));
      } else {
        assert AtMost(t, end) == AtMost(front, end);
      }
    }
  }

  // ---------------------------------------------------------------- the dispatch

  /**
   For every sorted contents and every pair of nil or present endpoints, crossing ones
   included, the six walks under the visitor offer exactly the items of the domain, in
   ascending order or in its exact reverse.
   */
  lemma DispatchIsRange(t: seq<Item>, start: Option<Bytes>, end: Option<Bytes>, reverse: bool)
    requires Sorted(t)
    ensures Emission(t, start, end, reverse) == Directed(Within(t, start, end), reverse)
  {
    if !reverse {
      EmitPlain(Walk(t, start, end, reverse));
      if start.None? && end.None? { WithinAll(t); }
      else if end.None? { AtLeastIsWithin(t, start.value); }
      else { AscendRangeIsWithin(t, start, end.value); }
    } else if end.None? {
      DescendNoSkip(t, start, end);
    } else {
      AtMostSorted(t, end.value, None);
      AtMostSuffices(t, start, end.value);
      DescendSkip(AtMost(t, end.value), start, end.value);
    }
  }

  /** The dispatch meets the iterator contract. */
  lemma DispatchEnumerates(t: seq<Item>, start: Option<Bytes>, end: Option<Bytes>, reverse: bool)
    requires Sorted(t)
    ensures Enumerates(Emission(t, start, end, reverse), ToMap(t), start, end, reverse)
  {
    DispatchIsRange(t, start, end, reverse);
    WithinEnumerates(t, start, end, reverse);
  }

  lemma {:induction false} EmitAt(v: Visitor, walk: seq<Item>, i: nat, sent: seq<Item>)
    requires i < |walk|
    ensures var (verdict, v') := Visit(v, walk[i].key);
            sent + Emit(v, walk[i..]) == match verdict
                                         case Skip => sent + Emit(v', walk[i + 1..])
                                         case Abort => sent
                                         case Offer => (sent + [walk[i]]) + Emit(v', walk[i + 1..])
  {
    assert walk[i..][0] == walk[i] && walk[i..][1..] == walk[i + 1..];
  }

  /** The visitor's loop over a walk when no send is cancelled. */
  method VisitAll(walk: seq<Item>, skip: Option<Bytes>, abortLessThan: Option<Bytes>) returns (sent: seq<Item>)
    ensures sent == Emit(Visitor(skip, abortLessThan), walk)
  {
    var skipEqual := skip;
    sent := [];
    var i := 0;
    while i < |walk|
      invariant 0 <= i <= |walk|
      invariant Emit(Visitor(skip, abortLessThan), walk)
             == sent + Emit(Visitor(skipEqual, abortLessThan), walk[i..])
    {
      var item := walk[i];
      EmitAt(Visitor(skipEqual, abortLessThan), walk, i, sent);
      if skipEqual == Some(item.key) {
        skipEqual := None;
      } else if abortLessThan.Some? && Less(item.key, abortLessThan.value) {
        return;
      } else {
        sent := sent + [item];
      }
      i := i + 1;
    }
  }

  /** The producer on a quiescent store, run to its end. */
  method Traverse(t: seq<Item>, start: Option<Bytes>, end: Option<Bytes>, reverse: bool) returns (sent: seq<Item>)
    requires Sorted(t)
    ensures Enumerates(sent, ToMap(t), start, end, reverse)
  {
    if start.None? && end.None? && !reverse {
      sent := VisitAll(t, None, None);
    } else if start.None? && end.None? && reverse {
      sent := VisitAll(Reverse(t), None, None);
    } else if end.None? && !reverse {
      sent := VisitAll(AtLeast(t, start.value), None, None);
    } else if !reverse {
      sent := VisitAll(Below(AtLeast(t, OrEmpty(start)), end.value), None, None);
    } else if end.None? {
      sent := VisitAll(Reverse(t), None, start);
    } else {
      sent := VisitAll(Reverse(AtMost(t, end.value)), end, start);
    }
    assert sent == Emission(t, start, end, reverse);
    DispatchEnumerates(t, start, end, reverse);
  }
}
