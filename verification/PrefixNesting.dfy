/**
 A PrefixDB over a PrefixDB against the single PrefixDB with the concatenated prefix
 (prefixdb.go, util.go): the same source keys are read, forward iteration is always the
 same, and reverse iteration is the same exactly under the condition stated here.
 */
module PrefixNesting {
  import opened ByteStrings
  import opened KeyDomain
  import opened Store
  import opened PrefixView
  import opened PrefixIteration

  /** The source range that the nested iterator opens: the outer range translated twice. */
  function NestedStart(p1: Bytes, p2: Bytes, start: Option<Bytes>): Option<Bytes> {
    SourceStart(p1, SourceStart(p2, start))
  }

  function NestedEnd(p1: Bytes, p2: Bytes, end: Option<Bytes>): Option<Bytes>
    requires p1 != [] && p2 != []
  {
    SourceEnd(p1, SourceEnd(p2, end))
  }

  // ---------------------------------------------------------------- increments and strays of a concatenation

  lemma {:induction false} TrailingConcat(a: Bytes, b: Bytes)
    ensures TrailingFF(a + b) == if AllFF(b) then TrailingFF(a) + |b| else TrailingFF(b)
  {
    if b == [] {
      assert a + b == a;
    } else {
      var front, last := b[..|b| - 1], b[|b| - 1];
      assert (a + b)[..|a + b| - 1] == a + front && b == front + [last];
      TrailingConcat(a, front);
      TrailingAll(b);
      if last == 0xFF { assert AllFF(b) <==> AllFF(front); }
    }
  }

  lemma {:induction false} TrailingAll(b: Bytes)
    ensures AllFF(b) <==> TrailingFF(b) == |b|
  {
  }

  /** While the inner prefix can be incremented, the carry stays inside it. */
  lemma {:induction false} SuccessorConcat(a: Bytes, b: Bytes)
    requires !AllFF(b)
    ensures !AllFF(a + b) && Successor(a + b) == a + Successor(b)
    ensures b != [] && Increment(a + b) == Some(a + Increment(b).value)
  {
    TrailingConcat(a, b);
    TrailingAll(a + b);
    TrailingAll(b);
    var n := |b| - TrailingFF(b);
    assert (a + b)[..|a| + n - 1] == a + b[..n - 1];
    assert Successor(a + b) == a + Successor(b);
    IncrementIsSuccessor(a + b);
    IncrementIsSuccessor(b);
    assert (a + Successor(b)) + Zeros(TrailingFF(b)) == a + (Successor(b) + Zeros(TrailingFF(b)));
  }

  lemma {:induction false} StrayOfConcat(a: Bytes, b: Bytes, s: Bytes)
    requires !AllFF(b)
    ensures IsStray(a + s, a + b) <==> IsStray(s, b)
  {
    SuccessorConcat(a, b);
    TrailingConcat(a, b);
    forall j: nat ensures a + s == Successor(a + b) + Zeros(j) <==> s == Successor(b) + Zeros(j) {
      ConcatCancel(a, s, Successor(b), Zeros(j));
    }
  }

  lemma ConcatCancel(a: Bytes, s: Bytes, x: Bytes, y: Bytes)
    ensures a + s == (a + x) + y <==> s == x + y
  {
    assert (a + x) + y == a + (x + y);
    PrefixInjective(a, s, x + y);
  }

  lemma {:induction false} StrayOfConcatPrefixed(a: Bytes, b: Bytes, k: Bytes)
    requires !AllFF(b) && IsStray(k, a + b)
    ensures HasPrefix(k, a) && k == a + k[|a|..] && IsStray(k[|a|..], b)
  {
    assert HasPrefix(k, a) by {
      SuccessorConcat(a, b);
      assert (a + Successor(b))[..|a|] == a;
    }
    assert k == a + k[|a|..];
    StrayOfConcat(a, b, k[|a|..]);
  }

  /** An inner prefix of 0xFF bytes passes the carry on: the outer strays stay, more are added. */
  lemma {:induction false} StrayOfCarry(a: Bytes, b: Bytes, k: Bytes)
    requires AllFF(b) && IsStray(k, a)
    ensures IsStray(k, a + b)
  {
    TrailingConcat(a, b);
    TrailingAll(a + b);
    TrailingAll(a);
    assert (a + b)[..|a| - TrailingFF(a) - 1] == a[..|a| - TrailingFF(a) - 1];
    assert Successor(a + b) == Successor(a);
  }

  lemma {:induction false} StrayStoredConcat(m: Contents, p1: Bytes, p2: Bytes)
    requires !AllFF(p2)
    ensures StrayStored(View(m, p1), p2) <==> StrayStored(m, p1 + p2)
  {
    if StrayStored(View(m, p1), p2) {
      var s :| s in View(m, p1) && IsStray(s, p2);
      ViewAt(m, p1, s);
      StrayOfConcat(p1, p2, s);
    }
    if StrayStored(m, p1 + p2) {
      var k :| k in m && IsStray(k, p1 + p2);
      StrayOfConcatPrefixed(p1, p2, k);
      ViewAt(m, p1, k[|p1|..]);
    }
  }

  // ---------------------------------------------------------------- forward

  /**
   Forward, with any endpoints, and reversed with a present end, the nested iterator yields
   what the flat one does.
   */
  lemma {:induction false} NestedIterationSame(m: Contents, p1: Bytes, p2: Bytes, start: Option<Bytes>, end: Option<Bytes>, reverse: bool,
                            nested: seq<Item>, flat: seq<Item>)
    requires p1 != [] && p2 != [] && (reverse ==> end.Some?)
    requires Enumerates(nested, m, NestedStart(p1, p2, start), NestedEnd(p1, p2, end), reverse)
    requires Enumerates(flat, m, SourceStart(p1 + p2, start), SourceEnd(p1 + p2, end), reverse)
    ensures YieldFrom(p2, YieldFrom(p1, nested)) == YieldFrom(p1 + p2, flat)
  {
    var inner := YieldFrom(p1, nested);
    var s2, e2 := SourceStart(p2, start), SourceEnd(p2, end);
    if reverse {
      ReverseRefinementBounded(m, p1, s2, e2, nested);
      ReverseRefinementBounded(View(m, p1), p2, start, end, inner);
      ReverseRefinementBounded(m, p1 + p2, start, end, flat);
    } else {
      ForwardRefinement(m, p1, s2, e2, nested);
      ForwardRefinement(View(m, p1), p2, start, end, inner);
      ForwardRefinement(m, p1 + p2, start, end, flat);
    }
    ViewOfView(m, p1, p2);
    EnumerationUnique(YieldFrom(p2, inner), YieldFrom(p1 + p2, flat), View(m, p1 + p2), start, end, reverse);
  }

  // ---------------------------------------------------------------- reverse with a nil end

  /** The inner prefix can be incremented: both forms open the same range and agree. */
  lemma {:induction false} NestedReverseNoCarry(m: Contents, p1: Bytes, p2: Bytes, start: Option<Bytes>, nested: seq<Item>, flat: seq<Item>)
    requires p1 != [] && p2 != [] && !AllFF(p2)
    requires Enumerates(nested, m, NestedStart(p1, p2, start), NestedEnd(p1, p2, None), true)
    requires Enumerates(flat, m, SourceStart(p1 + p2, start), SourceEnd(p1 + p2, None), true)
    ensures YieldFrom(p2, YieldFrom(p1, nested)) == YieldFrom(p1 + p2, flat)
  {
    var inner := YieldFrom(p1, nested);
    ReverseRefinementBounded(m, p1, SourceStart(p2, start), Increment(p2), nested);
    ReverseRefinementExact(View(m, p1), p2, start, inner);
    ReverseRefinementExact(m, p1 + p2, start, flat);
    StrayStoredConcat(m, p1, p2);
    ViewOfView(m, p1, p2);
    if !StrayStored(m, p1 + p2) {
      EnumerationUnique(YieldFrom(p2, inner), YieldFrom(p1 + p2, flat), View(m, p1 + p2), start, None, true);
    }
  }

  /** The inner prefix is all 0xFF: the nested end falls back to the outer increment. */
  lemma {:induction false} NestedReverseCarry(m: Contents, p1: Bytes, p2: Bytes, start: Option<Bytes>, nested: seq<Item>, flat: seq<Item>)
    requires p1 != [] && p2 != [] && AllFF(p2)
    requires Enumerates(nested, m, NestedStart(p1, p2, start), NestedEnd(p1, p2, None), true)
    requires Enumerates(flat, m, SourceStart(p1 + p2, start), SourceEnd(p1 + p2, None), true)
    ensures YieldFrom(p2, YieldFrom(p1, nested)) == YieldFrom(p1 + p2, flat)
            <==> StrayStored(m, p1) || !StrayStored(m, p1 + p2) || ViewRangeEmpty(m, p1 + p2, start, None)
  {
    var inner, p := YieldFrom(p1, nested), p1 + p2;
    ReverseRefinementExact(m, p1, SourceStart(p2, start), nested);
    ReverseRefinementExact(m, p, start, flat);
    if StrayStored(m, p1) {
      var k :| k in m && IsStray(k, p1);
      StrayOfCarry(p1, p2, k);
    } else {
      ReverseRefinementExact(View(m, p1), p2, start, inner);
      ViewOfView(m, p1, p2);
      EmptyEnumeration(m, p, start, None, true);
      if StrayStored(m, p) {
        if YieldFrom(p2, inner) == [] { assert Enumerates([], View(m, p), start, None, true); }
        if ViewRangeEmpty(m, p, start, None) {
          EnumerationUnique(YieldFrom(p2, inner), [], View(m, p), start, None, true);
        }
      } else {
        EnumerationUnique(YieldFrom(p2, inner), YieldFrom(p, flat), View(m, p), start, None, true);
      }
    }
  }

  /**
   Reversed with a nil end, the nested and the flat iterator yield the same if and only if the
   inner prefix has a byte below 0xFF, or a stray of the outer prefix is stored (both are then
   invalid), or no stray of the concatenation is stored, or there is nothing to yield.
   */
  lemma {:induction false} NestedReverseExact(m: Contents, p1: Bytes, p2: Bytes, start: Option<Bytes>, nested: seq<Item>, flat: seq<Item>)
    requires p1 != [] && p2 != []
    requires Enumerates(nested, m, NestedStart(p1, p2, start), NestedEnd(p1, p2, None), true)
    requires Enumerates(flat, m, SourceStart(p1 + p2, start), SourceEnd(p1 + p2, None), true)
    ensures YieldFrom(p2, YieldFrom(p1, nested)) == YieldFrom(p1 + p2, flat)
            <==> || !AllFF(p2)
                 || StrayStored(m, p1)
                 || !StrayStored(m, p1 + p2)
                 || ViewRangeEmpty(m, p1 + p2, start, None)
  {
    if AllFF(p2) {
      NestedReverseCarry(m, p1, p2, start, nested, flat);
    } else {
      NestedReverseNoCarry(m, p1, p2, start, nested, flat);
    }
  }

  /** The two forms do differ: prefixes 01 and FF, with the foreign key 02 stored. */
  lemma {:induction false} NestedAndFlatDiffer() returns (m: Contents, p1: Bytes, p2: Bytes)
    ensures p1 != [] && p2 != []
    ensures forall nested: seq<Item>, flat: seq<Item> ::
              && Enumerates(nested, m, NestedStart(p1, p2, None), NestedEnd(p1, p2, None), true)
              && Enumerates(flat, m, SourceStart(p1 + p2, None), SourceEnd(p1 + p2, None), true)
              ==> YieldFrom(p2, YieldFrom(p1, nested)) != YieldFrom(p1 + p2, flat)
  {
    p1, p2 := [1], [0xFF];
    m := map[[1, 0xFF, 5] := [7], [2] := [8]];
    var p := p1 + p2;
    assert p == [1, 0xFF] && AllFF(p2) && TrailingFF(p1) == 0;
    assert !StrayStored(m, p1);
    assert StrayStored(m, p) by {
      assert p[..1] == [1] && TrailingFF(p[..1]) == 0 && TrailingFF(p) == 1;
      assert [2] == Successor(p) + Zeros(0) && [2] in m;
    }
    assert !ViewRangeEmpty(m, p, None, None) by {
      assert p + [5] == [1, 0xFF, 5];
      ViewAt(m, p, [5]);
      assert [5] in View(m, p) && IsKeyInDomain([5], None, None);
    }
    forall nested: seq<Item>, flat: seq<Item> |
      && Enumerates(nested, m, NestedStart(p1, p2, None), NestedEnd(p1, p2, None), true)
      && Enumerates(flat, m, SourceStart(p, None), SourceEnd(p, None), true)
      ensures YieldFrom(p2, YieldFrom(p1, nested)) != YieldFrom(p, flat)
    {
      NestedReverseExact(m, p1, p2, None, nested, flat);
    }
  }
}
