/**
 Iteration through a PrefixDB (prefixdb.go, prefixdb_iterator.go): the translated range, what
 the prefix iterator yields over a source iterator, and exactly when that is the range of
 the view.
 */
module PrefixIteration {
  import opened ByteStrings
  import opened KeyDomain
  import opened Store
  import opened Traversal
  import opened PrefixView
  import OpLog

  // ---------------------------------------------------------------- range translation

  function SourceStart(p: Bytes, start: Option<Bytes>): Option<Bytes> {
    Some(p + OrEmpty(start))
  }

  function SourceEnd(p: Bytes, end: Option<Bytes>): Option<Bytes>
    requires p != [] || end.Some?
  {
    if end.None? then Increment(p) else Some(p + end.value)
  }

  /** A key lies in the view's domain exactly when its source key lies in the translated one. */
  lemma DomainTranslation(p: Bytes, k: Bytes, start: Option<Bytes>, end: Option<Bytes>)
    requires p != [] || end.Some?
    ensures IsKeyInDomain(p + k, SourceStart(p, start), SourceEnd(p, end)) <==> IsKeyInDomain(k, start, end)
  {
    CompareCommonPrefix(p, k, OrEmpty(start));
    if end.Some? {
      CompareCommonPrefix(p, end.value, k);
    } else {
      PrefixSuffix(p + k, p);
      RangeOfIncrement(p + k, p);
    }
  }

  /** Below a present end every key of the translated range carries the prefix. */
  lemma BoundedRangePrefixed(p: Bytes, k: Bytes, start: Option<Bytes>, end: Bytes)
    requires IsKeyInDomain(k, SourceStart(p, start), Some(p + end))
    ensures HasPrefix(k, p)
  {
    InDomainAsLess(k, p + OrEmpty(start), Some(p + end));
    if !HasPrefix(k, p) {
      NotLessThanPrefix(k, p, OrEmpty(start));
      AboveWholePrefix(k, p, end);
      Trichotomy(k, p + end);
    }
  }

  /** Up to the increment, a key of the translated range carries the prefix or is a stray. */
  lemma OpenRangePrefixedOrStray(p: Bytes, k: Bytes, start: Option<Bytes>)
    requires p != []
    ensures IsStray(k, p) ==> IsKeyInDomain(k, SourceStart(p, start), Increment(p))
    ensures IsKeyInDomain(k, SourceStart(p, start), Increment(p)) ==> HasPrefix(k, p) || IsStray(k, p)
  {
    var s := p + OrEmpty(start);
    RangeOfIncrement(k, p);
    InDomainAsLess(k, p, Increment(p));
    InDomainAsLess(k, s, Increment(p));
    if IsStray(k, p) {
      StrayAbove(k, p, OrEmpty(start));
      Trichotomy(k, s);
    } else if !HasPrefix(k, p) && !Less(k, s) {
      NotLessThanPrefix(k, p, OrEmpty(start));
      Trichotomy(k, p);
    }
  }

  /** A stray key is above every key of the namespace. */
  lemma StrayAbove(k: Bytes, p: Bytes, s: Bytes)
    requires p != [] && IsStray(k, p)
    ensures Less(p + s, k)
  {
    StrayLacksPrefix(k, p);
    RangeOfIncrement(k, p);
    InDomainAsLess(k, p, Increment(p));
    Trichotomy(k, p);
    assert p[..|p|] == p;
    AboveWholePrefix(k, p, s);
  }

  // ---------------------------------------------------------------- the prefix iterator's output

  function Strip(it: Item, p: Bytes): Item
    requires HasPrefix(it.key, p)
  {
    Item(it.key[|p|..], it.value)
  }

  /** What a valid prefix iterator has still to yield, given what its source has. */
  function YieldFrom(p: Bytes, s: seq<Item>): seq<Item>
    decreases |s|
  {
    if s == [] || !HasPrefix(s[0].key, p) then []
    else (if s[0].key == p then [] else [Strip(s[0], p)]) + YieldFrom(p, s[1..])
  }

  /** No key with the prefix comes after one without it. */
  ghost predicate PrefixedFirst(p: Bytes, s: seq<Item>) {
    forall i, j :: 0 <= i < j < |s| && HasPrefix(s[j].key, p) ==> HasPrefix(s[i].key, p)
  }

  lemma {:induction false} YieldMembers(p: Bytes, s: seq<Item>, it: Item)
    requires PrefixedFirst(p, s)
    ensures it in YieldFrom(p, s) <==> it.key != [] && Item(p + it.key, it.value) in s
  {
    var full := Item(p + it.key, it.value);
    PrefixSuffix(p + it.key, p);
    if s != [] {
      assert s == [s[0]] + s[1..];
      PrefixSuffix(s[0].key, p);
      if HasPrefix(s[0].key, p) {
        YieldMembers(p, s[1..], it);
        assert full == s[0] <==> it == Strip(s[0], p);
      } else {
        assert full !in s;
      }
    }
  }

  ghost predicate AllAfter(b: Bytes, s: seq<Item>, reverse: bool) {
    forall i :: 0 <= i < |s| ==> Before(b, s[i].key, reverse)
  }

  lemma {:induction false} YieldAfter(p: Bytes, b: Bytes, s: seq<Item>, reverse: bool)
    requires AllAfter(p + b, s, reverse)
    ensures AllAfter(b, YieldFrom(p, s), reverse)
  {
    if s != [] && HasPrefix(s[0].key, p) {
      YieldAfter(p, b, s[1..], reverse);
      PrefixSuffix(s[0].key, p);
      CompareCommonPrefix(p, b, s[0].key[|p|..]);
      CompareCommonPrefix(p, s[0].key[|p|..], b);
    }
  }

  lemma {:induction false} YieldMonotone(p: Bytes, s: seq<Item>, reverse: bool)
    requires Monotone(s, reverse)
    ensures Monotone(YieldFrom(p, s), reverse)
  {
    if s != [] && HasPrefix(s[0].key, p) {
      YieldMonotone(p, s[1..], reverse);
      PrefixSuffix(s[0].key, p);
      YieldAfter(p, s[0].key[|p|..], s[1..], reverse);
    }
  }

  // ---------------------------------------------------------------- refinement

  /** If the namespace comes first in the source's range, the prefix iterator enumerates the view. */
  lemma YieldEnumerates(m: Contents, p: Bytes, start: Option<Bytes>, end: Option<Bytes>, reverse: bool, src: seq<Item>)
    requires (p != [] || end.Some?) && Enumerates(src, m, SourceStart(p, start), SourceEnd(p, end), reverse)
    requires PrefixedFirst(p, src)
    ensures Enumerates(YieldFrom(p, src), View(m, p), start, end, reverse)
  {
    YieldMonotone(p, src, reverse);
    forall it: Item ensures it in YieldFrom(p, src) <==> InRange(it, View(m, p), start, end) {
      YieldMembers(p, src, it);
      ViewAt(m, p, it.key);
      DomainTranslation(p, it.key, start, end);
      var full := Item(p + it.key, it.value);
      assert full in src <==> InRange(full, m, SourceStart(p, start), SourceEnd(p, end));
    }
  }

  /** With a present end, in either direction. */
  lemma BoundedPrefixedFirst(m: Contents, p: Bytes, start: Option<Bytes>, end: Option<Bytes>, reverse: bool, src: seq<Item>)
    requires end.Some? && Enumerates(src, m, SourceStart(p, start), SourceEnd(p, end), reverse)
    ensures PrefixedFirst(p, src)
  {
    forall i | 0 <= i < |src| ensures HasPrefix(src[i].key, p) {
      assert InRange(src[i], m, SourceStart(p, start), SourceEnd(p, end));
      BoundedRangePrefixed(p, src[i].key, start, end.value);
    }
  }

  /** Ascending, a stray cannot come before a key of the namespace. */
  lemma AscendingPrefixedFirst(m: Contents, p: Bytes, start: Option<Bytes>, src: seq<Item>)
    requires p != [] && Enumerates(src, m, SourceStart(p, start), Increment(p), false)
    ensures PrefixedFirst(p, src)
  {
    forall i, j | 0 <= i < j < |src| && HasPrefix(src[j].key, p) ensures HasPrefix(src[i].key, p) {
      assert InRange(src[i], m, SourceStart(p, start), Increment(p));
      OpenRangePrefixedOrStray(p, src[i].key, start);
      if IsStray(src[i].key, p) {
        PrefixSuffix(src[j].key, p);
        StrayAbove(src[i].key, p, src[j].key[|p|..]);
        Trichotomy(src[i].key, src[j].key);
      }
    }
  }

  /**
   Forward iteration through a PrefixDB, over any source that meets the iterator contract,
   enumerates the view's domain: strays and the bare prefix key make no difference.
   */
  lemma ForwardRefinement(m: Contents, p: Bytes, start: Option<Bytes>, end: Option<Bytes>, src: seq<Item>)
    requires (p != [] || end.Some?) && Enumerates(src, m, SourceStart(p, start), SourceEnd(p, end), false)
    ensures Enumerates(YieldFrom(p, src), View(m, p), start, end, false)
  {
    if end.Some? { BoundedPrefixedFirst(m, p, start, end, false, src); }
    else { AscendingPrefixedFirst(m, p, start, src); }
    YieldEnumerates(m, p, start, end, false, src);
  }

  /** Some key of the source is a stray of the prefix. */
  ghost predicate StrayStored(m: Contents, p: Bytes) {
    exists k :: k in m && IsStray(k, p)
  }

  ghost predicate ViewRangeEmpty(m: Contents, p: Bytes, start: Option<Bytes>, end: Option<Bytes>) {
    forall k :: k in View(m, p) ==> !IsKeyInDomain(k, start, end)
  }

  /** Descending, stored strays come first. */
  lemma DescendingStrayFirst(m: Contents, p: Bytes, start: Option<Bytes>, src: seq<Item>)
    requires p != [] && Enumerates(src, m, SourceStart(p, start), Increment(p), true)
    ensures !StrayStored(m, p) ==> PrefixedFirst(p, src)
    ensures StrayStored(m, p) ==> src != [] && !HasPrefix(src[0].key, p) && src[0].key != p
  {
    forall i | 0 <= i < |src| ensures HasPrefix(src[i].key, p) || IsStray(src[i].key, p) {
      assert InRange(src[i], m, SourceStart(p, start), Increment(p));
      OpenRangePrefixedOrStray(p, src[i].key, start);
    }
    forall i | 0 <= i < |src| ensures src[i].key in m {
      assert InRange(src[i], m, SourceStart(p, start), Increment(p));
    }
    if StrayStored(m, p) {
      var k :| k in m && IsStray(k, p);
      StrayInRange(m, p, start, src, k);
      if HasPrefix(src[0].key, p) {
        var i :| 0 <= i < |src| && src[i] == Item(k, m[k]);
        PrefixSuffix(src[0].key, p);
        StrayAbove(k, p, src[0].key[|p|..]);
        StrayLacksPrefix(k, p);
        Trichotomy(k, src[0].key);
      }
    }
  }

  lemma StrayInRange(m: Contents, p: Bytes, start: Option<Bytes>, src: seq<Item>, k: Bytes)
    requires p != [] && Enumerates(src, m, SourceStart(p, start), Increment(p), true)
    requires k in m && IsStray(k, p)
    ensures Item(k, m[k]) in src
  {
    OpenRangePrefixedOrStray(p, k, start);
    assert InRange(Item(k, m[k]), m, SourceStart(p, start), Increment(p));
  }

  /** With a present end, reverse iteration enumerates the view's domain. */
  lemma ReverseRefinementBounded(m: Contents, p: Bytes, start: Option<Bytes>, end: Option<Bytes>, src: seq<Item>)
    requires end.Some? && Enumerates(src, m, SourceStart(p, start), SourceEnd(p, end), true)
    ensures Enumerates(YieldFrom(p, src), View(m, p), start, end, true)
  {
    BoundedPrefixedFirst(m, p, start, end, true, src);
    YieldEnumerates(m, p, start, end, true, src);
  }

  lemma EmptyEnumeration(m: Contents, p: Bytes, start: Option<Bytes>, end: Option<Bytes>, reverse: bool)
    ensures Enumerates([], View(m, p), start, end, reverse) <==> ViewRangeEmpty(m, p, start, end)
  {
    var v := View(m, p);
    if Enumerates([], v, start, end, reverse) {
      forall k | k in v ensures !IsKeyInDomain(k, start, end) {
        assert !InRange(Item(k, v[k]), v, start, end);
      }
    }
  }

  /**
   With a nil end, reverse iteration enumerates the view's domain if and only if the source
   holds no stray of the prefix, or that domain is empty anyway. A stored stray makes the
   iterator invalid from the start.
   */
  lemma ReverseRefinementExact(m: Contents, p: Bytes, start: Option<Bytes>, src: seq<Item>)
    requires p != [] && Enumerates(src, m, SourceStart(p, start), SourceEnd(p, None), true)
    ensures Enumerates(YieldFrom(p, src), View(m, p), start, None, true)
            <==> !StrayStored(m, p) || ViewRangeEmpty(m, p, start, None)
    ensures StrayStored(m, p) ==> YieldFrom(p, src) == []
  {
    DescendingStrayFirst(m, p, start, src);
    if StrayStored(m, p) {
      EmptyEnumeration(m, p, start, None, true);
    } else {
      YieldEnumerates(m, p, start, None, true, src);
    }
  }

  /** A stored stray at work: prefix 01 FF, one key in the namespace, and the foreign key 02. */
  lemma ReverseIterationLosesKeys() returns (m: Contents, p: Bytes)
    ensures p != [] && View(m, p) == map[[5] := [7]]
    ensures forall src: seq<Item> :: Enumerates(src, m, SourceStart(p, None), SourceEnd(p, None), true)
                                     ==> YieldFrom(p, src) == []
  {
    p := [1, 0xFF];
    m := map[[1, 0xFF, 5] := [7], [2] := [8]];
    assert p[..1] == [1] && TrailingFF(p) == 1 && Successor(p) == [2];
    assert [2] == Successor(p) + Zeros(0);
    assert IsStray([2], p);
    assert StrayStored(m, p);
    forall src: seq<Item> | Enumerates(src, m, SourceStart(p, None), SourceEnd(p, None), true)
      ensures YieldFrom(p, src) == []
    {
      ReverseRefinementExact(m, p, None, src);
    }
    forall k ensures Lookup(View(m, p), k) == Lookup(map[[5] := [7]], k) {
      ViewAt(m, p, k);
      if p + k == [1, 0xFF, 5] { assert k == (p + k)[2..] == [5]; }
      assert p + [5] == [1, 0xFF, 5];
      assert |p + k| == 2 + |k|;
    }
    OpLog.SameLookups(View(m, p), map[[5] := [7]]);
  }

  // ---------------------------------------------------------------- IteratePrefix

  /** The keys with a prefix, which `IteratePrefix` is documented to be restricted to. */
  ghost predicate ListsPrefix(out: seq<Item>, m: Contents, p: Bytes) {
    && Monotone(out, false)
    && (forall it: Item :: it in out <==> it.key in m && m[it.key] == it.value && HasPrefix(it.key, p))
  }

  function PrefixRange(p: Bytes): (Option<Bytes>, Option<Bytes>) {
    if p == [] then (None, None) else (Some(p), Increment(p))
  }

  /** `IteratePrefix` lists exactly the keys with the prefix if and only if no stray is stored. */
  lemma IteratePrefixExact(out: seq<Item>, m: Contents, p: Bytes)
    requires Enumerates(out, m, PrefixRange(p).0, PrefixRange(p).1, false)
    ensures ListsPrefix(out, m, p) <==> !StrayStored(m, p)
  {
    forall it: Item ensures IsKeyInDomain(it.key, PrefixRange(p).0, PrefixRange(p).1)
                            <==> HasPrefix(it.key, p) || IsStray(it.key, p)
    {
      if p == [] { Trichotomy(it.key, []); } else { RangeOfIncrement(it.key, p); }
    }
    if StrayStored(m, p) {
      var k :| k in m && IsStray(k, p);
      StrayLacksPrefix(k, p);
      assert InRange(Item(k, m[k]), m, PrefixRange(p).0, PrefixRange(p).1);
    } else {
      forall it: Item ensures it in out <==> it.key in m && m[it.key] == it.value && HasPrefix(it.key, p) {
        assert it in out <==> InRange(it, m, PrefixRange(p).0, PrefixRange(p).1);
      }
    }
  }

  // ---------------------------------------------------------------- prefixes that are always safe

  /** Nothing can ever stray from the prefix: it is all 0xFF or does not end in 0xFF. */
  predicate StrayFree(p: Bytes) {
    AllFF(p) || TrailingFF(p) == 0
  }

  lemma FirstStray(p: Bytes)
    requires !StrayFree(p)
    ensures IsStray(Successor(p), p)
  {
    assert Successor(p) == Successor(p) + Zeros(0);
  }

  /** The caller's condition, on the prefix alone. */
  lemma StrayFreeExact(p: Bytes)
    ensures (forall m: Contents :: !StrayStored(m, p)) <==> StrayFree(p)
  {
    if !StrayFree(p) {
      FirstStray(p);
      var m: Contents := map[Successor(p) := []];
      assert StrayStored(m, p);
    }
  }

  /** `IteratePrefix` lists exactly the prefix over every store. */
  ghost predicate ListingAlwaysExact(p: Bytes) {
    forall t: seq<Item>, out: seq<Item> ::
      Sorted(t) && Enumerates(out, ToMap(t), PrefixRange(p).0, PrefixRange(p).1, false) ==> ListsPrefix(out, ToMap(t), p)
  }

  /** Reverse iteration over the whole view enumerates it over every store. */
  ghost predicate ReverseAlwaysExact(p: Bytes)
    requires p != []
  {
    forall t: seq<Item>, src: seq<Item> ::
      Sorted(t) && Enumerates(src, ToMap(t), SourceStart(p, None), SourceEnd(p, None), true)
      ==> Enumerates(YieldFrom(p, src), View(ToMap(t), p), None, None, true)
  }

  /** A store with one key in the namespace and one stray. */
  lemma StoreWithStray(p: Bytes) returns (t: seq<Item>)
    requires !StrayFree(p)
    ensures Sorted(t) && StrayStored(ToMap(t), p) && !ViewRangeEmpty(ToMap(t), p, None, None)
  {
    FirstStray(p);
    var one := OpLog.Insert([], p + [0], []);
    OpLog.InsertCorrect([], p + [0], []);
    t := OpLog.Insert(one, Successor(p), []);
    OpLog.InsertCorrect(one, Successor(p), []);
    assert Successor(p) in ToMap(t) && p + [0] in ToMap(t);
    ViewAt(ToMap(t), p, [0]);
    assert [0] in View(ToMap(t), p) && IsKeyInDomain([0], None, None);
  }

  /** Both shortfalls strike some store exactly when the prefix is not stray-free. */
  lemma PrefixDecides(p: Bytes)
    requires p != []
    ensures ListingAlwaysExact(p) <==> StrayFree(p)
    ensures ReverseAlwaysExact(p) <==> StrayFree(p)
  {
    if StrayFree(p) {
      SafePrefix(p);
    } else {
      var t := StoreWithStray(p);
      var m := ToMap(t);
      var out := Directed(Within(t, PrefixRange(p).0, PrefixRange(p).1), false);
      WithinEnumerates(t, PrefixRange(p).0, PrefixRange(p).1, false);
      IteratePrefixExact(out, m, p);
      var src := Directed(Within(t, SourceStart(p, None), SourceEnd(p, None)), true);
      WithinEnumerates(t, SourceStart(p, None), SourceEnd(p, None), true);
      ReverseRefinementExact(m, p, None, src);
    }
  }

  lemma SafePrefix(p: Bytes)
    requires p != [] && StrayFree(p)
    ensures ListingAlwaysExact(p) && ReverseAlwaysExact(p)
  {
    StrayFreeExact(p);
    forall t: seq<Item>, out: seq<Item>
      | Sorted(t) && Enumerates(out, ToMap(t), PrefixRange(p).0, PrefixRange(p).1, false)
      ensures ListsPrefix(out, ToMap(t), p)
    {
      IteratePrefixExact(out, ToMap(t), p);
    }
    forall t: seq<Item>, src: seq<Item>
      | Sorted(t) && Enumerates(src, ToMap(t), SourceStart(p, None), SourceEnd(p, None), true)
      ensures Enumerates(YieldFrom(p, src), View(ToMap(t), p), None, None, true)
    {
      ReverseRefinementExact(ToMap(t), p, None, src);
    }
  }
}
