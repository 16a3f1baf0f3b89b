/**
 Key ranges (util.go): the meaning of a half-open domain `[start, end)` with nil
 endpoints, the big-endian increment `cpIncr`, and the exact set of keys that
 lies between a prefix and its increment.
 */
module KeyDomain {
  import opened ByteStrings

  /** `IsKeyInDomain`: a nil start compares like the empty key, a nil end is no bound. */
  predicate IsKeyInDomain(key: Bytes, start: Option<Bytes>, end: Option<Bytes>) {
    && Compare(key, if start.Some? then start.value else []) >= 0
    && (end.Some? ==> Compare(end.value, key) > 0)
  }

  // ---------------------------------------------------------------- cpIncr

  /** The number a byte string denotes, most significant byte first. */
  function BigEndian(bz: Bytes): nat {
    if bz == [] then 0 else 256 * BigEndian(bz[..|bz| - 1]) + bz[|bz| - 1]
  }

  predicate AllFF(bz: Bytes) {
    forall i :: 0 <= i < |bz| ==> bz[i] == 0xFF
  }

  function Zeros(n: nat): Bytes {
    seq(n, _ => 0)
  }

  /**
   What `cpIncr` computes: the byte string of the same length that denotes the next
   number, or nil when there is none because every byte is 0xFF.
   */
  function Increment(bz: Bytes): (r: Option<Bytes>)
    requires bz != []
    ensures r.None? <==> AllFF(bz)
    ensures r.Some? ==> |r.value| == |bz| && BigEndian(r.value) == BigEndian(bz) + 1
  {
    var front, last := bz[..|bz| - 1], bz[|bz| - 1];
    if last < 0xFF then
      var r := front + [last + 1];
      assert r[..|r| - 1] == front;
      Some(r)
    else if front == [] then None
    else
      var up := Increment(front);
      if up.None? then None
      else
        var r := up.value + [0];
        assert r[..|r| - 1] == up.value;
        Some(r)
  }

  /** `Increment` in closed form, at the last byte `i` that is not 0xFF. */
  lemma {:induction false} IncrementAt(bz: Bytes, i: nat)
    requires i < |bz| && bz[i] < 0xFF
    requires forall j :: i < j < |bz| ==> bz[j] == 0xFF
    ensures Increment(bz) == Some(bz[..i] + [bz[i] + 1] + Zeros(|bz| - 1 - i))
  {
    var front := bz[..|bz| - 1];
    if i == |bz| - 1 {
      assert bz[..i] + [bz[i] + 1] + Zeros(0) == front + [bz[i] + 1];
    } else {
      IncrementAt(front, i);
      assert front[..i] == bz[..i];
      assert bz[..i] + [bz[i] + 1] + Zeros(|front| - 1 - i) + [0]
          == bz[..i] + [bz[i] + 1] + Zeros(|bz| - 1 - i);
    }
  }

  lemma Carried(bz: Bytes, i: nat, r: Bytes)
    requires |r| == |bz| && i < |bz| && bz[i] < 0xFF && r[i] == bz[i] + 1
    requires forall j :: 0 <= j < i ==> r[j] == bz[j]
    requires forall j :: i < j < |bz| ==> bz[j] == 0xFF && r[j] == 0
    ensures Increment(bz) == Some(r)
  {
    assert r == bz[..i] + [bz[i] + 1] + Zeros(|bz| - 1 - i);
    IncrementAt(bz, i);
  }

  /** `cpIncr`: the backward carry loop over a copy of `bz`. */
  method CpIncr(bz: Bytes) returns (r: Option<Bytes>)
    requires bz != []
    ensures r == Increment(bz)
  {
    var ret := new Byte[|bz|](i requires 0 <= i < |bz| => bz[i]);
    var i := |bz| - 1;
    while i >= 0
      invariant -1 <= i < |bz|
      invariant forall j :: 0 <= j <= i ==> ret[j] == bz[j]
      invariant forall j :: i < j < |bz| ==> bz[j] == 0xFF && ret[j] == 0
    {
      if ret[i] < 0xFF {
        ret[i] := ret[i] + 1;
        Carried(bz, i, ret[..]);
        return Some(ret[..]);
      }
      ret[i] := 0;
      if i == 0 {
        return None;
      }
      i := i - 1;
    }
    return None;
  }

  // ---------------------------------------------------------------- stray keys

  /** The number of 0xFF bytes at the end of `p`. */
  function TrailingFF(p: Bytes): (t: nat)
    ensures t <= |p|
    ensures forall i :: |p| - t <= i < |p| ==> p[i] == 0xFF
    ensures t < |p| ==> p[|p| - t - 1] != 0xFF
  {
    if p != [] && p[|p| - 1] == 0xFF then 1 + TrailingFF(p[..|p| - 1]) else 0
  }

  /** `p` without its trailing 0xFF bytes and with the byte before them incremented. */
  function Successor(p: Bytes): Bytes
    requires !AllFF(p)
  {
    var n := |p| - TrailingFF(p);
    p[..n - 1] + [p[n - 1] + 1]
  }

  /**
   A key that is below `cpIncr(p)` and above every key with prefix `p`, because
   `cpIncr` keeps the length of `p`.
   */
  ghost predicate IsStray(k: Bytes, p: Bytes) {
    !AllFF(p) && exists j :: 0 <= j < TrailingFF(p) && k == Successor(p) + Zeros(j)
  }

  lemma {:induction false} IncrementIsSuccessor(p: Bytes)
    requires p != [] && !AllFF(p)
    ensures Increment(p) == Some(Successor(p) + Zeros(TrailingFF(p)))
  {
    IncrementAt(p, |p| - TrailingFF(p) - 1);
  }

  lemma {:induction false} StrayLacksPrefix(k: Bytes, p: Bytes)
    requires IsStray(k, p)
    ensures !HasPrefix(k, p)
  {
    var n := |p| - TrailingFF(p);
    assert k[n - 1] == p[n - 1] + 1;
  }

  lemma {:induction false} AllFFBound(k: Bytes, p: Bytes)
    requires AllFF(p) && !Less(k, p)
    ensures HasPrefix(k, p)
  {
    if p != [] {
      CompareRange(k, p);
      AllFFBound(k[1..], p[1..]);
      assert p == [p[0]] + p[1..];
    }
  }

  /** The immediate successor of `c` in the byte order is `c` followed by a zero byte. */
  lemma {:induction false} BelowAppendedZero(k: Bytes, c: Bytes)
    ensures Less(k, c + [0]) <==> Less(k, c) || k == c
  {
    if c == [] {
      if k != [] && k[0] == 0 {
        CompareRange(k[1..], []);
      }
    } else if k != [] {
      BelowAppendedZero(k[1..], c[1..]);
      assert (c + [0])[1..] == c[1..] + [0];
      assert k == [k[0]] + k[1..] && c == [c[0]] + c[1..];
    }
  }

  lemma {:induction false} IncrementUnfold(p: Bytes)
    requires p != [] && !AllFF(p) && p[|p| - 1] == 0xFF
    ensures var a := p[..|p| - 1];
            && a != [] && !AllFF(a)
            && Increment(p) == Some(Increment(a).value + [0])
            && (forall k: Bytes :: IsStray(k, p) <==> IsStray(k, a) || k == Increment(a).value)
  {
    var a := p[..|p| - 1];
    assert TrailingFF(p) == TrailingFF(a) + 1;
    assert Successor(p) == Successor(a);
    IncrementIsSuccessor(a);
    forall k: Bytes ensures IsStray(k, p) <==> IsStray(k, a) || k == Increment(a).value {
      if k == Increment(a).value {
        assert k == Successor(p) + Zeros(TrailingFF(a));
      } else if IsStray(k, p) {
        var j :| 0 <= j < TrailingFF(p) && k == Successor(p) + Zeros(j);
        assert j != TrailingFF(a);
      }
    }
  }

  /** The range without carry: a last byte below 0xFF. */
  lemma RangeWithoutCarry(k: Bytes, a: Bytes, b: Byte)
    requires b < 0xFF
    ensures !Less(k, a + [b]) && Less(k, a + [b + 1]) <==> HasPrefix(k, a + [b])
  {
    var p := a + [b];
    PrefixSuffix(k, a);
    PrefixSuffix(k, p);
    Trichotomy(k, p);
    Trichotomy(k, a + [b + 1]);
    if HasPrefix(k, a) {
      var s := k[|a|..];
      CompareCommonPrefix(a, s, [b]);
      CompareCommonPrefix(a, s, [b + 1]);
      if s != [] {
        CompareRange(s[1..], []);
        assert HasPrefix(k, p) <==> s[0] == b;
      }
    } else {
      assert !HasPrefix(k, p) by { PrefixOfPrefix(k, a, [b]); }
      if !Less(k, p) {
        NotLessThanPrefix(k, a, [b]);
        AboveWholePrefix(k, a, [b + 1]);
      }
    }
  }

  /** What is not below `a + s` and does not extend `a` is above `a`. */
  lemma NotLessThanPrefix(k: Bytes, a: Bytes, s: Bytes)
    requires !Less(k, a + s) && !HasPrefix(k, a)
    ensures Less(a, k)
  {
    Trichotomy(k, a);
    Trichotomy(k, a + s);
    PrefixSuffix(a + s, a);
    PrefixNotLess(a + s, a);
    Trichotomy(a + s, a);
    assert k != a;
    if Less(k, a) && a + s != a {
      LessTransitive(k, a, a + s);
    }
  }

  /**
   The exact range of `cpIncr`: a key lies in `[p, cpIncr(p))`, a nil increment meaning
   no upper bound, if and only if it has prefix `p` or is a stray key of `p`.
   */
  lemma {:induction false} RangeOfIncrement(k: Bytes, p: Bytes)
    requires p != []
    ensures IsKeyInDomain(k, Some(p), Increment(p)) <==> HasPrefix(k, p) || IsStray(k, p)
    decreases |p|, 1
  {
    InDomainAsLess(k, p, Increment(p));
    if AllFF(p) {
      if !Less(k, p) { AllFFBound(k, p); }
      if HasPrefix(k, p) { PrefixNotLess(k, p); }
    } else if p[|p| - 1] < 0xFF {
      assert p == p[..|p| - 1] + [p[|p| - 1]];
      RangeWithoutCarry(k, p[..|p| - 1], p[|p| - 1]);
    } else {
      RangeWithCarry(k, p);
    }
  }

  lemma InDomainAsLess(k: Bytes, start: Bytes, end: Option<Bytes>)
    ensures IsKeyInDomain(k, Some(start), end)
            <==> !Less(k, start) && (end.Some? ==> Less(k, end.value))
  {
    Trichotomy(k, start);
    if end.Some? { Trichotomy(k, end.value); }
  }

  lemma {:induction false} RangeWithCarry(k: Bytes, p: Bytes)
    requires p != [] && !AllFF(p) && p[|p| - 1] == 0xFF
    ensures IsKeyInDomain(k, Some(p), Increment(p)) <==> HasPrefix(k, p) || IsStray(k, p)
    decreases |p|, 0
  {
    IncrementUnfold(p);
    var a := p[..|p| - 1];
    var c := Increment(a).value;
    assert p == a + [0xFF];
    RangeOfIncrement(k, a);
    InDomainAsLess(k, a, Some(c));
    InDomainAsLess(k, p, Increment(p));
    BelowAppendedZero(k, c);
    PrefixSuffix(k, a);
    if HasPrefix(k, a) {
      if IsStray(k, a) { StrayLacksPrefix(k, a); }
      var s := k[|a|..];
      CompareCommonPrefix(a, s, [0xFF]);
      if !Less(s, [0xFF]) { AllFFBound(s, [0xFF]); }
      if HasPrefix(k, p) { PrefixNotLess(k, p); }
      Trichotomy(k, c);
    } else {
      assert !HasPrefix(k, p) by { PrefixOfPrefix(k, a, [0xFF]); }
      IncrementAbovePrefix(a);
      if k == c {
        AboveWholePrefix(k, a, [0xFF]);
        Trichotomy(k, p);
      } else if IsStray(k, a) {
        Trichotomy(k, a);
        AboveWholePrefix(k, a, [0xFF]);
        Trichotomy(k, p);
      } else if !Less(k, p) && Less(k, c) {
        NotLessThanPrefix(k, a, [0xFF]);
        Trichotomy(k, a);
      }
    }
  }

  /** The increment is above `p` and does not extend it. */
  lemma {:induction false} IncrementAbovePrefix(p: Bytes)
    requires p != [] && !AllFF(p)
    ensures Less(p, Increment(p).value) && !HasPrefix(Increment(p).value, p)
  {
    var i := |p| - TrailingFF(p) - 1;
    IncrementAt(p, i);
    DifferAt(p[..i], p[i], p[i + 1..], Zeros(|p| - 1 - i));
    var c := Increment(p).value;
    assert Less(p, c) by { assert p == p[..i] + [p[i]] + p[i + 1..]; }
    assert c[..|p|] == c;
    Trichotomy(p, c);
  }

  lemma DifferAt(pre: Bytes, b: Byte, x: Bytes, y: Bytes)
    requires b < 0xFF
    ensures Less(pre + [b] + x, pre + [b + 1] + y)
  {
    assert pre + [b] + x == pre + ([b] + x) && pre + [b + 1] + y == pre + ([b + 1] + y);
    CompareCommonPrefix(pre, [b] + x, [b + 1] + y);
  }
}
