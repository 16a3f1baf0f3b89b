/**
 Byte strings in the order of Go's `bytes.Compare`, and the facts about that order
 which every iterator of the database relies on.
 */
module ByteStrings {

  datatype Option<+T> = None | Some(value: T)

  type Byte = b: int | 0 <= b < 256

  /** A byte slice. A slice that may be nil is an `Option<Bytes>`. */
  type Bytes = seq<Byte>

  /** Lexicographic comparison, with the results -1, 0 and 1 of `bytes.Compare`. */
  function Compare(a: Bytes, b: Bytes): int {
    if a == [] then
      if b == [] then 0 else -1
    else if b == [] then 1
    else if a[0] < b[0] then -1
    else if b[0] < a[0] then 1
    else Compare(a[1..], b[1..])
  }

  predicate Less(a: Bytes, b: Bytes) {
    Compare(a, b) == -1
  }

  /** `bytes.HasPrefix`. */
  predicate HasPrefix(k: Bytes, p: Bytes) {
    |p| <= |k| && k[..|p|] == p
  }

  // ---------------------------------------------------------------- total order

  lemma {:induction false} CompareAntisymmetric(a: Bytes, b: Bytes)
    ensures Compare(a, b) == -Compare(b, a)
    ensures Compare(a, b) == 0 <==> a == b
  {
    if a == [] || b == [] {
    } else if a[0] == b[0] {
      CompareAntisymmetric(a[1..], b[1..]);
      assert a == [a[0]] + a[1..] && b == [b[0]] + b[1..];
    }
  }

  lemma {:induction false} LessTransitive(a: Bytes, b: Bytes, c: Bytes)
    requires Less(a, b) && Less(b, c)
    ensures Less(a, c)
  {
    if a != [] && a[0] == b[0] == c[0] {
      LessTransitive(a[1..], b[1..], c[1..]);
    }
  }

  /** Exactly one of `a < b`, `a == b` and `b < a` holds. */
  lemma Trichotomy(a: Bytes, b: Bytes)
    ensures -1 <= Compare(a, b) <= 1
    ensures Less(a, b) <==> Compare(b, a) > 0
    ensures !Less(a, b) <==> (a == b || Less(b, a))
    ensures !(Less(a, b) && Less(b, a)) && !Less(a, a)
  {
    CompareRange(a, b);
    CompareAntisymmetric(a, b);
    CompareAntisymmetric(a, a);
  }

  lemma {:induction false} CompareRange(a: Bytes, b: Bytes)
    ensures -1 <= Compare(a, b) <= 1
  {
    if a != [] && b != [] && a[0] == b[0] {
      CompareRange(a[1..], b[1..]);
    }
  }

  // ---------------------------------------------------------------- order and concatenation

  lemma {:induction false} CompareCommonPrefix(p: Bytes, a: Bytes, b: Bytes)
    ensures Compare(p + a, p + b) == Compare(a, b)
  {
    if p == [] {
      assert p + a == a && p + b == b;
    } else {
      CompareCommonPrefix(p[1..], a, b);
      assert (p + a)[1..] == p[1..] + a && (p + b)[1..] == p[1..] + b;
    }
  }

  /** `bytes.HasPrefix` recovers the suffix. */
  lemma PrefixSuffix(k: Bytes, p: Bytes)
    ensures HasPrefix(k, p) ==> k == p + k[|p|..]
    ensures forall s: Bytes :: HasPrefix(p + s, p) && (p + s)[|p|..] == s
  {
    forall s: Bytes ensures HasPrefix(p + s, p) && (p + s)[|p|..] == s {
      assert (p + s)[..|p|] == p;
    }
  }

  lemma PrefixOfPrefix(k: Bytes, a: Bytes, b: Bytes)
    ensures HasPrefix(k, a + b) ==> HasPrefix(k, a)
  {
    if HasPrefix(k, a + b) {
      assert k[..|a|] == (a + b)[..|a|] == a;
    }
  }

  /** A key with prefix `p` is not below `p`. */
  lemma PrefixNotLess(k: Bytes, p: Bytes)
    requires HasPrefix(k, p)
    ensures !Less(k, p)
  {
    PrefixSuffix(k, p);
    assert p == p + [];
    CompareCommonPrefix(p, k[|p|..], []);
  }

  /**
   A byte string `k` that is neither below `p` nor an extension of `p` is above
   every extension of `p`.
   */
  lemma {:induction false} AboveWholePrefix(k: Bytes, p: Bytes, s: Bytes)
    requires Less(p, k) && !HasPrefix(k, p)
    ensures Less(p + s, k)
  {
    if p == [] {
    } else if p[0] == k[0] {
      assert p == [p[0]] + p[1..];
      AboveWholePrefix(k[1..], p[1..], s);
      assert (p + s)[1..] == p[1..] + s;
    }
  }
}
