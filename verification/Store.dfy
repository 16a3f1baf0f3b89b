/**
 The shared contract of every backend (types.go): a store is a finite map from keys to
 values, and an iterator over a domain enumerates that map in key order. Backends that
 keep an ordered structure are modelled by the sorted sequence of its items.
 */
module Store {
  import opened ByteStrings
  import opened KeyDomain

  datatype Item = Item(key: Bytes, value: Bytes)

  type Contents = map<Bytes, Bytes>

  function Lookup(m: Contents, k: Bytes): Option<Bytes> {
    if k in m then Some(m[k]) else None
  }

  // ---------------------------------------------------------------- the iterator contract

  predicate Before(a: Bytes, b: Bytes, reverse: bool) {
    if reverse then Less(b, a) else Less(a, b)
  }

  ghost predicate Monotone(s: seq<Item>, reverse: bool) {
    forall i, j :: 0 <= i < j < |s| ==> Before(s[i].key, s[j].key, reverse)
  }

  ghost predicate InRange(it: Item, m: Contents, start: Option<Bytes>, end: Option<Bytes>) {
    it.key in m && m[it.key] == it.value && IsKeyInDomain(it.key, start, end)
  }

  /**
   What `DB.Iterator` and `DB.ReverseIterator` promise of the items an iterator yields
   until it becomes invalid: exactly the stored pairs whose key lies in `[start, end)`,
   in strictly ascending (or, reversed, strictly descending) key order.
   */
  ghost predicate Enumerates(out: seq<Item>, m: Contents, start: Option<Bytes>, end: Option<Bytes>, reverse: bool) {
    && Monotone(out, reverse)
    && (forall it: Item :: it in out <==> InRange(it, m, start, end))
  }

  /** `(start != nil && len(start) == 0) || (end != nil && len(end) == 0)`, negated. */
  predicate ValidEndpoints(start: Option<Bytes>, end: Option<Bytes>) {
    start != Some([]) && end != Some([])
  }

  lemma BeforeAsymmetric(a: Bytes, b: Bytes, reverse: bool)
    ensures !(Before(a, b, reverse) && Before(b, a, reverse)) && !Before(a, a, reverse)
  {
    Trichotomy(a, b);
    Trichotomy(a, a);
  }

  /** A monotone sequence is determined by its elements. */
  lemma {:induction false} MonotoneUnique(a: seq<Item>, b: seq<Item>, reverse: bool)
    requires Monotone(a, reverse) && Monotone(b, reverse)
    requires forall it: Item :: it in a <==> it in b
    ensures a == b
  {
    if a == [] {
      if b != [] { HasMember(b); }
    } else {
      assert a[0] in b;
      assert b[0] in a;
      var i :| 0 <= i < |b| && b[i] == a[0];
      var j :| 0 <= j < |a| && a[j] == b[0];
      BeforeAsymmetric(a[0].key, b[0].key, reverse);
      forall it: Item ensures it in a[1..] <==> it in b[1..] {
        TailMembers(a, reverse, it);
        TailMembers(b, reverse, it);
      }
      MonotoneUnique(a[1..], b[1..], reverse);
      assert a == [a[0]] + a[1..] && b == [b[0]] + b[1..];
    }
  }

  lemma HasMember(s: seq<Item>)
    requires s != []
    ensures exists it: Item :: it in s
  {
    assert s[0] in s;
  }

  lemma TailMembers(a: seq<Item>, reverse: bool, it: Item)
    requires Monotone(a, reverse) && a != []
    ensures it in a[1..] <==> it in a && it != a[0]
  {
    BeforeAsymmetric(a[0].key, a[0].key, reverse);
    if it in a && it != a[0] {
      var i :| 0 <= i < |a| && a[i] == it;
      assert a[1..][i - 1] == it;
    }
  }

  /** The contract leaves no freedom: two enumerations of the same domain are equal. */
  lemma EnumerationUnique(a: seq<Item>, b: seq<Item>, m: Contents,
                          start: Option<Bytes>, end: Option<Bytes>, reverse: bool)
    requires Enumerates(a, m, start, end, reverse) && Enumerates(b, m, start, end, reverse)
    ensures a == b
  {
    MonotoneUnique(a, b, reverse);
  }

  lemma MonotoneSlice(s: seq<Item>, lo: nat, hi: nat, reverse: bool)
    requires lo <= hi <= |s| && Monotone(s, reverse)
    ensures Monotone(s[lo..hi], reverse)
  {
  }

  // ---------------------------------------------------------------- ordered structures

  ghost predicate Sorted(t: seq<Item>) {
    Monotone(t, false)
  }

  /** The map a sorted sequence of items stands for. */
  function ToMap(t: seq<Item>): Contents {
    if t == [] then map[]
    else ToMap(t[..|t| - 1])[t[|t| - 1].key := t[|t| - 1].value]
  }

  function Reverse(s: seq<Item>): seq<Item> {
    if s == [] then [] else [s[|s| - 1]] + Reverse(s[..|s| - 1])
  }

  lemma {:induction false} ReverseAt(s: seq<Item>)
    ensures |Reverse(s)| == |s|
    ensures forall i :: 0 <= i < |s| ==> Reverse(s)[i] == s[|s| - 1 - i]
  {
    if s != [] {
      ReverseAt(s[..|s| - 1]);
    }
  }

  /** The items of a sorted sequence that lie in a domain, in order. */
  function Within(t: seq<Item>, start: Option<Bytes>, end: Option<Bytes>): seq<Item> {
    if t == [] then []
    else Within(t[..|t| - 1], start, end)
         + (if IsKeyInDomain(t[|t| - 1].key, start, end) then [t[|t| - 1]] else [])
  }

  lemma {:induction false} WithinMembers(t: seq<Item>, start: Option<Bytes>, end: Option<Bytes>, it: Item)
    ensures it in Within(t, start, end) <==> it in t && IsKeyInDomain(it.key, start, end)
  {
    if t != [] {
      assert t == t[..|t| - 1] + [t[|t| - 1]];
      WithinMembers(t[..|t| - 1], start, end, it);
    }
  }

  lemma WithinSnoc(t: seq<Item>, it: Item, start: Option<Bytes>, end: Option<Bytes>)
    ensures Within(t + [it], start, end)
         == Within(t, start, end) + if IsKeyInDomain(it.key, start, end) then [it] else []
  {
    assert (t + [it])[..|t|] == t;
  }

  lemma {:induction false} ToMapMembers(t: seq<Item>, it: Item)
    requires Sorted(t)
    ensures it in t <==> it.key in ToMap(t) && ToMap(t)[it.key] == it.value
    ensures it.key in ToMap(t) <==> exists i :: 0 <= i < |t| && t[i].key == it.key
  {
    if t != [] {
      var front, last := t[..|t| - 1], t[|t| - 1];
      assert t == front + [last];
      ToMapMembers(front, it);
      BeforeAsymmetric(last.key, last.key, false);
      if it.key == last.key {
        assert t[|t| - 1].key == it.key;
      } else if it.key in ToMap(front) {
        var i :| 0 <= i < |front| && front[i].key == it.key;
        assert t[i].key == it.key;
      }
    }
  }

  ghost predicate AllBelow(t: seq<Item>, k: Bytes) {
    forall i :: 0 <= i < |t| ==> Less(t[i].key, k)
  }

  lemma SortedAppend(t: seq<Item>, it: Item)
    requires Sorted(t) && AllBelow(t, it.key)
    ensures Sorted(t + [it])
  {
  }

  lemma AllBelowFront(t: seq<Item>)
    requires Sorted(t) && t != []
    ensures Sorted(t[..|t| - 1]) && AllBelow(t[..|t| - 1], t[|t| - 1].key)
  {
  }

  lemma {:induction false} WithinBelow(t: seq<Item>, start: Option<Bytes>, end: Option<Bytes>, b: Bytes)
    requires AllBelow(t, b)
    ensures AllBelow(Within(t, start, end), b)
  {
    if t != [] {
      WithinBelow(t[..|t| - 1], start, end, b);
    }
  }

  lemma {:induction false} WithinMonotone(t: seq<Item>, start: Option<Bytes>, end: Option<Bytes>)
    requires Sorted(t)
    ensures Sorted(Within(t, start, end))
  {
    if t != [] {
      var front, last := t[..|t| - 1], t[|t| - 1];
      AllBelowFront(t);
      WithinMonotone(front, start, end);
      WithinBelow(front, start, end, last.key);
      SortedAppend(Within(front, start, end), last);
    }
  }

  lemma ReverseSnoc(s: seq<Item>, it: Item)
    ensures Reverse(s + [it]) == [it] + Reverse(s)
  {
    assert (s + [it])[..|s|] == s;
  }

  lemma ReverseMonotone(s: seq<Item>)
    requires Sorted(s)
    ensures Monotone(Reverse(s), true)
    ensures forall it :: it in Reverse(s) <==> it in s
  {
    ReverseAt(s);
    forall it ensures it in Reverse(s) <==> it in s {
      if it in s {
        var i :| 0 <= i < |s| && s[i] == it;
        assert Reverse(s)[|s| - 1 - i] == it;
      }
    }
  }

  function Directed(s: seq<Item>, reverse: bool): seq<Item> {
    if reverse then Reverse(s) else s
  }

  /** Filtering a sorted structure by a domain enumerates it, in either direction. */
  lemma WithinEnumerates(t: seq<Item>, start: Option<Bytes>, end: Option<Bytes>, reverse: bool)
    requires Sorted(t)
    ensures Enumerates(Directed(Within(t, start, end), reverse), ToMap(t), start, end, reverse)
  {
    var w := Within(t, start, end);
    WithinMonotone(t, start, end);
    ReverseMonotone(w);
    forall it: Item ensures it in w <==> InRange(it, ToMap(t), start, end) {
      ToMapMembers(t, it);
      WithinMembers(t, start, end, it);
    }
  }
}
