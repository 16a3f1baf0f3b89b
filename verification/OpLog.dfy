/**
 Logs of `Set` and `Delete` operations: their in-order effect on a store, the same
 effect key by key, and the effect on the sorted items of a B-tree.
 */
module OpLog {
  import opened ByteStrings
  import opened Store

  datatype Op = Set(key: Bytes, value: Bytes) | Delete(key: Bytes)

  function Apply(m: Contents, op: Op): Contents {
    match op
    case Set(k, v) => m[k := v]
    case Delete(k) => m - {k}
  }

  /** The in-order fold of a log. */
  function ApplyAll(m: Contents, ops: seq<Op>): Contents {
    if ops == [] then m else Apply(ApplyAll(m, ops[..|ops| - 1]), ops[|ops| - 1])
  }

  /** The last operation of a log that names key `k`, if any. */
  function LastOn(ops: seq<Op>, k: Bytes): (r: Option<Op>)
    ensures r.Some? ==> r.value.key == k && r.value in ops
    ensures r.None? ==> forall op :: op in ops ==> op.key != k
  {
    if ops == [] then None
    else if ops[|ops| - 1].key == k then Some(ops[|ops| - 1])
    else
      assert ops == ops[..|ops| - 1] + [ops[|ops| - 1]];
      LastOn(ops[..|ops| - 1], k)
  }

  function Outcome(op: Op): Option<Bytes> {
    if op.Set? then Some(op.value) else None
  }

  /** A log acts on each key through the last operation that names it. */
  lemma {:induction false} ApplyAllAt(m: Contents, ops: seq<Op>, k: Bytes)
    ensures Lookup(ApplyAll(m, ops), k)
         == var last := LastOn(ops, k); if last.Some? then Outcome(last.value) else Lookup(m, k)
  {
    if ops != [] {
      ApplyAllAt(m, ops[..|ops| - 1], k);
    }
  }

  lemma SameLookups(a: Contents, b: Contents)
    requires forall k :: Lookup(a, k) == Lookup(b, k)
    ensures a == b
  {
    forall k ensures k in a <==> k in b {
      assert Lookup(a, k) == Lookup(b, k);
    }
    forall k | k in a ensures a[k] == b[k] {
      assert Lookup(a, k) == Lookup(b, k);
    }
  }

  lemma {:induction false} ApplyAllConcat(m: Contents, a: seq<Op>, b: seq<Op>)
    ensures ApplyAll(m, a + b) == ApplyAll(ApplyAll(m, a), b)
  {
    if b == [] {
      assert a + b == a;
    } else {
      ApplyAllConcat(m, a, b[..|b| - 1]);
      assert (a + b)[..|a + b| - 1] == a + b[..|b| - 1];
    }
  }

  // ---------------------------------------------------------------- last operation wins

  /** The log reduced to the last operation on each key. */
  function LastPerKey(ops: seq<Op>): (r: seq<Op>)
    ensures forall op :: op in r ==> op in ops
  {
    if ops == [] then []
    else
      var front, last := ops[..|ops| - 1], ops[|ops| - 1];
      assert ops == front + [last];
      Without(LastPerKey(front), last.key) + [last]
  }

  function Without(ops: seq<Op>, k: Bytes): (r: seq<Op>)
    ensures forall op :: op in r <==> op in ops && op.key != k
  {
    if ops == [] then []
    else
      var front, last := ops[..|ops| - 1], ops[|ops| - 1];
      assert ops == front + [last];
      Without(front, k) + (if last.key == k then [] else [last])
  }

  ghost predicate DistinctKeys(ops: seq<Op>) {
    forall i, j :: 0 <= i < j < |ops| ==> ops[i].key != ops[j].key
  }

  lemma {:induction false} LastOnAppend(ops: seq<Op>, op: Op, k: Bytes)
    ensures LastOn(ops + [op], k) == if op.key == k then Some(op) else LastOn(ops, k)
  {
    assert (ops + [op])[..|ops|] == ops;
  }

  lemma {:induction false} LastOnWithout(ops: seq<Op>, drop: Bytes, k: Bytes)
    requires k != drop
    ensures LastOn(Without(ops, drop), k) == LastOn(ops, k)
  {
    if ops != [] {
      var front, last := ops[..|ops| - 1], ops[|ops| - 1];
      LastOnWithout(front, drop, k);
      if last.key != drop { LastOnAppend(Without(front, drop), last, k); }
      else { assert Without(ops, drop) == Without(front, drop); }
    }
  }

  lemma {:induction false} LastOnLastPerKey(ops: seq<Op>, k: Bytes)
    ensures LastOn(LastPerKey(ops), k) == LastOn(ops, k)
  {
    if ops != [] {
      var front, last := ops[..|ops| - 1], ops[|ops| - 1];
      LastOnLastPerKey(front, k);
      LastOnAppend(Without(LastPerKey(front), last.key), last, k);
      if k != last.key { LastOnWithout(LastPerKey(front), last.key, k); }
    }
  }

  lemma {:induction false} WithoutDistinct(ops: seq<Op>, k: Bytes)
    requires DistinctKeys(ops)
    ensures DistinctKeys(Without(ops, k))
  {
    if ops != [] {
      var front, last := ops[..|ops| - 1], ops[|ops| - 1];
      WithoutDistinct(front, k);
      forall op | op in Without(front, k) ensures op.key != last.key {
        assert op in front;
      }
    }
  }

  lemma DistinctSnoc(ops: seq<Op>, op: Op)
    requires DistinctKeys(ops) && forall o :: o in ops ==> o.key != op.key
    ensures DistinctKeys(ops + [op])
  {
    forall i, j | 0 <= i < j < |ops| + 1 ensures (ops + [op])[i].key != (ops + [op])[j].key {
      if j == |ops| { assert ops[i] in ops; }
    }
  }

  lemma {:induction false} LastPerKeyDistinct(ops: seq<Op>)
    ensures DistinctKeys(LastPerKey(ops))
  {
    if ops != [] {
      var front, last := ops[..|ops| - 1], ops[|ops| - 1];
      LastPerKeyDistinct(front);
      WithoutDistinct(LastPerKey(front), last.key);
      DistinctSnoc(Without(LastPerKey(front), last.key), last);
    }
  }

  /** Writing a batch equals applying only the last operation on each of its keys. */
  lemma LastOperationWins(m: Contents, ops: seq<Op>)
    ensures ApplyAll(m, LastPerKey(ops)) == ApplyAll(m, ops)
    ensures DistinctKeys(LastPerKey(ops))
  {
    forall k ensures Lookup(ApplyAll(m, LastPerKey(ops)), k) == Lookup(ApplyAll(m, ops), k) {
      ApplyAllAt(m, ops, k);
      ApplyAllAt(m, LastPerKey(ops), k);
      LastOnLastPerKey(ops, k);
    }
    SameLookups(ApplyAll(m, LastPerKey(ops)), ApplyAll(m, ops));
    LastPerKeyDistinct(ops);
  }

  // ---------------------------------------------------------------- replay

  /** The key-wise condition under which a replayed log does not undo what ran in between. */
  ghost predicate Agree(ops: seq<Op>, between: seq<Op>) {
    forall k :: LastOn(ops, k).Some? && LastOn(between, k).Some?
                ==> Outcome(LastOn(ops, k).value) == Outcome(LastOn(between, k).value)
  }

  /**
   Replaying a log after other operations changes nothing, on every initial store, if
   and only if the two logs leave the same outcome on every key both of them name.
   */
  lemma ReplayExact(m: Contents, ops: seq<Op>, between: seq<Op>)
    ensures ApplyAll(ApplyAll(ApplyAll(m, ops), between), ops) == ApplyAll(ApplyAll(m, ops), between)
            <==> Agree(ops, between)
  {
    var once := ApplyAll(ApplyAll(m, ops), between);
    var twice := ApplyAll(once, ops);
    forall k ensures Lookup(twice, k) == Lookup(once, k) <==>
                     (LastOn(ops, k).Some? && LastOn(between, k).Some?
                      ==> Outcome(LastOn(ops, k).value) == Outcome(LastOn(between, k).value))
    {
      ApplyAllAt(m, ops, k);
      ApplyAllAt(ApplyAll(m, ops), between, k);
      ApplyAllAt(once, ops, k);
    }
    if Agree(ops, between) {
      SameLookups(twice, once);
    } else {
      var k :| !(LastOn(ops, k).Some? && LastOn(between, k).Some?
                 ==> Outcome(LastOn(ops, k).value) == Outcome(LastOn(between, k).value));
      assert Lookup(twice, k) != Lookup(once, k);
    }
  }

  /** A log applied twice in a row has the effect of applying it once. */
  lemma Idempotent(m: Contents, ops: seq<Op>)
    ensures ApplyAll(ApplyAll(m, ops), ops) == ApplyAll(m, ops)
  {
    ReplayExact(m, ops, []);
  }

  // ---------------------------------------------------------------- the B-tree

  /** `ReplaceOrInsert` on the sorted items of a B-tree. */
  function Insert(t: seq<Item>, k: Bytes, v: Bytes): seq<Item> {
    if t == [] || Less(t[|t| - 1].key, k) then t + [Item(k, v)]
    else if t[|t| - 1].key == k then t[..|t| - 1] + [Item(k, v)]
    else Insert(t[..|t| - 1], k, v) + [t[|t| - 1]]
  }

  /** `Delete` on the sorted items of a B-tree. */
  function Remove(t: seq<Item>, k: Bytes): seq<Item> {
    if t == [] then []
    else Remove(t[..|t| - 1], k) + (if t[|t| - 1].key == k then [] else [t[|t| - 1]])
  }

  function ApplyTree(t: seq<Item>, op: Op): seq<Item> {
    match op
    case Set(k, v) => Insert(t, k, v)
    case Delete(k) => Remove(t, k)
  }

  lemma ToMapAppend(t: seq<Item>, it: Item)
    ensures ToMap(t + [it]) == ToMap(t)[it.key := it.value]
  {
    assert (t + [it])[..|t|] == t;
  }

  lemma AllBelowAbsent(t: seq<Item>, k: Bytes)
    requires Sorted(t) && AllBelow(t, k)
    ensures k !in ToMap(t)
  {
    ToMapMembers(t, Item(k, []));
    Trichotomy(k, k);
  }

  lemma {:induction false} InsertBelow(t: seq<Item>, k: Bytes, v: Bytes, b: Bytes)
    requires AllBelow(t, b) && Less(k, b)
    ensures AllBelow(Insert(t, k, v), b)
  {
    if t != [] {
      InsertBelow(t[..|t| - 1], k, v, b);
    }
  }

  lemma {:induction false} RemoveBelow(t: seq<Item>, k: Bytes, b: Bytes)
    requires AllBelow(t, b)
    ensures AllBelow(Remove(t, k), b)
  {
    if t != [] {
      RemoveBelow(t[..|t| - 1], k, b);
    }
  }

  lemma Overwrite(m: Contents, k: Bytes, before: Bytes, v: Bytes)
    ensures m[k := before][k := v] == m[k := v]
  {
  }

  lemma UpdatesCommute(m: Contents, k: Bytes, v: Bytes, k': Bytes, v': Bytes)
    requires k != k'
    ensures m[k := v][k' := v'] == m[k' := v'][k := v]
    ensures m[k' := v'] - {k} == (m - {k})[k' := v']
  {
  }

  lemma AboveLast(t: seq<Item>, k: Bytes)
    requires Sorted(t) && t != [] && Less(t[|t| - 1].key, k)
    ensures AllBelow(t, k)
  {
    forall i | 0 <= i < |t| ensures Less(t[i].key, k) {
      if i < |t| - 1 { LessTransitive(t[i].key, t[|t| - 1].key, k); }
    }
  }

  lemma {:induction false} InsertCorrect(t: seq<Item>, k: Bytes, v: Bytes)
    requires Sorted(t)
    ensures Sorted(Insert(t, k, v)) && ToMap(Insert(t, k, v)) == ToMap(t)[k := v]
  {
    if t == [] {
      ToMapAppend(t, Item(k, v));
    } else {
      var front, last := t[..|t| - 1], t[|t| - 1];
      AllBelowFront(t);
      if Less(last.key, k) {
        AboveLast(t, k);
        SortedAppend(t, Item(k, v));
        ToMapAppend(t, Item(k, v));
      } else if last.key == k {
        SortedAppend(front, Item(k, v));
        ToMapAppend(front, Item(k, v));
        Overwrite(ToMap(front), k, last.value, v);
      } else {
        Trichotomy(last.key, k);
        InsertCorrect(front, k, v);
        InsertBelow(front, k, v, last.key);
        SortedAppend(Insert(front, k, v), last);
        ToMapAppend(Insert(front, k, v), last);
        UpdatesCommute(ToMap(front), k, v, last.key, last.value);
      }
    }
  }

  lemma {:induction false} RemoveCorrect(t: seq<Item>, k: Bytes)
    requires Sorted(t)
    ensures Sorted(Remove(t, k)) && ToMap(Remove(t, k)) == ToMap(t) - {k}
  {
    if t != [] {
      var front, last := t[..|t| - 1], t[|t| - 1];
      AllBelowFront(t);
      RemoveCorrect(front, k);
      if last.key == k {
        AllBelowAbsent(front, k);
        assert Remove(t, k) == Remove(front, k) + [] == Remove(front, k);
      } else {
        RemoveBelow(front, k, last.key);
        SortedAppend(Remove(front, k), last);
        ToMapAppend(Remove(front, k), last);
        UpdatesCommute(ToMap(front), k, [], last.key, last.value);
      }
    }
  }

  /** A B-tree operation keeps the order and acts on the map like the operation it stores. */
  lemma ApplyTreeCorrect(t: seq<Item>, op: Op)
    requires Sorted(t)
    ensures Sorted(ApplyTree(t, op)) && ToMap(ApplyTree(t, op)) == Apply(ToMap(t), op)
  {
    match op
    case Set(k, v) => InsertCorrect(t, k, v);
    case Delete(k) => RemoveCorrect(t, k);
  }
}
