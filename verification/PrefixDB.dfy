/**
 The PrefixDB objects (prefixdb.go, prefixdb_iterator.go, prefixdb_batch.go) over a MemDB
 source: point operations, the iterator with its recursive `Next`, and batches.
 */
module PrefixDB {
  import opened ByteStrings
  import opened KeyDomain
  import opened Store
  import opened OpLog
  import opened Iterators
  import opened PrefixView
  import opened PrefixIteration
  import M = MemDB

  // ---------------------------------------------------------------- the iterator

  /** No key occurs twice, as in every strictly monotonic source. */
  ghost predicate NoRepeatedKey(s: seq<Item>) {
    forall i, j :: 0 <= i < j < |s| ==> s[i].key != s[j].key
  }

  lemma MonotoneDistinct(s: seq<Item>, reverse: bool)
    requires Monotone(s, reverse)
    ensures NoRepeatedKey(s)
  {
    forall i, j | 0 <= i < j < |s| ensures s[i].key != s[j].key {
      BeforeAsymmetric(s[i].key, s[j].key, reverse);
    }
  }

  class PrefixIterator {
    const prefix: Bytes
    const start: Option<Bytes>
    const end: Option<Bytes>
    const source: SourceIterator
    var valid: bool
    var err: bool                      // "received invalid key from backend"

    /** The error is never set, and a valid iterator's source stands on a key with the prefix. */
    ghost predicate Standing()
      reads this, source
    {
      && source.Ok()
      && NoRepeatedKey(source.items)
      && !err
      && (valid ==> source.Valid() && HasPrefix(source.Key(), prefix))
    }

    /** Between calls, moreover, that key strictly extends the prefix. */
    ghost predicate Ok()
      reads this, source
    {
      Standing() && (valid ==> source.Key() != prefix)
    }

    /** What the iterator has still to yield, the current item first. */
    ghost function Remaining(): seq<Item>
      reads this, source
      requires Ok()
    {
      if valid then YieldFrom(prefix, source.Remaining()) else []
    }

    /** `newPrefixIterator`: skip a bare prefix key, and give up on a key without the prefix. */
    constructor (prefix: Bytes, start: Option<Bytes>, end: Option<Bytes>, source: SourceIterator)
      requires source.Ok() && NoRepeatedKey(source.items)
      modifies source
      ensures Ok() && this.source == source && this.prefix == prefix && this.start == start && this.end == end
      ensures Remaining() == YieldFrom(prefix, old(source.Remaining()))
    {
      this.prefix, this.start, this.end, this.source := prefix, start, end, source;
      valid, err := false, false;
      new;
      ghost var before := source.Remaining();
      if source.Valid() && source.Key() == prefix {
        source.Next();
        assert source.Remaining() == before[1..];
        assert before[0].key == prefix && prefix[..|prefix|] == prefix;
        assert YieldFrom(prefix, before) == [] + YieldFrom(prefix, before[1..]);
        assert source.Valid() ==> source.items[source.pos].key != source.items[source.pos - 1].key;
      }
      valid := source.Valid() && HasPrefix(source.Key(), prefix);
    }

    /** `Valid`: true exactly while something is left; the backend error never arises. */
    method Valid() returns (b: bool)
      requires Standing()
      modifies this`err
      ensures Standing() && (b <==> valid)
      ensures old(Ok()) ==> Ok() && Remaining() == old(Remaining()) && (b <==> Remaining() != [])
    {
      if !valid || err || !source.Valid() {
        return false;
      }
      var key := source.Key();
      assert source.Remaining()[0].key == key;
      err := |key| < |prefix| || key[..|prefix|] != prefix;
      return !err;
    }

    /**
     `Next`: drops the current item; on an invalid iterator it panics. It calls itself to skip a
     bare prefix key, which happens at most one level deep: the source moves at most two items,
     and only one when it starts on the bare prefix.
     */
    method Next() returns (panicked: bool)
      requires Standing()
      modifies this`valid, this`err, source
      ensures panicked <==> !old(valid)
      ensures panicked ==> Standing() && unchanged(this) && unchanged(source)
      ensures !panicked ==> Ok() && Remaining() == YieldFrom(prefix, source.items[old(source.pos) + 1..])
      ensures !panicked && old(Ok()) ==> Remaining() == old(Remaining())[1..]
      ensures !panicked ==> old(source.pos) < source.pos <= old(source.pos) + 2
      ensures !panicked && old(source.Key()) == prefix ==> source.pos == old(source.pos) + 1
      decreases |source.items| - source.pos
    {
      var ok := Valid();
      if !ok { return true; }
      ghost var before := source.Remaining();
      source.Next();
      ghost var rest := source.Remaining();
      assert rest == before[1..];
      assert before[0].key != prefix ==> YieldFrom(prefix, before)[1..] == YieldFrom(prefix, rest);
      if !source.Valid() || !HasPrefix(source.Key(), prefix) {
        valid := false;
      } else if source.Key() == prefix {
        assert YieldFrom(prefix, rest) == [] + YieldFrom(prefix, rest[1..]);
        assert source.items[source.pos].key != source.items[source.pos - 1].key;
        panicked := Next();
      }
      panicked := false;
    }

    /** `Key` and `Value` of the current item, the key without its prefix and never empty. */
    method Current() returns (it: Option<Item>)
      requires Ok()
      modifies this`err
      ensures Ok() && Remaining() == old(Remaining())
      ensures it.Some? <==> Remaining() != []
      ensures it.Some? ==> it.value == Remaining()[0] && it.value.key != []
    {
      var ok := Valid();
      if !ok { return None; }
      PrefixSuffix(source.Key(), prefix);
      return Some(Item(source.Key()[|prefix|..], source.Value()));
    }
  }

  /** The caller's loop: `for ; itr.Valid(); itr.Next()`. */
  method Drain(itr: PrefixIterator) returns (out: seq<Item>)
    requires itr.Ok()
    modifies itr`valid, itr`err, itr.source
    ensures itr.Ok() && itr.Remaining() == [] && out == old(itr.Remaining())
  {
    out := [];
    var ok := itr.Valid();
    while ok
      invariant itr.Ok() && (ok <==> itr.Remaining() != [])
      invariant out + itr.Remaining() == old(itr.Remaining())
      decreases |itr.Remaining()|
    {
      var it := itr.Current();
      out := out + [it.value];
      var panicked := itr.Next();
      ok := itr.Valid();
    }
  }

  // ---------------------------------------------------------------- the database

  class PrefixDB {
    const prefix: Bytes
    const db: M.MemDB

    constructor (db: M.MemDB, prefix: Bytes)
      ensures this.db == db && this.prefix == prefix
    {
      this.db, this.prefix := db, prefix;
    }

    ghost function Contents(): Contents
      reads db
    {
      View(db.Contents(), prefix)
    }

    method Get(key: Bytes) returns (r: Result<Option<Bytes>>)
      requires db.Valid()
      ensures r == if key == [] then Err(KeyEmpty) else Ok(Lookup(Contents(), key))
    {
      if |key| == 0 { return Err(KeyEmpty); }
      ViewAt(db.Contents(), prefix, key);
      r := db.Get(prefix + key);
    }

    method Set(key: Bytes, value: Option<Bytes>) returns (r: Result<()>)
      requires db.Valid()
      modifies db
      ensures db.Valid()
      ensures r == if key == [] then Err(KeyEmpty) else if value.None? then Err(ValueNil) else Ok(())
      ensures Contents() == if r.Ok? then old(Contents())[key := value.value] else old(Contents())
      ensures forall full :: !InNamespace(full, prefix)
                             ==> Lookup(db.Contents(), full) == old(Lookup(db.Contents(), full))
    {
      if |key| == 0 { return Err(KeyEmpty); }
      if value.None? { return Err(ValueNil); }
      ViewOfApply(db.Contents(), prefix, OpLog.Set(key, value.value));
      PrefixSuffix(prefix + key, prefix);
      r := db.Set(prefix + key, value);
    }

    method Delete(key: Bytes) returns (r: Result<()>)
      requires db.Valid()
      modifies db
      ensures db.Valid()
      ensures r == if key == [] then Err(KeyEmpty) else Ok(())
      ensures Contents() == if r.Ok? then old(Contents()) - {key} else old(Contents())
      ensures forall full :: !InNamespace(full, prefix)
                             ==> Lookup(db.Contents(), full) == old(Lookup(db.Contents(), full))
    {
      if |key| == 0 { return Err(KeyEmpty); }
      ViewOfApply(db.Contents(), prefix, OpLog.Delete(key));
      PrefixSuffix(prefix + key, prefix);
      r := db.Delete(prefix + key);
    }

    /**
     `Iterator` and `ReverseIterator`. What the iterator will yield is the range of the view,
     except for a reverse iterator with a nil end over a source that stores a stray key: that
     one yields nothing. With a nil end the prefix must not be empty, as `cpIncr` demands; an empty
     prefix with a nil start is refused by the source, which is given an empty start.
     */
    method NewIterator(start: Option<Bytes>, end: Option<Bytes>, reverse: bool) returns (r: Result<PrefixIterator>)
      requires db.Valid() && (prefix != [] || end.Some?)
      ensures r.Err? <==> !ValidEndpoints(start, end) || (prefix == [] && start.None?)
      ensures r.Err? ==> r.error == KeyEmpty
      ensures r.Ok? ==> fresh(r.value) && fresh(r.value.source) && r.value.Ok()
      ensures r.Ok? && (!reverse || end.Some? || !StrayStored(db.Contents(), prefix)) ==>
                Enumerates(r.value.Remaining(), Contents(), start, end, reverse)
      ensures r.Ok? && reverse && end.None? && StrayStored(db.Contents(), prefix) ==> r.value.Remaining() == []
    {
      if (start.Some? && |start.value| == 0) || (end.Some? && |end.value| == 0) {
        return Err(KeyEmpty);
      }
      var pstart := prefix + (if start.Some? then start.value else []);
      var pend: Option<Bytes>;
      if end.None? {
        pend := CpIncr(prefix);
      } else {
        pend := Some(prefix + end.value);
      }
      assert |pstart| == |prefix| + (if start.Some? then |start.value| else 0);
      assert pend != Some([]) by { assert end.Some? ==> |prefix + end.value| > 0; }
      var inner := db.NewIterator(Some(pstart), pend, reverse);
      if inner.Err? {
        return Err(inner.error);
      }
      var source := inner.value;
      ghost var src := source.Remaining();
      SourceDistinct(source, reverse);
      Refinement(db.Contents(), prefix, start, end, reverse, src);
      var itr := new PrefixIterator(prefix, start, end, source);
      return Ok(itr);
    }

    method NewBatch() returns (b: PrefixBatch)
      ensures fresh(b) && fresh(b.source) && b.prefix == prefix && b.source.db == db
      ensures b.Valid() && b.given == [] && b.source.ops == Some([])
    {
      var source := new M.MemDBBatch(db);
      b := new PrefixBatch(prefix, source);
    }
  }

  lemma SourceDistinct(source: SourceIterator, reverse: bool)
    requires source.pos == 0 && Monotone(source.items[0..], reverse)
    ensures NoRepeatedKey(source.items)
  {
    assert source.items[0..] == source.items;
    MonotoneDistinct(source.items, reverse);
  }

  lemma Refinement(m: Contents, p: Bytes, start: Option<Bytes>, end: Option<Bytes>, reverse: bool, src: seq<Item>)
    requires (p != [] || end.Some?) && Enumerates(src, m, SourceStart(p, start), SourceEnd(p, end), reverse)
    ensures !reverse || end.Some? || !StrayStored(m, p) ==> Enumerates(YieldFrom(p, src), View(m, p), start, end, reverse)
    ensures reverse && end.None? && StrayStored(m, p) ==> YieldFrom(p, src) == []
  {
    if !reverse {
      ForwardRefinement(m, p, start, end, src);
    } else if end.Some? {
      ReverseRefinementBounded(m, p, start, end, src);
    } else {
      ReverseRefinementExact(m, p, start, src);
    }
  }

  /** `IteratePrefix`: lists the keys with the prefix, and only those exactly when no stray is stored. */
  method IteratePrefix(db: M.MemDB, prefix: Bytes) returns (itr: SourceIterator)
    requires db.Valid()
    ensures fresh(itr) && itr.Ok()
    ensures ListsPrefix(itr.Remaining(), db.Contents(), prefix) <==> !StrayStored(db.Contents(), prefix)
    ensures StrayFree(prefix) ==> ListsPrefix(itr.Remaining(), db.Contents(), prefix)
    ensures forall it: Item :: InRange(it, db.Contents(), None, None) && HasPrefix(it.key, prefix) ==> it in itr.Remaining()
  {
    var start, end: Option<Bytes> := None, None;
    if |prefix| != 0 {
      start := Some(prefix);
      end := CpIncr(prefix);
    }
    var r := db.NewIterator(start, end, false);
    itr := r.value;
    IteratePrefixExact(itr.Remaining(), db.Contents(), prefix);
    StrayFreeExact(prefix);
    forall it: Item | InRange(it, db.Contents(), None, None) && HasPrefix(it.key, prefix)
      ensures it in itr.Remaining()
    {
      if prefix == [] { Trichotomy(it.key, []); } else { RangeOfIncrement(it.key, prefix); }
      assert InRange(it, db.Contents(), start, end);
    }
  }

  // ---------------------------------------------------------------- batches

  class PrefixBatch {
    const prefix: Bytes
    const source: M.MemDBBatch
    ghost var given: seq<Op>           // the operations as they were given to this batch

    /** The source's log is the given one with every key prefixed. */
    ghost predicate Valid()
      reads this, source
    {
      source.Valid() && ValidLog(given) && (source.ops.Some? ==> source.Log() == Lift(prefix, given))
    }

    constructor (prefix: Bytes, source: M.MemDBBatch)
      requires source.Valid() && source.ops == Some([])
      ensures Valid() && this.prefix == prefix && this.source == source && given == []
    {
      this.prefix, this.source, given := prefix, source, [];
    }

    method Set(key: Bytes, value: Option<Bytes>) returns (r: Result<()>)
      requires Valid()
      modifies this`given, source
      ensures Valid()
      ensures r == if key == [] then Err(KeyEmpty) else if value.None? then Err(ValueNil)
                   else if old(source.ops).None? then Err(BatchClosed) else Ok(())
      ensures r.Err? ==> source.ops == old(source.ops) && given == old(given)
      ensures r.Ok? ==> source.ops.Some? && given == old(given) + [OpLog.Set(key, value.value)]
    {
      if |key| == 0 { return Err(KeyEmpty); }
      if value.None? { return Err(ValueNil); }
      r := source.Set(prefix + key, value);
      if r.Ok? {
        given := given + [OpLog.Set(key, value.value)];
      }
    }

    method Delete(key: Bytes) returns (r: Result<()>)
      requires Valid()
      modifies this`given, source
      ensures Valid()
      ensures r == if key == [] then Err(KeyEmpty) else if old(source.ops).None? then Err(BatchClosed) else Ok(())
      ensures r.Err? ==> source.ops == old(source.ops) && given == old(given)
      ensures r.Ok? ==> source.ops.Some? && given == old(given) + [OpLog.Delete(key)]
    {
      if |key| == 0 { return Err(KeyEmpty); }
      r := source.Delete(prefix + key);
      if r.Ok? {
        given := given + [OpLog.Delete(key)];
      }
    }

    /**
     `Write`: the view becomes the in-order fold of the given operations, and nothing outside the
     namespace changes; a written or closed batch only errors.
     */
    method Write() returns (r: Result<()>)
      requires Valid() && source.db.Valid()
      modifies source, source.db
      ensures Valid() && source.db.Valid() && source.ops.None?
      ensures r == if old(source.ops).Some? then Ok(()) else Err(BatchClosed)
      ensures View(source.db.Contents(), prefix)
           == if r.Ok? then ApplyAll(old(View(source.db.Contents(), prefix)), given)
              else old(View(source.db.Contents(), prefix))
      ensures forall full :: !InNamespace(full, prefix)
                             ==> Lookup(source.db.Contents(), full) == old(Lookup(source.db.Contents(), full))
    {
      ghost var m := source.db.Contents();
      if source.ops.Some? {
        ViewOfApplyAll(m, prefix, given);
        forall full | !InNamespace(full, prefix)
          ensures Lookup(ApplyAll(m, Lift(prefix, given)), full) == Lookup(m, full)
        {
          OutsideUntouched(m, prefix, given, full);
        }
      }
      r := source.Write();
    }
  }
}
