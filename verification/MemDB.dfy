/**
 MemDB and its batches (memdb.go, memdb_batch.go): validation, point operations, the
 operation log and its application. Keys are checked by their length only, so a nil key is
 the empty key here; a value that may be nil is an `Option`.
 */
module MemDB {
  import opened ByteStrings
  import opened Store
  import opened OpLog
  import opened Iterators
  import opened Traversal

  class MemDB {
    var btree: seq<Item>

    /** The tree is ordered and holds no empty key. */
    ghost predicate Valid()
      reads this
    {
      Sorted(btree) && [] !in ToMap(btree)
    }

    ghost function Contents(): Contents
      reads this
    {
      ToMap(btree)
    }

    constructor ()
      ensures Valid() && Contents() == map[]
    {
      btree := [];
    }

    method Get(key: Bytes) returns (r: Result<Option<Bytes>>)
      requires Valid()
      ensures r == if key == [] then Err(KeyEmpty) else Ok(Lookup(Contents(), key))
    {
      if |key| == 0 { return Err(KeyEmpty); }
      var i := 0;
      while i < |btree|
        invariant 0 <= i <= |btree|
        invariant forall j :: 0 <= j < i ==> btree[j].key != key
      {
        if btree[i].key == key {
          ToMapMembers(btree, btree[i]);
          return Ok(Some(btree[i].value));
        }
        i := i + 1;
      }
      ToMapMembers(btree, Item(key, []));
      return Ok(None);
    }

    method Has(key: Bytes) returns (r: Result<bool>)
      requires Valid()
      ensures r == if key == [] then Err(KeyEmpty) else Ok(key in Contents())
    {
      var v := Get(key);
      return match v case Err(e) => Err(e) case Ok(found) => Ok(found.Some?);
    }

    /** `set`: without locking or checks. */
    method Put(key: Bytes, value: Bytes)
      requires Valid() && key != []
      modifies this
      ensures Valid() && Contents() == old(Contents())[key := value]
    {
      InsertCorrect(btree, key, value);
      btree := Insert(btree, key, value);
    }

    /** `delete`: without locking or checks. */
    method Drop(key: Bytes)
      requires Valid()
      modifies this
      ensures Valid() && Contents() == old(Contents()) - {key}
    {
      RemoveCorrect(btree, key);
      btree := Remove(btree, key);
    }

    method Set(key: Bytes, value: Option<Bytes>) returns (r: Result<()>)
      requires Valid()
      modifies this
      ensures Valid()
      ensures r == if key == [] then Err(KeyEmpty) else if value.None? then Err(ValueNil) else Ok(())
      ensures Contents() == if r.Ok? then old(Contents())[key := value.value] else old(Contents())
    {
      if |key| == 0 { return Err(KeyEmpty); }
      if value.None? { return Err(ValueNil); }
      Put(key, value.value);
      return Ok(());
    }

    method Delete(key: Bytes) returns (r: Result<()>)
      requires Valid()
      modifies this
      ensures Valid()
      ensures r == if key == [] then Err(KeyEmpty) else Ok(())
      ensures Contents() == if r.Ok? then old(Contents()) - {key} else old(Contents())
    {
      if |key| == 0 { return Err(KeyEmpty); }
      Drop(key);
      return Ok(());
    }

    /** `Iterator` and `ReverseIterator` on a store that nobody writes meanwhile. */
    method NewIterator(start: Option<Bytes>, end: Option<Bytes>, reverse: bool) returns (r: Result<SourceIterator>)
      requires Valid()
      ensures r.Err? <==> !ValidEndpoints(start, end)
      ensures r.Err? ==> r.error == KeyEmpty
      ensures r.Ok? ==> fresh(r.value) && r.value.Ok() && r.value.pos == 0
                        && Enumerates(r.value.Remaining(), Contents(), start, end, reverse)
      ensures r.Ok? ==> forall it :: it in r.value.Remaining() ==> it.key != []
    {
      if (start.Some? && |start.value| == 0) || (end.Some? && |end.value| == 0) {
        return Err(KeyEmpty);
      }
      var items := Traverse(btree, start, end, reverse);
      var itr := new SourceIterator(items);
      assert itr.items[0..] == items;
      return Ok(itr);
    }
  }

  // ---------------------------------------------------------------- batches

  const OP_SET := 1
  const OP_DELETE := 2

  datatype Operation = Operation(opType: int, key: Bytes, value: Option<Bytes>)

  /** What the batch's own methods put in the log. */
  predicate WellFormed(op: Operation) {
    op.key != [] && ((op.opType == OP_SET && op.value.Some?) || op.opType == OP_DELETE)
  }

  predicate AllWellFormed(ops: seq<Operation>) {
    forall i :: 0 <= i < |ops| ==> WellFormed(ops[i])
  }

  function Meaning(op: Operation): Op
    requires WellFormed(op)
  {
    if op.opType == OP_SET then OpLog.Set(op.key, op.value.value) else OpLog.Delete(op.key)
  }

  function Meanings(ops: seq<Operation>): seq<Op>
    requires AllWellFormed(ops)
  {
    seq(|ops|, i requires 0 <= i < |ops| => Meaning(ops[i]))
  }

  class MemDBBatch {
    const db: MemDB
    var ops: Option<seq<Operation>>     // None is the nil slice of a written or closed batch

    /** Only operations that `Write` knows are ever logged. */
    ghost predicate Valid()
      reads this
    {
      ops.Some? ==> AllWellFormed(ops.value)
    }

    ghost function Log(): seq<Op>
      reads this
      requires Valid() && ops.Some?
    {
      Meanings(ops.value)
    }

    constructor (db: MemDB)
      ensures Valid() && this.db == db && ops == Some([])
    {
      this.db := db;
      ops := Some([]);
    }

    method Set(key: Bytes, value: Option<Bytes>) returns (r: Result<()>)
      requires Valid()
      modifies this
      ensures Valid()
      ensures r == if key == [] then Err(KeyEmpty) else if value.None? then Err(ValueNil)
                   else if old(ops).None? then Err(BatchClosed) else Ok(())
      ensures r.Err? ==> ops == old(ops)
      ensures r.Ok? ==> ops.Some? && Log() == old(Log()) + [OpLog.Set(key, value.value)]
    {
      if |key| == 0 { return Err(KeyEmpty); }
      if value.None? { return Err(ValueNil); }
      if ops.None? { return Err(BatchClosed); }
      ops := Some(ops.value + [Operation(OP_SET, key, value)]);
      return Ok(());
    }

    method Delete(key: Bytes) returns (r: Result<()>)
      requires Valid()
      modifies this
      ensures Valid()
      ensures r == if key == [] then Err(KeyEmpty) else if old(ops).None? then Err(BatchClosed) else Ok(())
      ensures r.Err? ==> ops == old(ops)
      ensures r.Ok? ==> ops.Some? && Log() == old(Log()) + [OpLog.Delete(key)]
    {
      if |key| == 0 { return Err(KeyEmpty); }
      if ops.None? { return Err(BatchClosed); }
      ops := Some(ops.value + [Operation(OP_DELETE, key, None)]);
      return Ok(());
    }

    /**
     `Write`: the in-order fold of the log, once; a written or closed batch only errors. The
     error for an unknown operation type is never returned.
     */
    method Write() returns (r: Result<()>)
      requires Valid() && db.Valid()
      modifies this, db
      ensures Valid() && db.Valid() && ops.None?
      ensures r == if old(ops).Some? then Ok(()) else Err(BatchClosed)
      ensures db.Contents() == if old(ops).Some? then ApplyAll(old(db.Contents()), old(Log())) else old(db.Contents())
    {
      if ops.None? { return Err(BatchClosed); }
      var i := 0;
      ghost var log := Log();
      while i < |ops.value|
        invariant ops == old(ops) && 0 <= i <= |ops.value|
        invariant db.Valid() && db.Contents() == ApplyAll(old(db.Contents()), log[..i])
      {
        var op := ops.value[i];
        assert WellFormed(op);
        assert log[..i + 1][..i] == log[..i] && log[..i + 1][i] == Meaning(op);
        if op.opType == OP_SET {
          db.Put(op.key, op.value.value);
        } else if op.opType == OP_DELETE {
          db.Drop(op.key);
        } else {
          return Err(UnknownOperation);
        }
        i := i + 1;
      }
      assert log[..|log|] == log;
      r := Close();
    }

    method Close() returns (r: Result<()>)
      modifies this
      ensures ops.None? && r == Ok(())
    {
      ops := None;
      return Ok(());
    }
  }
}
