/**
 Batches over the remote protocol (remotedb/batch.go, remotedb/grpcdb/server.go): the client
 keeps an unvalidated log, the server replays it into a batch of its MemDB, and the reply may
 be lost. On the wire an empty byte field is absent and arrives as nil.
 */
module RemoteBatch {
  import opened ByteStrings
  import opened Store
  import opened OpLog
  import opened Iterators
  import M = MemDB

  // protodb.Operation_Type
  const SET := 0
  const DELETE := 1

  /** A protobuf `Operation`; nil and empty keys are the same to every check on them. */
  datatype Request = Request(kind: int, key: Bytes, value: Option<Bytes>)

  /** A byte field after the wire. */
  function Wire(b: Option<Bytes>): Option<Bytes> {
    if b == Some([]) then None else b
  }

  function OnWire(op: Request): Request {
    op.(value := Wire(op.value))
  }

  function AllOnWire(ops: seq<Request>): seq<Request> {
    seq(|ops|, i requires 0 <= i < |ops| => OnWire(ops[i]))
  }

  /** What the backend's batch makes of one operation: it is rejected, logged, or of no known type. */
  function Verdict(op: Request): Result<seq<Op>> {
    if op.kind == SET then
      if op.key == [] then Err(KeyEmpty)
      else if op.value.None? then Err(ValueNil)
      else Ok([Set(op.key, op.value.value)])
    else if op.kind == DELETE then
      if op.key == [] then Err(KeyEmpty) else Ok([Delete(op.key)])
    else Ok([])
  }

  /** The whole request: the first rejection, or the log to write. */
  function Replay(ops: seq<Request>): Result<seq<Op>> {
    if ops == [] then Ok([])
    else
      var before := Replay(ops[..|ops| - 1]);
      if before.Err? then before
      else
        var v := Verdict(ops[|ops| - 1]);
        if v.Err? then v else Ok(before.value + v.value)
  }

  lemma {:induction false} ReplayPrefix(ops: seq<Request>, n: nat)
    requires n <= |ops| && Replay(ops[..n]).Err?
    ensures Replay(ops) == Replay(ops[..n])
  {
    if n < |ops| {
      assert ops[..|ops| - 1][..n] == ops[..n];
      ReplayPrefix(ops[..|ops| - 1], n);
    } else {
      assert ops[..n] == ops;
    }
  }

  // ---------------------------------------------------------------- what a request amounts to

  /** An operation no backend takes: a set or a delete without a key, or a set without a value. */
  predicate Faulty(op: Request) {
    || (op.kind == SET && (op.key == [] || op.value.None?))
    || (op.kind == DELETE && op.key == [])
  }

  /** The error for it: the key is checked first. */
  function Fault(op: Request): Error {
    if op.key == [] then KeyEmpty else ValueNil
  }

  /** The operations of a request in order; those of unknown type leave no trace. */
  function Logged(ops: seq<Request>): seq<Op> {
    if ops == [] then []
    else if ops[0].kind == SET && ops[0].value.Some? then [Set(ops[0].key, ops[0].value.value)] + Logged(ops[1..])
    else if ops[0].kind == DELETE then [Delete(ops[0].key)] + Logged(ops[1..])
    else Logged(ops[1..])
  }

  predicate FirstFault(ops: seq<Request>, i: int) {
    0 <= i < |ops| && Faulty(ops[i]) && forall j :: 0 <= j < i ==> !Faulty(ops[j])
  }

  lemma {:induction false} LoggedSnoc(ops: seq<Request>, op: Request)
    ensures Logged(ops + [op]) == Logged(ops) + Logged([op])
  {
    if ops == [] {
      assert ops + [op] == [op];
    } else {
      assert (ops + [op])[1..] == ops[1..] + [op];
      LoggedSnoc(ops[1..], op);
    }
  }

  lemma LoggedOne(op: Request)
    requires !Faulty(op)
    ensures Verdict(op) == Ok(Logged([op]))
  {
    assert [op][1..] == [];
    var log := Verdict(op).value;
    assert log + [] == log;
  }

  /** A request without a faulty operation is replayed whole. */
  lemma {:induction false} ReplayAccepts(ops: seq<Request>)
    requires forall i :: 0 <= i < |ops| ==> !Faulty(ops[i])
    ensures Replay(ops) == Ok(Logged(ops))
  {
    if ops != [] {
      var front, last := ops[..|ops| - 1], ops[|ops| - 1];
      ReplayAccepts(front);
      assert ops == front + [last];
      LoggedSnoc(front, last);
      LoggedOne(last);
    }
  }

  /** A request with a faulty operation is rejected with the error of the first one. */
  lemma ReplayRejects(ops: seq<Request>, i: int)
    requires FirstFault(ops, i)
    ensures Replay(ops) == Err(Fault(ops[i]))
  {
    var upto := ops[..i + 1];
    ReplayAccepts(ops[..i]);
    assert upto[..|upto| - 1] == ops[..i];
    ReplayPrefix(ops, i + 1);
  }

  /** Some faulty operation comes first. */
  lemma {:induction false} FirstFaultExists(ops: seq<Request>, i: int)
    requires 0 <= i < |ops| && Faulty(ops[i])
    ensures exists k :: FirstFault(ops, k)
    decreases i
  {
    if j :| 0 <= j < i && Faulty(ops[j]) {
      FirstFaultExists(ops, j);
    } else {
      assert FirstFault(ops, i);
    }
  }

  /** The request is rejected exactly when some operation in it is faulty, by the first such one. */
  lemma ReplayOutcome(ops: seq<Request>)
    ensures Replay(ops).Err? <==> exists i :: 0 <= i < |ops| && Faulty(ops[i])
    ensures forall i :: FirstFault(ops, i) ==> Replay(ops) == Err(Fault(ops[i]))
    ensures Replay(ops).Ok? ==> Replay(ops).value == Logged(ops)
  {
    forall i | FirstFault(ops, i)
      ensures Replay(ops) == Err(Fault(ops[i]))
    {
      ReplayRejects(ops, i);
    }
    if i :| 0 <= i < |ops| && Faulty(ops[i]) {
      FirstFaultExists(ops, i);
    } else {
      ReplayAccepts(ops);
    }
  }

  // ---------------------------------------------------------------- the server

  /** The loop of `batchWrite`: the operations go into a new batch until one is rejected. */
  method AddAll(bat: M.MemDBBatch, ops: seq<Request>) returns (r: Result<()>)
    requires bat.Valid() && bat.ops == Some([])
    modifies bat
    ensures bat.Valid()
    ensures Replay(ops).Err? ==> r == Err(Replay(ops).error)
    ensures Replay(ops).Ok? ==> r == Ok(()) && bat.ops.Some? && bat.Log() == Replay(ops).value
  {
    assert bat.Log() == [];
    var i := 0;
    while i < |ops|
      invariant 0 <= i <= |ops| && bat.Valid() && bat.ops.Some?
      invariant Replay(ops[..i]) == Ok(bat.Log())
    {
      assert ops[..i + 1][..i] == ops[..i];
      assert bat.Log() + [] == bat.Log();
      if ops[i].kind == SET {
        r := bat.Set(ops[i].key, ops[i].value);
      } else if ops[i].kind == DELETE {
        r := bat.Delete(ops[i].key);
      } else {
        r := Ok(());
      }
      if r.Err? {
        ReplayPrefix(ops, i + 1);
        return;
      }
      i := i + 1;
    }
    assert ops[..|ops|] == ops;
    return Ok(());
  }

  /**
   `batchWrite` over a MemDB: if any operation is faulty the first one's error is returned and the
   store is unchanged, otherwise it becomes the in-order fold of all the operations.
   */
  method BatchWrite(db: M.MemDB, ops: seq<Request>) returns (r: Result<()>)
    requires db.Valid()
    modifies db
    ensures db.Valid()
    ensures r == match Replay(ops) case Err(e) => Err(e) case Ok(_) => Ok(())
    ensures db.Contents() == match Replay(ops) case Err(_) => old(db.Contents())
                                               case Ok(log) => ApplyAll(old(db.Contents()), log)
    ensures r.Err? <==> exists i :: 0 <= i < |ops| && Faulty(ops[i])
    ensures forall i :: FirstFault(ops, i) ==> r == Err(Fault(ops[i]))
    ensures db.Contents() == if r.Err? then old(db.Contents()) else ApplyAll(old(db.Contents()), Logged(ops))
  {
    ReplayOutcome(ops);
    var bat := new M.MemDBBatch(db);
    r := AddAll(bat, ops);
    if r.Ok? {
      r := bat.Write();
    }
    var _ := bat.Close();
  }

  // ---------------------------------------------------------------- the client

  /** What the network does with one call. */
  datatype Fate = RequestLost | ReplyLost | Answered

  datatype Failure = Closed | Transport | Rejected(error: Error)

  class ClientBatch {
    var ops: Option<seq<Request>>

    constructor ()
      ensures ops == Some([])
    {
      ops := Some([]);
    }

    method Set(key: Bytes, value: Option<Bytes>) returns (err: Option<Failure>)
      modifies this
      ensures if old(ops).None? then err == Some(Closed) && ops.None?
              else err.None? && ops == Some(old(ops).value + [Request(SET, key, value)])
    {
      if ops.None? { return Some(Closed); }
      ops := Some(ops.value + [Request(SET, key, value)]);
      return None;
    }

    method Delete(key: Bytes) returns (err: Option<Failure>)
      modifies this
      ensures if old(ops).None? then err == Some(Closed) && ops.None?
              else err.None? && ops == Some(old(ops).value + [Request(DELETE, key, None)])
    {
      if ops.None? { return Some(Closed); }
      ops := Some(ops.value + [Request(DELETE, key, None)]);
      return None;
    }

    /** `Write` and `WriteSync`: on success the batch is closed, on any error it keeps its log. */
    method Write(db: M.MemDB, fate: Fate) returns (err: Option<Failure>)
      requires db.Valid()
      modifies this, db
      ensures db.Valid()
      ensures err.None? ==> ops.None?
      ensures err.Some? ==> ops == old(ops)
      ensures err == CallResult(old(ops), fate)
      ensures db.Contents() == After(old(db.Contents()), old(ops), fate)
    {
      if ops.None? { return Some(Closed); }
      match fate {
        case RequestLost =>
          return Some(Transport);
        case ReplyLost =>
          var _ := BatchWrite(db, AllOnWire(ops.value));
          return Some(Transport);
        case Answered =>
          var r := BatchWrite(db, AllOnWire(ops.value));
          if r.Err? { return Some(Rejected(r.error)); }
          ops := None;
          return None;
      }
    }
  }

  /** The client's result of one call. */
  function CallResult(ops: Option<seq<Request>>, fate: Fate): Option<Failure> {
    if ops.None? then Some(Closed)
    else if !fate.Answered? then Some(Transport)
    else match Replay(AllOnWire(ops.value)) case Err(e) => Some(Rejected(e)) case Ok(_) => None
  }

  /** The store after one call. */
  function After(m: Contents, ops: Option<seq<Request>>, fate: Fate): Contents {
    if ops.None? || fate.RequestLost? then m
    else match Replay(AllOnWire(ops.value)) case Err(_) => m case Ok(log) => ApplyAll(m, log)
  }

  /** Some attempt got as far as the server. */
  predicate Arrived(fates: seq<Fate>) {
    exists i :: 0 <= i < |fates| && !fates[i].RequestLost?
  }

  /** Some attempt's reply got back. */
  predicate Answers(fates: seq<Fate>) {
    exists i :: 0 <= i < |fates| && fates[i].Answered?
  }

  /**
   A batch is re-sent until it is acknowledged or the attempts run out, with no other writes in
   between. However many requests and replies are lost, the store ends up as after a single
   write if any attempt arrived, and untouched otherwise. The batch is acknowledged exactly when
   the server accepts it and some attempt is answered, and it is re-sent until then.
   */
  method WriteWithRetries(b: ClientBatch, db: M.MemDB, fates: seq<Fate>) returns (acked: bool, used: nat)
    requires db.Valid() && b.ops.Some?
    modifies b, db
    ensures db.Valid() && used <= |fates|
    ensures var sent := Replay(AllOnWire(old(b.ops).value));
            && db.Contents() == (if sent.Ok? && Arrived(fates[..used]) then ApplyAll(old(db.Contents()), sent.value)
                                 else old(db.Contents()))
            && (acked ==> sent.Ok? && Arrived(fates[..used]))
    ensures acked <==> Replay(AllOnWire(old(b.ops).value)).Ok? && Answers(fates)
    ensures if acked then used > 0 && fates[used - 1].Answered? else used == |fates|
    ensures if acked then b.ops.None? else b.ops == old(b.ops)
  {
    used, acked := 0, false;
    ghost var sent, m := Replay(AllOnWire(b.ops.value)), db.Contents();
    while used < |fates| && !acked
      invariant used <= |fates| && db.Valid()
      invariant if acked then b.ops.None? else b.ops == old(b.ops)
      invariant db.Contents() == if sent.Ok? && Arrived(fates[..used]) then ApplyAll(m, sent.value) else m
      invariant acked ==> sent.Ok? && Arrived(fates[..used]) && used > 0 && fates[used - 1].Answered?
      invariant !acked && sent.Ok? ==> forall i :: 0 <= i < used ==> !fates[i].Answered?
      decreases |fates| - used
    {
      var err := b.Write(db, fates[used]);
      acked := err.None?;
      if sent.Ok? { Idempotent(m, sent.value); }
      ArrivedSnoc(fates, used);
      used := used + 1;
    }
  }

  lemma ArrivedSnoc(fates: seq<Fate>, n: nat)
    requires n < |fates|
    ensures Arrived(fates[..n + 1]) <==> Arrived(fates[..n]) || !fates[n].RequestLost?
  {
    var longer := fates[..n + 1];
    if !fates[n].RequestLost? { assert !longer[n].RequestLost?; }
    if Arrived(fates[..n]) {
      var i :| 0 <= i < |fates[..n]| && !fates[..n][i].RequestLost?;
      assert !longer[i].RequestLost?;
    }
    if Arrived(longer) {
      var i :| 0 <= i < |longer| && !longer[i].RequestLost?;
      if i < n { assert !fates[..n][i].RequestLost?; }
    }
  }

  // ---------------------------------------------------------------- remote against local

  /** An operation the server rejects as the client logged it: also one that sets an empty value. */
  predicate RejectedRemotely(op: Request) {
    Faulty(op) || (op.kind == SET && op.value == Some([]))
  }

  lemma {:induction false} LoggedOnWire(ops: seq<Request>)
    requires forall i :: 0 <= i < |ops| ==> !RejectedRemotely(ops[i])
    ensures Logged(AllOnWire(ops)) == Logged(ops)
  {
    if ops != [] {
      LoggedOnWire(ops[1..]);
      assert AllOnWire(ops)[1..] == AllOnWire(ops[1..]);
      assert !RejectedRemotely(ops[0]);
    }
  }

  /**
   What a client's log comes to at the server, for every log: it is rejected exactly when it holds
   an operation without a key, or one that sets no value or an empty one, with the error of the
   first such operation, and otherwise its operations arrive unchanged and in order.
   */
  lemma RemoteOutcome(ops: seq<Request>)
    ensures Replay(AllOnWire(ops)).Err? <==> exists i :: 0 <= i < |ops| && RejectedRemotely(ops[i])
    ensures forall i :: 0 <= i < |ops| && RejectedRemotely(ops[i])
                        && (forall j :: 0 <= j < i ==> !RejectedRemotely(ops[j]))
                        ==> Replay(AllOnWire(ops)) == Err(if ops[i].key == [] then KeyEmpty else ValueNil)
    ensures Replay(AllOnWire(ops)).Ok? ==> Replay(AllOnWire(ops)).value == Logged(ops)
  {
    var wired := AllOnWire(ops);
    assert |wired| == |ops| && forall i :: 0 <= i < |ops| ==> (Faulty(wired[i]) <==> RejectedRemotely(ops[i]));
    ReplayOutcome(wired);
    forall i | 0 <= i < |ops| && RejectedRemotely(ops[i]) && (forall j :: 0 <= j < i ==> !RejectedRemotely(ops[j]))
      ensures Replay(wired) == Err(if ops[i].key == [] then KeyEmpty else ValueNil)
    {
      assert FirstFault(wired, i);
    }
    if Replay(wired).Ok? {
      forall i | 0 <= i < |ops| ensures !RejectedRemotely(ops[i]) {
        assert !Faulty(wired[i]);
      }
      LoggedOnWire(ops);
    }
  }

  /** The log as a local batch would take it. */
  function AsRequest(op: Op): Request {
    match op
    case Set(k, v) => Request(SET, k, Some(v))
    case Delete(k) => Request(DELETE, k, None)
  }

  function AsRequests(ops: seq<Op>): seq<Request> {
    seq(|ops|, i requires 0 <= i < |ops| => AsRequest(ops[i]))
  }

  predicate NoEmptyValue(ops: seq<Op>) {
    forall i :: 0 <= i < |ops| && ops[i].Set? ==> ops[i].value != []
  }

  /**
   A log that a local MemDB batch accepts is written remotely, unchanged, if and only if it sets
   no empty value: such a value arrives as nil and the whole batch is rejected.
   */
  lemma {:induction false} RemoteAcceptsExactly(ops: seq<Op>)
    requires forall i :: 0 <= i < |ops| ==> ops[i].key != []
    ensures Replay(AllOnWire(AsRequests(ops))) == if NoEmptyValue(ops) then Ok(ops) else Err(ValueNil)
  {
    if ops != [] {
      var front, last := ops[..|ops| - 1], ops[|ops| - 1];
      RemoteAcceptsExactly(front);
      assert AllOnWire(AsRequests(ops))[..|ops| - 1] == AllOnWire(AsRequests(front));
      assert NoEmptyValue(ops) <==> NoEmptyValue(front) && (last.Set? ==> last.value != []);
      assert ops == front + [last];
    }
  }

  /**
   The witness: a batch that sets one empty value. A local batch takes and writes it; the remote
   one is rejected by the server, so the value is stored in one database and absent in the other.
   */
  method EmptyValueRejectedRemotely() returns (local: Result<()>, localValue: Result<Option<Bytes>>,
                                               remote: Option<Failure>, remoteValue: Result<Option<Bytes>>)
    ensures local == Ok(()) && localValue == Ok(Some([]))
    ensures remote == Some(Rejected(ValueNil)) && remoteValue == Ok(None)
  {
    var db1 := new M.MemDB();
    var bat := new M.MemDBBatch(db1);
    assert bat.Log() == [];
    var _ := bat.Set([1], Some([]));
    ghost var log := bat.Log();
    local := bat.Write();
    assert log == [Set([1], [])] && log[..0] == [];
    assert ApplyAll(map[], log) == map[[1] := []];
    localValue := db1.Get([1]);

    var db2 := new M.MemDB();
    var client := new ClientBatch();
    var _ := client.Set([1], Some([]));
    assert FirstFault(AllOnWire(client.ops.value), 0);
    ReplayRejects(AllOnWire(client.ops.value), 0);
    remote := client.Write(db2, Answered);
    remoteValue := db2.Get([1]);
  }
}
