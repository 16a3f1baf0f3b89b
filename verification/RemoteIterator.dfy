/**
 Iteration over the remote protocol (remotedb/iterator.go, remotedb/grpcdb/server.go): the
 server drains a local iterator into a stream of messages, the transport is a reliable ordered
 queue that may break off at any point, and the client receives one message per `Next`.
 */
module RemoteIterator {
  import opened ByteStrings
  import opened Store
  import opened Iterators
  import opened RemoteBatch
  import M = MemDB

  /** A protobuf `Iterator` message as the client decodes it. */
  datatype Message = Message(valid: bool, start: Option<Bytes>, end: Option<Bytes>, key: Bytes, value: Option<Bytes>)

  /** How a stream ends: with the handler's return, or with a broken connection. */
  datatype Ending = EOF | Broken

  /** The message for one item: an empty value is absent. */
  function MessageOf(it: Item, start: Option<Bytes>, end: Option<Bytes>): Message {
    Message(true, Wire(start), Wire(end), it.key, Wire(Some(it.value)))
  }

  /** The message carries the item: its key, its value or nil for an empty one, and the endpoints asked for. */
  predicate Carries(m: Message, it: Item, start: Option<Bytes>, end: Option<Bytes>) {
    && m.valid
    && m.key == it.key
    && m.value == (if it.value == [] then None else Some(it.value))
    && m.start == (if start == Some([]) then None else start)
    && m.end == (if end == Some([]) then None else end)
  }

  /** The messages carry the items one by one, as far as they go. */
  predicate CarryAll(ms: seq<Message>, items: seq<Item>, start: Option<Bytes>, end: Option<Bytes>) {
    |ms| <= |items| && forall i :: 0 <= i < |ms| ==> Carries(ms[i], items[i], start, end)
  }

  function MessagesOf(items: seq<Item>, start: Option<Bytes>, end: Option<Bytes>): seq<Message> {
    seq(|items|, i requires 0 <= i < |items| => MessageOf(items[i], start, end))
  }

  /** A stream that breaks off after `limit` messages: it is whole exactly when it is no longer than that. */
  function Cut(ms: seq<Message>, limit: nat, ending: Ending): (seq<Message>, Ending) {
    if |ms| <= limit then (ms, ending) else (ms[..limit], Broken)
  }

  function Least(a: nat, b: nat): nat {
    if a <= b then a else b
  }

  /** A cut stream carries the items one by one up to the cut. */
  lemma CutCarries(items: seq<Item>, start: Option<Bytes>, end: Option<Bytes>, limit: nat)
    ensures var sent := Cut(MessagesOf(items, start, end), limit, EOF).0;
            |sent| == Least(|items|, limit) && CarryAll(sent, items, start, end)
  {
  }

  /**
   `handleIterator`: one message per item until the iterator is invalid or a send fails, which it
   does once `capacity` messages have gone out.
   */
  method HandleIterator(it: SourceIterator, start: Option<Bytes>, end: Option<Bytes>, capacity: nat)
    returns (sent: seq<Message>, ending: Ending)
    requires it.Ok()
    modifies it
    ensures (sent, ending) == Cut(MessagesOf(old(it.Remaining()), start, end), capacity, EOF)
    ensures CarryAll(sent, old(it.Remaining()), start, end)
    ensures |sent| == Least(|old(it.Remaining())|, capacity)
  {
    ghost var all := MessagesOf(it.Remaining(), start, end);
    sent := [];
    while it.Valid()
      invariant it.Ok() && |all| == |sent| + |it.Remaining()| && |sent| <= capacity
      invariant it.Remaining() == old(it.Remaining())[|sent|..]
      invariant sent == all[..|sent|]
      decreases |it.items| - it.pos
    {
      var out := MessageOf(Item(it.Key(), it.Value()), start, end);
      if |sent| == capacity {
        CutCarries(old(it.Remaining()), start, end, capacity);
        return sent, Broken;                      // sendFunc failed
      }
      assert out == all[|sent|];
      sent := sent + [out];
      it.Next();
    }
    assert all[..|all|] == all;
    CutCarries(old(it.Remaining()), start, end, capacity);
    return sent, EOF;
  }

  // ---------------------------------------------------------------- the client

  class Stream {
    var queue: seq<Message>
    const ending: Ending

    constructor (queue: seq<Message>, ending: Ending)
      ensures this.queue == queue && this.ending == ending
    {
      this.queue, this.ending := queue, ending;
    }

    /** `Recv`: the next message, or, from the end on, always the same error. */
    method Recv() returns (m: Option<Message>, err: Option<Ending>)
      modifies this
      ensures if old(queue) == [] then m.None? && err == Some(ending) && queue == []
              else m == Some(old(queue)[0]) && err.None? && queue == old(queue)[1..]
    {
      if queue == [] { return None, Some(ending); }
      m, err := Some(queue[0]), None;
      queue := queue[1..];
    }
  }

  predicate AllValid(ms: seq<Message>) {
    forall i :: 0 <= i < |ms| ==> ms[i].valid
  }

  /** `iterator` and `reverseIterator`, which differ only in the stream's type. */
  class ClientIterator {
    const stream: Stream
    var cur: Option<Message>
    var err: Option<Ending>

    /** Over a server's stream: without an error the iterator has a valid message. */
    ghost predicate Ok()
      reads this, stream
    {
      && AllValid(stream.queue)
      && (err.None? ==> cur.Some? && cur.value.valid)
      && (err.Some? ==> cur.None? && stream.queue == [] && err.value == stream.ending)
    }

    ghost function Remaining(): seq<Message>
      reads this, stream
    {
      (if cur.Some? then [cur.value] else []) + stream.queue
    }

    /** `makeIterator`: primed with the first message. */
    constructor (stream: Stream)
      requires AllValid(stream.queue)
      modifies stream
      ensures Ok() && this.stream == stream && Remaining() == old(stream.queue)
    {
      this.stream, cur, err := stream, None, None;
      new;
      var e;
      cur, e := stream.Recv();
      if e.Some? { err := e; }
    }

    predicate Valid()
      reads this
    {
      cur.Some? && cur.value.valid && err.None?
    }

    /** `Next`, which checks nothing: once the iterator is invalid it stays so however often it is called. */
    method Next()
      requires Ok()
      modifies this, stream
      ensures Ok()
      ensures !old(Valid()) ==> !Valid() && err == old(err)
      ensures old(Valid()) ==> Remaining() == old(Remaining())[1..]
    {
      ghost var rest := stream.queue;
      var e;
      cur, e := stream.Recv();
      if e.Some? { err := e; }
      assert Remaining() == rest;
    }
  }

  lemma TakeMessage(out: seq<Message>, rest: seq<Message>, all: seq<Message>)
    requires rest != [] && out + rest == all
    ensures (out + [rest[0]]) + rest[1..] == all
  {
    assert rest == [rest[0]] + rest[1..];
  }

  /** The caller's loop: everything that was received, and the stream's ending as the error. */
  method Drain(itr: ClientIterator) returns (out: seq<Message>)
    requires itr.Ok()
    modifies itr, itr.stream
    ensures itr.Ok() && !itr.Valid() && itr.err == Some(itr.stream.ending)
    ensures out == old(itr.Remaining())
  {
    ghost var all := itr.Remaining();
    out := [];
    while itr.Valid()
      invariant itr.Ok() && out + itr.Remaining() == all
      decreases |itr.Remaining()|
    {
      TakeMessage(out, itr.Remaining(), all);
      out := out + [itr.cur.value];
      itr.Next();
    }
    assert out + [] == out;
  }

  /** What the server's own iterator yields for a request with these endpoints. */
  ghost function LocalRange(db: M.MemDB, start: Option<Bytes>, end: Option<Bytes>, reverse: bool): seq<Item>
    reads db
  {
    Directed(Within(db.btree, Wire(start), Wire(end)), reverse)
  }

  /** Every key of the range is non-empty, so it arrives as it was sent. */
  lemma LocalKeys(db: M.MemDB, start: Option<Bytes>, end: Option<Bytes>, reverse: bool)
    requires db.Valid()
    ensures Enumerates(LocalRange(db, start, end, reverse), db.Contents(), Wire(start), Wire(end), reverse)
    ensures forall it :: it in LocalRange(db, start, end, reverse) ==> Wire(Some(it.key)) == Some(it.key)
  {
    WithinEnumerates(db.btree, Wire(start), Wire(end), reverse);
  }

  /** The server's `Iterator` and `ReverseIterator`: open a local iterator and stream it. */
  method Serve(db: M.MemDB, start: Option<Bytes>, end: Option<Bytes>, reverse: bool, capacity: nat)
    returns (sent: seq<Message>, ending: Ending)
    requires db.Valid()
    ensures (sent, ending)
         == Cut(MessagesOf(LocalRange(db, start, end, reverse), Wire(start), Wire(end)), capacity, EOF)
    ensures CarryAll(sent, LocalRange(db, start, end, reverse), start, end)
    ensures |sent| == Least(|LocalRange(db, start, end, reverse)|, capacity)
  {
    var local := db.NewIterator(Wire(start), Wire(end), reverse);
    LocalKeys(db, start, end, reverse);
    EnumerationUnique(local.value.Remaining(), LocalRange(db, start, end, reverse),
                      db.Contents(), Wire(start), Wire(end), reverse);
    sent, ending := HandleIterator(local.value, Wire(start), Wire(end), capacity);
  }

  /** The client's side of it: whatever arrived, in order, and the ending as the iterator's error. */
  method Collect(arrived: seq<Message>, ending: Ending) returns (out: seq<Message>, err: Option<Ending>)
    requires AllValid(arrived)
    ensures out == arrived && err == Some(ending)
  {
    var stream := new Stream(arrived, ending);
    var itr := new ClientIterator(stream);
    out := Drain(itr);
    err := itr.err;
  }

  /**
   A whole remote iteration over a MemDB whose server can send `capacity` messages, of which the
   connection carries `arrived`. The client sees what the local iterator over the same domain
   yields, up to nil for empty values: all of it, ending with EOF, exactly when it fits both, and
   otherwise just what fits. There is an error at the end either way.
   */
  method RemoteIterate(db: M.MemDB, start: Option<Bytes>, end: Option<Bytes>, reverse: bool, capacity: nat, arrived: nat)
    returns (out: seq<Message>, err: Option<Ending>)
    requires db.Valid()
    ensures Enumerates(LocalRange(db, start, end, reverse), db.Contents(), Wire(start), Wire(end), reverse)
    ensures var all := MessagesOf(LocalRange(db, start, end, reverse), Wire(start), Wire(end));
            var limit := if capacity < arrived then capacity else arrived;
            (out, err) == (Cut(all, limit, EOF).0, Some(Cut(all, limit, EOF).1))
    ensures CarryAll(out, LocalRange(db, start, end, reverse), start, end)
    ensures |out| == Least(|LocalRange(db, start, end, reverse)|, Least(capacity, arrived))
    ensures err == Some(if |out| == |LocalRange(db, start, end, reverse)| then EOF else Broken)
  {
    LocalKeys(db, start, end, reverse);
    ghost var all := MessagesOf(LocalRange(db, start, end, reverse), Wire(start), Wire(end));
    var sent, ending := Serve(db, start, end, reverse, capacity);
    if arrived < |sent| {
      assert sent[..arrived] == all[..arrived];
      sent, ending := sent[..arrived], Broken;    // the connection broke with messages under way
    }
    out, err := Collect(sent, ending);
  }

  /**
   Remote against local: with room enough the client gets exactly what a local iterator with the
   same arguments yields, wherever the local store gives one. It refuses an empty endpoint; the
   wire turns that into no bound, and the client gets the range without it.
   */
  method RemoteAgainstLocal(db: M.MemDB, start: Option<Bytes>, end: Option<Bytes>, reverse: bool, room: nat)
    returns (local: Result<SourceIterator>, out: seq<Message>, err: Option<Ending>)
    requires db.Valid() && |LocalRange(db, start, end, reverse)| <= room
    ensures local.Ok? <==> Wire(start) == start && Wire(end) == end
    ensures local.Ok? ==> local.value.Ok() && Enumerates(local.value.Remaining(), db.Contents(), start, end, reverse)
                          && out == MessagesOf(local.value.Remaining(), start, end)
                          && |out| == |local.value.Remaining()|
                          && CarryAll(out, local.value.Remaining(), start, end)
    ensures local.Err? ==> local.error == KeyEmpty
                           && out == MessagesOf(LocalRange(db, start, end, reverse), Wire(start), Wire(end))
                           && |out| == |LocalRange(db, start, end, reverse)|
                           && CarryAll(out, LocalRange(db, start, end, reverse), start, end)
    ensures err == Some(EOF)
  {
    local := db.NewIterator(start, end, reverse);
    out, err := RemoteIterate(db, start, end, reverse, room, room);
    if local.Ok? {
      EnumerationUnique(local.value.Remaining(), LocalRange(db, start, end, reverse), db.Contents(), start, end, reverse);
    }
  }
}
