/**
 One MemDB iterator (memdb_iterator.go) as a protocol between the goroutine that walks
 the B-tree, the 64-slot channel and the caller that primes, advances and closes.
 */
module IteratorProtocol {
  import opened ByteStrings
  import opened Store
  import opened Traversal

  const CH_BUFFER_SIZE: nat := 64

  /** Where the goroutine is. It holds the read lock until it is `Released`. */
  datatype Producer =
    | Walking(pos: nat, visitor: Visitor)             // about to call the visitor, or at the end of the walk
    | Sending(pos: nat, visitor: Visitor, item: Item) // in the select, with the item in hand
    | Returned                                        // the walk has returned
    | ClosedChannel                                   // the channel is closed, the deferred RUnlock is due
    | Released

  /** What the caller waits for, if anything. */
  datatype Consumer = Idle | Priming | Advancing | Draining

  datatype Iter = Iter(
    start: Option<Bytes>, end: Option<Bytes>, reverse: bool,
    born: nat,                // how many writes were committed when the read lock was taken
    producer: Producer,
    buffer: seq<Item>,        // the contents of the channel
    open: bool,               // the channel has not been closed
    cancelled: bool,          // the context is done
    consumer: Consumer,
    item: Option<Item>,       // the iterator's current item
    delivered: seq<Item>)     // every item that has been current, in order

  datatype Move =
    | VisitNext | Send | SeeCancel | CloseChannel | ReleaseLock  // the goroutine
    | Receive                                                    // the caller, inside a call
    | CallNext | CallClose                                       // the caller, starting a call

  function Fresh(start: Option<Bytes>, end: Option<Bytes>, reverse: bool, born: nat): Iter {
    Iter(start, end, reverse, born, Walking(0, InitialVisitor(start, end, reverse)),
         [], true, false, Priming, None, [])
  }

  predicate Holding(it: Iter) {
    !it.producer.Released?
  }

  function WalkOf(tree: seq<Item>, it: Iter): seq<Item> {
    Walk(tree, it.start, it.end, it.reverse)
  }

  /** One step of the goroutine at the walk, reading the live tree. */
  function Visited(tree: seq<Item>, it: Iter): Producer
    requires it.producer.Walking?
  {
    var walk, pos := WalkOf(tree, it), it.producer.pos;
    if pos >= |walk| then Returned
    else
      var (verdict, v) := Visit(it.producer.visitor, walk[pos].key);
      match verdict
      case Skip => Walking(pos + 1, v)
      case Abort => Returned
      case Offer => Sending(pos, v, walk[pos])
  }

  /** `<-ch`: the next item, or the end of a closed channel; blocked on an empty open one. */
  function Received(it: Iter): Option<Iter> {
    if it.consumer.Idle? then None
    else if it.buffer != [] then
      var rest := it.(buffer := it.buffer[1..]);
      if it.consumer.Draining? then Some(rest)
      else Some(rest.(item := Some(it.buffer[0]), delivered := it.delivered + [it.buffer[0]], consumer := Idle))
    else if it.open then None
    else Some(it.(item := None, consumer := Idle))
  }

  /** A move of one iterator over the live tree, or None when it is not enabled. */
  function IterStep(tree: seq<Item>, it: Iter, move: Move): Option<Iter> {
    match move
    case VisitNext =>
      if it.producer.Walking? then Some(it.(producer := Visited(tree, it))) else None
    case Send =>
      if it.producer.Sending? && |it.buffer| < CH_BUFFER_SIZE then
        Some(it.(buffer := it.buffer + [it.producer.item],
                 producer := Walking(it.producer.pos + 1, it.producer.visitor)))
      else None
    case SeeCancel =>
      if it.producer.Sending? && it.cancelled then Some(it.(producer := Returned)) else None
    case CloseChannel =>
      if it.producer.Returned? then Some(it.(producer := ClosedChannel, open := false)) else None
    case ReleaseLock =>
      if it.producer.ClosedChannel? then Some(it.(producer := Released)) else None
    case Receive => Received(it)
    case CallNext =>                   // panics on an invalid iterator
      if it.consumer.Idle? && it.item.Some? then Some(it.(consumer := Advancing)) else None
    case CallClose =>
      if it.consumer.Idle? then Some(it.(consumer := Draining, cancelled := true)) else None
  }

  // ---------------------------------------------------------------- the protocol invariant

  /** What the goroutine would still offer, were it never cancelled. */
  function Untraversed(snap: seq<Item>, it: Iter): seq<Item>
    requires Positioned(snap, it)
  {
    match it.producer
    case Walking(pos, v) => Emit(v, WalkOf(snap, it)[pos..])
    case Sending(pos, v, item) => [item] + Emit(v, WalkOf(snap, it)[pos + 1..])
    case _ => []
  }

  predicate Positioned(snap: seq<Item>, it: Iter) {
    match it.producer
    case Walking(pos, _) => pos <= |WalkOf(snap, it)|
    case Sending(pos, _, _) => pos < |WalkOf(snap, it)|
    case _ => true
  }

  /** The whole range, as of the contents `snap`. */
  function FullRange(snap: seq<Item>, it: Iter): seq<Item> {
    Emission(snap, it.start, it.end, it.reverse)
  }

  /** The caller's view: what is current was delivered last, and nil means the stream is over. */
  predicate Coherent(it: Iter) {
    && (it.consumer.Priming? ==> it.item.None? && it.delivered == [] && !it.cancelled)
    && (it.consumer.Advancing? ==> it.item.Some? && !it.cancelled)
    && (it.consumer.Draining? ==> it.cancelled)
    && (it.item.Some? ==> it.delivered != [] && it.item.value == it.delivered[|it.delivered| - 1])
    && (it.item.None? && it.consumer.Idle? ==> it.buffer == [] && !it.open)
    && (it.cancelled && it.consumer.Idle? ==> it.item.None?)
  }

  /** Relative to the contents `snap` at the moment the read lock was taken. */
  predicate IterInv(snap: seq<Item>, it: Iter) {
    && |it.buffer| <= CH_BUFFER_SIZE
    && (it.open <==> !it.producer.ClosedChannel? && !it.producer.Released?)
    && Positioned(snap, it)
    && Coherent(it)
    && it.delivered <= FullRange(snap, it)
    && (!it.cancelled ==> it.delivered + it.buffer + Untraversed(snap, it) == FullRange(snap, it))
  }

  lemma FreshInv(snap: seq<Item>, start: Option<Bytes>, end: Option<Bytes>, reverse: bool, born: nat)
    ensures IterInv(snap, Fresh(start, end, reverse, born))
  {
    var it := Fresh(start, end, reverse, born);
    assert WalkOf(snap, it)[0..] == WalkOf(snap, it);
  }

  lemma VisitInv(snap: seq<Item>, it: Iter)
    requires IterInv(snap, it) && it.producer.Walking?
    ensures IterInv(snap, it.(producer := Visited(snap, it)))
  {
    var walk, pos := WalkOf(snap, it), it.producer.pos;
    var it' := it.(producer := Visited(snap, it));
    assert WalkOf(snap, it') == walk && FullRange(snap, it') == FullRange(snap, it);
    if pos < |walk| {
      assert walk[pos..][1..] == walk[pos + 1..];
    }
    assert Untraversed(snap, it') == Untraversed(snap, it);
  }

  lemma SendInv(snap: seq<Item>, it: Iter)
    requires IterInv(snap, it) && IterStep(snap, it, Send).Some?
    ensures IterInv(snap, IterStep(snap, it, Send).value)
  {
    var it' := IterStep(snap, it, Send).value;
    assert WalkOf(snap, it') == WalkOf(snap, it) && FullRange(snap, it') == FullRange(snap, it);
    assert it.delivered + it.buffer + Untraversed(snap, it)
        == it'.delivered + it'.buffer + Untraversed(snap, it');
  }

  lemma ReceiveInv(snap: seq<Item>, it: Iter)
    requires IterInv(snap, it) && Received(it).Some?
    ensures IterInv(snap, Received(it).value)
  {
    var it' := Received(it).value;
    assert WalkOf(snap, it') == WalkOf(snap, it) && FullRange(snap, it') == FullRange(snap, it);
    assert Untraversed(snap, it') == Untraversed(snap, it);
    if it.buffer != [] && !it.consumer.Draining? {
      assert it'.delivered + it'.buffer == it.delivered + it.buffer;
      assert it'.delivered <= it.delivered + it.buffer + Untraversed(snap, it);
    }
  }

  lemma CancelInv(snap: seq<Item>, tree: seq<Item>, it: Iter, move: Move)
    requires IterInv(snap, it) && IterStep(tree, it, move).Some? && (move.SeeCancel? || move.CallClose?)
    ensures IterInv(snap, IterStep(tree, it, move).value)
  {
    var it' := IterStep(tree, it, move).value;
    assert WalkOf(snap, it') == WalkOf(snap, it) && FullRange(snap, it') == FullRange(snap, it);
    assert it'.cancelled;
  }

  lemma QuietInv(snap: seq<Item>, tree: seq<Item>, it: Iter, move: Move)
    requires IterInv(snap, it) && IterStep(tree, it, move).Some?
    requires move.CloseChannel? || move.ReleaseLock? || move.CallNext?
    ensures IterInv(snap, IterStep(tree, it, move).value)
  {
    var it' := IterStep(tree, it, move).value;
    assert WalkOf(snap, it') == WalkOf(snap, it) && FullRange(snap, it') == FullRange(snap, it);
    assert Positioned(snap, it') && Untraversed(snap, it') == Untraversed(snap, it);
  }

  /** Every move keeps the invariant, provided a goroutine that holds the lock still sees `snap`. */
  lemma IterStepInv(snap: seq<Item>, tree: seq<Item>, it: Iter, move: Move)
    requires IterInv(snap, it) && (Holding(it) ==> tree == snap)
    requires IterStep(tree, it, move).Some?
    ensures IterInv(snap, IterStep(tree, it, move).value)
  {
    match move
    case VisitNext => VisitInv(snap, it);
    case Send => SendInv(snap, it);
    case Receive => ReceiveInv(snap, it);
    case SeeCancel => CancelInv(snap, tree, it, move);
    case CallClose => CancelInv(snap, tree, it, move);
    case _ => QuietInv(snap, tree, it, move);
  }

  /** The channel is first in, first out, one item at a time; only sending and receiving touch it. */
  lemma ChannelIsFifo(tree: seq<Item>, it: Iter, move: Move)
    requires IterStep(tree, it, move).Some?
    ensures var it' := IterStep(tree, it, move).value;
            && (move.Send? ==> it.producer.Sending? && it'.buffer == it.buffer + [it.producer.item])
            && (move.Receive? ==> if it.buffer == [] then it'.buffer == [] else it.buffer == [it.buffer[0]] + it'.buffer)
            && (!move.Send? && !move.Receive? ==> it'.buffer == it.buffer)
  {
    if move.Receive? && it.buffer != [] {
      assert it.buffer == [it.buffer[0]] + it.buffer[1..];
    }
  }

  /** What the invariant says to the caller. */
  lemma Delivered(snap: seq<Item>, it: Iter)
    requires IterInv(snap, it)
    ensures it.delivered <= FullRange(snap, it)
    ensures it.item.Some? ==> it.delivered != [] && it.item.value == it.delivered[|it.delivered| - 1]
    ensures it.consumer.Idle? && it.item.None? && !it.cancelled ==> it.delivered == FullRange(snap, it)
  {
    assert it.delivered + [] + [] == it.delivered;
  }

  /** A goroutine with more to deliver than fits the channel has not let go of its lock. */
  lemma UndeliveredKeepsLock(snap: seq<Item>, it: Iter)
    requires IterInv(snap, it) && !it.cancelled
    requires |FullRange(snap, it)| > |it.delivered| + CH_BUFFER_SIZE
    ensures Holding(it)
  {
  }

  // ---------------------------------------------------------------- progress

  predicate Waiting(it: Iter) {
    !it.consumer.Idle?
  }

  /** A move that is enabled whenever the caller waits. */
  function WakingMove(it: Iter): Move {
    if it.buffer != [] || !it.open then Receive
    else match it.producer
         case Walking(_, _) => VisitNext
         case Sending(_, _, _) => Send
         case _ => CloseChannel
  }

  /** A waiting caller is never stuck: it can receive, or the goroutine can move. */
  lemma WaiterNotStuck(snap: seq<Item>, tree: seq<Item>, it: Iter)
    requires IterInv(snap, it) && Waiting(it)
    ensures IterStep(tree, it, WakingMove(it)).Some?
    ensures it.buffer == [] && it.open ==> !WakingMove(it).Receive?
  {
  }

  predicate StartsCall(move: Move) {
    move.CallNext? || move.CallClose?
  }

  /** Work left for the goroutine and for the call in progress. */
  function Work(snap: seq<Item>, it: Iter): nat {
    |it.buffer| + (if Waiting(it) then 1 else 0)
    + match it.producer
      case Walking(pos, _) => 3 + 3 * Ahead(snap, it, pos)
      case Sending(pos, _, _) => 2 + 3 * Ahead(snap, it, pos)
      case Returned => 2
      case ClosedChannel => 1
      case Released => 0
  }

  function Ahead(snap: seq<Item>, it: Iter, pos: nat): nat {
    var n := |WalkOf(snap, it)|;
    if pos <= n then n - pos else 0
  }

  /** Every move other than starting a call uses up work. */
  lemma MoveUsesWork(snap: seq<Item>, tree: seq<Item>, it: Iter, move: Move)
    requires IterInv(snap, it) && (Holding(it) ==> tree == snap)
    requires IterStep(tree, it, move).Some? && !StartsCall(move)
    ensures var it' := IterStep(tree, it, move).value;
            Work(snap, it') < Work(snap, it)
  {
    var it' := IterStep(tree, it, move).value;
    assert WalkOf(snap, it') == WalkOf(snap, it);
    assert Positioned(snap, it);
    match move
    case VisitNext =>
      assert it'.producer == Visited(snap, it);
    case _ =>
  }

  // ---------------------------------------------------------------- the goroutine on its own

  predicate GoroutineMove(move: Move) {
    !move.Receive? && !StartsCall(move)
  }

  lemma GoroutineKeeps(tree: seq<Item>, it: Iter, move: Move)
    requires GoroutineMove(move) && IterStep(tree, it, move).Some?
    ensures var it' := IterStep(tree, it, move).value;
            it'.delivered == it.delivered && it'.cancelled == it.cancelled && it'.consumer == it.consumer
  {
  }

  /** The goroutine's next move, if it is cancelled or the channel has room for all it has left. */
  function NextMove(it: Iter): Move {
    match it.producer
    case Walking(_, _) => VisitNext
    case Sending(_, _, _) => if it.cancelled then SeeCancel else Send
    case Returned => CloseChannel
    case _ => ReleaseLock
  }

  /** Cancelled, or with room in the channel for everything undelivered, a live goroutine can always move. */
  lemma RoomToMove(snap: seq<Item>, tree: seq<Item>, it: Iter)
    requires IterInv(snap, it) && Holding(it)
    requires it.cancelled || |FullRange(snap, it)| <= |it.delivered| + CH_BUFFER_SIZE
    ensures IterStep(tree, it, NextMove(it)).Some? && GoroutineMove(NextMove(it))
  {
    if it.producer.Sending? && !it.cancelled {
      assert |it.delivered + it.buffer + Untraversed(snap, it)| >= |it.delivered| + |it.buffer| + 1;
    }
  }

  // ---------------------------------------------------------------- once invalid, forever invalid

  /** The iterator is invalid and nothing can make it valid again. */
  predicate Over(it: Iter) {
    it.item.None? && it.buffer == [] && !it.open && (it.consumer.Idle? || it.consumer.Draining?)
  }

  lemma OverForever(snap: seq<Item>, tree: seq<Item>, it: Iter, move: Move)
    requires IterInv(snap, it) && Over(it) && IterStep(tree, it, move).Some?
    ensures Over(IterStep(tree, it, move).value)
    ensures IterStep(tree, it, move).value.delivered == it.delivered
  {
  }
}
