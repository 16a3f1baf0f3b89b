/**
 The server's `GetStream` (remotedb/grpcdb/server.go): a goroutine that receives requests and
 computes responses, an unbuffered channel, and the loop that sends the responses, interleaved
 with other writers of the store. Every run is any enabled sequence of events.
 */
module GetStream {
  import opened ByteStrings
  import opened Store
  import M = MemDB

  /** An `Entity` response: a value, or the error that ends the stream. */
  datatype Response = Found(value: Option<Bytes>) | Failed(key: Option<Bytes>)

  /** A received request with the contents of the store when `Get` answered it. */
  datatype Query = Query(key: Bytes, contents: Contents)

  datatype Receiver = Receiving | Offering(out: Response, last: bool) | Exited

  datatype Sender = Waiting | Sending(out: Response) | Returned(failed: bool)

  datatype State = State(
    contents: Contents,
    receiver: Receiver,
    sender: Sender,
    queries: seq<Query>,          // the requests answered so far, in order
    endedByRecv: bool,            // the goroutine's last response reports a receive error
    sent: seq<Response>)          // the responses sent to the client

  datatype Event =
    | WriteStore(contents: Contents)
    | Receive(key: Bytes)
    | ReceiveError
    | Handoff                     // the unbuffered channel: both sides at once
    | SendOk
    | SendError
    | SeeClosed

  function Initial(m: Contents): State {
    State(m, Receiving, Waiting, [], false, [])
  }

  /** `Get`'s response: an empty key is an error, which carries the key back. */
  function Answer(q: Query): Response {
    if q.key == [] then Failed(Some(q.key)) else Found(Lookup(q.contents, q.key))
  }

  /** The answer is what a `Get` on the store gives: its value or nil, or its error with the key. */
  method Respond(db: M.MemDB, key: Bytes) returns (out: Response)
    requires db.Valid()
    ensures out == Answer(Query(key, db.Contents()))
  {
    var r := db.Get(key);
    match r {
      case Ok(value) => out := Found(value);
      case Err(_) => out := Failed(Some(key));
    }
  }

  function Step(s: State, e: Event): Option<State> {
    match e
    case WriteStore(m) => Some(s.(contents := m))
    case Receive(key) =>
      if !s.receiver.Receiving? then None
      else
        var q := Query(key, s.contents);
        Some(s.(queries := s.queries + [q], receiver := Offering(Answer(q), Answer(q).Failed?)))
    case ReceiveError =>
      if !s.receiver.Receiving? then None
      else Some(s.(receiver := Offering(Failed(None), true), endedByRecv := true))
    case Handoff =>
      if !s.receiver.Offering? || !s.sender.Waiting? then None
      else Some(s.(sender := Sending(s.receiver.out), receiver := if s.receiver.last then Exited else Receiving))
    case SendOk =>
      if !s.sender.Sending? then None else Some(s.(sent := s.sent + [s.sender.out], sender := Waiting))
    case SendError =>
      if !s.sender.Sending? then None else Some(s.(sender := Returned(true)))
    case SeeClosed =>
      if !s.receiver.Exited? || !s.sender.Waiting? then None else Some(s.(sender := Returned(false)))
  }

  function Run(s: State, events: seq<Event>): Option<State>
    decreases |events|
  {
    if events == [] then Some(s)
    else
      var next := Step(s, events[0]);
      if next.None? then None else Run(next.value, events[1..])
  }

  /** The responses the requests call for, in request order, and the receive error if there was one. */
  function Due(queries: seq<Query>, endedByRecv: bool): seq<Response> {
    seq(|queries|, i requires 0 <= i < |queries| => Answer(queries[i])) + (if endedByRecv then [Failed(None)] else [])
  }

  /** Computed but not yet sent: at most one response at each side of the channel. */
  function InFlight(s: State): seq<Response> {
    (if s.sender.Sending? then [s.sender.out] else [])
    + (if s.receiver.Offering? then [s.receiver.out] else [])
  }

  /** Errors come last: only the final response may be one, and then the goroutine is ending. */
  predicate OnlyLastFails(s: State) {
    var due := Due(s.queries, s.endedByRecv);
    && (forall i :: 0 <= i < |due| - 1 ==> due[i].Found?)
    && (match s.receiver
        case Receiving => due == [] || due[|due| - 1].Found?
        case Offering(out, last) => due != [] && due[|due| - 1] == out && (last <==> out.Failed?)
        case Exited => due != [] && due[|due| - 1].Failed?)
  }

  predicate Inv(s: State) {
    var due := Due(s.queries, s.endedByRecv);
    && OnlyLastFails(s)
    && s.sent <= due
    && (if s.sender == Returned(true)
        then |due| == |s.sent| + 1 + |InFlight(s)|     // one response was lost in the failed send
        else due == s.sent + InFlight(s))
    && (s.sender == Returned(false) ==> s.receiver.Exited?)
    && (s.endedByRecv ==> !s.receiver.Receiving?)
  }

  lemma ReceiveInv(s: State, key: Bytes)
    requires Inv(s) && s.receiver.Receiving?
    ensures Inv(Step(s, Receive(key)).value)
  {
    var q := Query(key, s.contents);
    var s' := Step(s, Receive(key)).value;
    assert Due(s.queries + [q], false) == Due(s.queries, false) + [Answer(q)];
    assert InFlight(s') == InFlight(s) + [Answer(q)];
  }

  lemma ReceiveErrorInv(s: State)
    requires Inv(s) && s.receiver.Receiving?
    ensures Inv(Step(s, ReceiveError).value)
  {
    assert Due(s.queries, true) == Due(s.queries, false) + [Failed(None)];
  }

  lemma SenderInv(s: State, e: Event)
    requires Inv(s) && Step(s, e).Some? && !e.Receive? && !e.ReceiveError?
    ensures Inv(Step(s, e).value)
  {
    match e
    case Handoff => HandoffInv(s);
    case SendOk => SendOkInv(s);
    case SendError => SendErrorInv(s);
    case _ => StillInv(s, e);
  }

  lemma StillInv(s: State, e: Event)
    requires Inv(s) && Step(s, e).Some? && (e.WriteStore? || e.SeeClosed?)
    ensures Inv(Step(s, e).value)
  {
    var s' := Step(s, e).value;
    assert Due(s'.queries, s'.endedByRecv) == Due(s.queries, s.endedByRecv);
    assert InFlight(s') == InFlight(s);
  }

  lemma HandoffInv(s: State)
    requires Inv(s) && Step(s, Handoff).Some?
    ensures Inv(Step(s, Handoff).value)
  {
    var s' := Step(s, Handoff).value;
    assert Due(s'.queries, s'.endedByRecv) == Due(s.queries, s.endedByRecv);
    assert InFlight(s') == InFlight(s) == [s.receiver.out];
  }

  lemma SendOkInv(s: State)
    requires Inv(s) && Step(s, SendOk).Some?
    ensures Inv(Step(s, SendOk).value)
  {
    var s' := Step(s, SendOk).value;
    assert Due(s'.queries, s'.endedByRecv) == Due(s.queries, s.endedByRecv);
    assert s'.sent + InFlight(s') == s.sent + InFlight(s);
  }

  lemma SendErrorInv(s: State)
    requires Inv(s) && Step(s, SendError).Some?
    ensures Inv(Step(s, SendError).value)
  {
    var s' := Step(s, SendError).value;
    assert Due(s'.queries, s'.endedByRecv) == Due(s.queries, s.endedByRecv);
    assert |s.sent + InFlight(s)| == |s.sent| + 1 + |InFlight(s')|;
  }

  lemma StepInv(s: State, e: Event)
    requires Inv(s) && Step(s, e).Some?
    ensures Inv(Step(s, e).value)
  {
    match e
    case Receive(key) => ReceiveInv(s, key);
    case ReceiveError => ReceiveErrorInv(s);
    case _ => SenderInv(s, e);
  }

  lemma {:induction false} RunInv(s: State, events: seq<Event>)
    requires Inv(s) && Run(s, events).Some?
    ensures Inv(Run(s, events).value)
    decreases |events|
  {
    if events != [] {
      StepInv(s, events[0]);
      RunInv(Step(s, events[0]).value, events[1..]);
    }
  }

  /** The requests of a run in the order received, each with the store as it was then. */
  function QueriesOf(m: Contents, events: seq<Event>): seq<Query>
    decreases |events|
  {
    if events == [] then []
    else match events[0]
      case WriteStore(m') => QueriesOf(m', events[1..])
      case Receive(key) => [Query(key, m)] + QueriesOf(m, events[1..])
      case _ => QueriesOf(m, events[1..])
  }

  lemma {:induction false} RunQueries(s: State, events: seq<Event>)
    requires Run(s, events).Some?
    ensures Run(s, events).value.queries == s.queries + QueriesOf(s.contents, events)
    decreases |events|
  {
    if events == [] {
      assert s.queries + [] == s.queries;
    } else {
      RunQueries(Step(s, events[0]).value, events[1..]);
    }
  }

  /** Response `i` answers request `i`. */
  predicate AnswersQuery(r: Response, q: Query) {
    r == if q.key == [] then Failed(Some([])) else Found(Lookup(q.contents, q.key))
  }

  lemma SentAnswer(s: State)
    requires Inv(s)
    ensures |s.sent| <= |s.queries| + (if s.endedByRecv then 1 else 0)
    ensures forall i :: 0 <= i < |s.sent| && i < |s.queries| ==> AnswersQuery(s.sent[i], s.queries[i])
    ensures |s.sent| > |s.queries| ==> s.sent[|s.queries|] == Failed(None)
  {
    var due := Due(s.queries, s.endedByRecv);
    forall i | 0 <= i < |s.sent| && i < |s.queries| ensures AnswersQuery(s.sent[i], s.queries[i]) {
      assert s.sent[i] == due[i] == Answer(s.queries[i]);
    }
  }

  lemma ReachableAnswers(m: Contents, events: seq<Event>, s: State)
    requires Run(Initial(m), events) == Some(s)
    ensures |s.sent| <= |s.queries| + (if s.endedByRecv then 1 else 0)
    ensures forall i :: 0 <= i < |s.sent| && i < |s.queries| ==> AnswersQuery(s.sent[i], s.queries[i])
    ensures |s.sent| > |s.queries| ==> s.sent[|s.queries|] == Failed(None)
  {
    assert Due([], false) == [];
    RunInv(Initial(m), events);
    SentAnswer(s);
  }

  lemma ReachableDue(m: Contents, events: seq<Event>, s: State)
    requires Run(Initial(m), events) == Some(s)
    ensures var due := Due(s.queries, s.endedByRecv);
            && s.sent <= due
            && (forall i :: 0 <= i < |due| - 1 ==> due[i].Found?)
            && (s.sender == Returned(false) ==> s.sent == due && due != [] && due[|due| - 1].Failed?)
  {
    assert Due([], false) == [];
    RunInv(Initial(m), events);
    if s.sender == Returned(false) {
      assert s.sent + InFlight(s) == s.sent;
    }
  }

  /**
   In every run the responses sent are a prefix of the answers to the requests, in request order
   and each from the store as it was when its request was answered: the stored value or nil for a
   key, the error with the key for an empty one. At most the very last one is an error. A stream
   that ends normally has sent them all, and its last response is an error.
   */
  lemma GetStreamOrder(m: Contents, events: seq<Event>, s: State)
    requires Run(Initial(m), events) == Some(s)
    ensures s.queries == QueriesOf(m, events)
    ensures |s.sent| <= |s.queries| + (if s.endedByRecv then 1 else 0)
    ensures forall i :: 0 <= i < |s.sent| && i < |s.queries| ==> AnswersQuery(s.sent[i], s.queries[i])
    ensures |s.sent| > |s.queries| ==> s.sent[|s.queries|] == Failed(None)
    ensures var due := Due(s.queries, s.endedByRecv);
            && s.sent <= due
            && (forall i :: 0 <= i < |due| - 1 ==> due[i].Found?)
            && (s.sender == Returned(false) ==> s.sent == due && due != [] && due[|due| - 1].Failed?)
  {
    RunQueries(Initial(m), events);
    ReachableAnswers(m, events, s);
    ReachableDue(m, events, s);
  }

  /** What can happen when: a writer at any time, a request or its failure while the receiver waits for one. */
  lemma EnabledExactly(s: State, m: Contents, key: Bytes)
    ensures Step(s, WriteStore(m)).Some?
    ensures Step(s, Receive(key)).Some? <==> s.receiver.Receiving?
    ensures Step(s, ReceiveError).Some? <==> s.receiver.Receiving?
    ensures Step(s, Handoff).Some? <==> s.receiver.Offering? && s.sender.Waiting?
    ensures Step(s, SendOk).Some? <==> s.sender.Sending?
    ensures Step(s, SendError).Some? <==> s.sender.Sending?
    ensures Step(s, SeeClosed).Some? <==> s.receiver.Exited? && s.sender.Waiting?
  {
  }

  /** What the sender does next, while it is not blocked for good. */
  function SenderMove(s: State): Event {
    if s.sender.Sending? then SendOk else if s.receiver.Offering? then Handoff else SeeClosed
  }

  /** Moves of the channel and the sender alone, without a failure. */
  predicate Delivering(events: seq<Event>) {
    forall e :: e in events ==> e.Handoff? || e.SendOk? || e.SeeClosed?
  }

  /** What is left to do without a new request: two moves per response on offer, one per one in hand. */
  function Left(s: State): nat {
    (if s.receiver.Offering? then 2 else 0) + (if s.sender.Sending? then 1 else 0)
    + (if s.sender.Returned? then 0 else 1)
  }

  predicate Delivered(s: State) {
    && s.sent == Due(s.queries, s.endedByRecv)
    && s.sender == (if s.receiver.Exited? then Returned(false) else Waiting)
  }

  lemma AllSent(s: State)
    requires Inv(s) && !s.sender.Sending? && s.sender != Returned(true) && !s.receiver.Offering?
    ensures s.sent == Due(s.queries, s.endedByRecv)
  {
    assert s.sent + InFlight(s) == s.sent;
  }

  lemma SenderStep(s: State)
    requires Inv(s) && !s.sender.Returned? && !(s.sender.Waiting? && s.receiver.Receiving?)
    ensures Step(s, SenderMove(s)).Some?
    ensures var s' := Step(s, SenderMove(s)).value;
            Inv(s') && s'.sender != Returned(true) && Left(s') < Left(s)
            && s'.queries == s.queries && s'.endedByRecv == s.endedByRecv
  {
    StepInv(s, SenderMove(s));
  }

  /**
   Unless a send fails, every request that was received gets its answer sent: from any reachable
   state the channel and the sender alone can deliver all that is due, and end the stream if the
   receiver has ended.
   */
  lemma {:induction false} AnswersGetOut(s: State) returns (events: seq<Event>, s': State)
    requires Inv(s) && s.sender != Returned(true)
    ensures Delivering(events) && Run(s, events) == Some(s') && Delivered(s')
    ensures s'.queries == s.queries && s'.endedByRecv == s.endedByRecv
    decreases Left(s)
  {
    if s.sender.Returned? || (s.sender.Waiting? && s.receiver.Receiving?) {
      AllSent(s);
      events, s' := [], s;
    } else {
      SenderStep(s);
      var e, s1 := SenderMove(s), Step(s, SenderMove(s)).value;
      var rest;
      rest, s' := AnswersGetOut(s1);
      events := [e] + rest;
      assert events[1..] == rest;
    }
  }

  /** Nothing is sent after an error response. */
  lemma NothingAfterError(m: Contents, events: seq<Event>, more: seq<Event>, s: State, s': State)
    requires Run(Initial(m), events) == Some(s) && Run(s, more) == Some(s')
    requires s.sent != [] && s.sent[|s.sent| - 1].Failed?
    ensures s'.sent == s.sent && s'.queries == s.queries
  {
    assert Due([], false) == [];
    RunInv(Initial(m), events);
    ErrorFinishes(s);
    FinishedStays(s, more);
  }

  predicate Finished(s: State) {
    s.receiver.Exited? && !s.sender.Sending?
  }

  lemma {:induction false} FinishedStays(s: State, more: seq<Event>)
    requires Finished(s) && Run(s, more).Some?
    ensures Run(s, more).value.sent == s.sent && Run(s, more).value.queries == s.queries
    decreases |more|
  {
    if more != [] {
      FinishedStays(Step(s, more[0]).value, more[1..]);
    }
  }

  lemma ErrorFinishes(s: State)
    requires Inv(s) && s.sent != [] && s.sent[|s.sent| - 1].Failed?
    ensures Finished(s)
  {
    var due := Due(s.queries, s.endedByRecv);
    assert due[|s.sent| - 1] == s.sent[|s.sent| - 1];
    assert |s.sent| == |due|;
  }

  /**
   After a failed send the goroutine never ends unless it already had: nobody receives from the
   channel any more, so it stays blocked on its next response in every continuation.
   */
  lemma {:induction false} FailedSendLeaksReceiver(s: State, more: seq<Event>)
    requires s.sender == Returned(true) && !s.receiver.Exited? && Run(s, more).Some?
    ensures Run(s, more).value.sender == Returned(true) && !Run(s, more).value.receiver.Exited?
    ensures s.receiver.Offering? ==> Run(s, more).value.receiver == s.receiver
    decreases |more|
  {
    if more != [] {
      FailedSendLeaksReceiver(Step(s, more[0]).value, more[1..]);
    }
  }

  /** Some continuation ends the goroutine. */
  ghost predicate CanStillEnd(s: State) {
    exists more :: Run(s, more).Some? && Run(s, more).value.receiver.Exited?
  }

  /**
   A reachable leak: one request, and the client is gone when its answer is sent. The goroutine
   never ends, whatever happens afterwards.
   */
  lemma ReceiverLeaks()
    ensures exists events, s ::
              && Run(Initial(map[]), events) == Some(s) && s.sender == Returned(true)
              && !CanStillEnd(s)
  {
    var events := [Receive([1]), Handoff, SendError];
    var s0 := Initial(map[]);
    var s1 := Step(s0, events[0]).value;
    var s2 := Step(s1, events[1]).value;
    var s := Step(s2, events[2]).value;
    assert Run(s2, [SendError]) == Some(s) by { assert [SendError][1..] == []; }
    assert Run(s1, [Handoff, SendError]) == Some(s) by { assert [Handoff, SendError][1..] == [SendError]; }
    assert Run(s0, events) == Some(s) by { assert events[1..] == [Handoff, SendError]; }
    forall more | Run(s, more).Some?
      ensures !Run(s, more).value.receiver.Exited?
    {
      FailedSendLeaksReceiver(s, more);
    }
  }

  /** The response lost in a failed send is an error exactly when the goroutine has ended. */
  lemma LostIsLast(s: State)
    requires Inv(s) && s.sender == Returned(true)
    ensures |s.sent| < |Due(s.queries, s.endedByRecv)|
    ensures Due(s.queries, s.endedByRecv)[|s.sent|].Failed? <==> s.receiver.Exited?
  {
    assert |InFlight(s)| == if s.receiver.Offering? then 1 else 0;
  }

  /**
   Exactly when it leaks: after a failed send in any run, the goroutine can still end if and only
   if the response that was lost in that send was an error, which is its last.
   */
  lemma ReceiverLeaksExactly(m: Contents, events: seq<Event>, s: State)
    requires Run(Initial(m), events) == Some(s) && s.sender == Returned(true)
    ensures |s.sent| < |Due(s.queries, s.endedByRecv)|
    ensures CanStillEnd(s) <==> Due(s.queries, s.endedByRecv)[|s.sent|].Failed?
  {
    assert Due([], false) == [];
    RunInv(Initial(m), events);
    LostIsLast(s);
    if s.receiver.Exited? {
      var none: seq<Event> := [];
      assert Run(s, none) == Some(s);
      assert CanStillEnd(s);
    } else {
      forall more | Run(s, more).Some?
        ensures !Run(s, more).value.receiver.Exited?
      {
        FailedSendLeaksReceiver(s, more);
      }
    }
  }
}
