/**
 PrefixDB as a namespace (prefixdb.go, prefixdb_batch.go): the view of a source store behind
 a prefix, how operations through the view act on the source, and when two views are
 independent of each other.
 */
module PrefixView {
  import opened ByteStrings
  import opened Store
  import opened OpLog

  /** The keys of a source that belong to the namespace: the bare prefix does not. */
  predicate InNamespace(full: Bytes, p: Bytes) {
    HasPrefix(full, p) && full != p
  }

  /** The stripped keys of the namespace. */
  function Suffixes(m: Contents, p: Bytes): (r: set<Bytes>)
    ensures forall k {:trigger k in r} :: k in r <==> k != [] && p + k in m
  {
    var r := set full | full in m && InNamespace(full, p) :: full[|p|..];
    assert forall k {:trigger k in r} :: k in r <==> k != [] && p + k in m by {
      forall k ensures k in r <==> k != [] && p + k in m {
        PrefixSuffix(p + k, p);
        if k in r {
          var full :| full in m && InNamespace(full, p) && full[|p|..] == k;
          PrefixSuffix(full, p);
        } else if k != [] && p + k in m {
          assert InNamespace(p + k, p);
        }
      }
    }
    r
  }

  /** The store a PrefixDB presents: the source's namespace with the prefix stripped. */
  function View(m: Contents, p: Bytes): Contents {
    map k | k in Suffixes(m, p) :: m[p + k]
  }

  function LiftOp(p: Bytes, op: Op): Op {
    match op
    case Set(k, v) => Set(p + k, v)
    case Delete(k) => Delete(p + k)
  }

  /** The source log behind a log issued through the view. */
  function Lift(p: Bytes, ops: seq<Op>): (r: seq<Op>)
    ensures |r| == |ops|
  {
    seq(|ops|, i requires 0 <= i < |ops| => LiftOp(p, ops[i]))
  }

  predicate ValidLog(ops: seq<Op>) {
    forall i :: 0 <= i < |ops| ==> ops[i].key != []
  }

  lemma ViewAt(m: Contents, p: Bytes, k: Bytes)
    ensures Lookup(View(m, p), k) == if k == [] then None else Lookup(m, p + k)
  {
  }

  lemma PrefixInjective(p: Bytes, a: Bytes, b: Bytes)
    ensures p + a == p + b <==> a == b
  {
    PrefixSuffix(p + a, p);
    PrefixSuffix(p + b, p);
  }

  // ---------------------------------------------------------------- operations through the view

  /** Through the view, a `Set` or `Delete` is a `Set` or `Delete` of the view. */
  lemma ViewOfApply(m: Contents, p: Bytes, op: Op)
    requires op.key != []
    ensures View(Apply(m, LiftOp(p, op)), p) == Apply(View(m, p), op)
  {
    var m' := Apply(m, LiftOp(p, op));
    forall k ensures Lookup(View(m', p), k) == Lookup(Apply(View(m, p), op), k) {
      ViewAt(m', p, k);
      ViewAt(m, p, k);
      PrefixInjective(p, k, op.key);
    }
    SameLookups(View(m', p), Apply(View(m, p), op));
  }

  /** A log, or a batch, through the view acts on the view as on a store of its own. */
  lemma {:induction false} ViewOfApplyAll(m: Contents, p: Bytes, ops: seq<Op>)
    requires ValidLog(ops)
    ensures View(ApplyAll(m, Lift(p, ops)), p) == ApplyAll(View(m, p), ops)
  {
    if ops != [] {
      var front := ops[..|ops| - 1];
      assert Lift(p, ops)[..|ops| - 1] == Lift(p, front);
      ViewOfApplyAll(m, p, front);
      ViewOfApply(ApplyAll(m, Lift(p, front)), p, ops[|ops| - 1]);
    }
  }

  /** Nothing outside the namespace changes. */
  lemma {:induction false} OutsideUntouched(m: Contents, p: Bytes, ops: seq<Op>, full: Bytes)
    requires ValidLog(ops) && !InNamespace(full, p)
    ensures Lookup(ApplyAll(m, Lift(p, ops)), full) == Lookup(m, full)
  {
    if ops != [] {
      var front, last := ops[..|ops| - 1], ops[|ops| - 1];
      assert Lift(p, ops)[..|ops| - 1] == Lift(p, front);
      OutsideUntouched(m, p, front, full);
      PrefixSuffix(p + last.key, p);
      assert InNamespace(p + last.key, p);
    }
  }

  // ---------------------------------------------------------------- isolation

  ghost predicate Unrelated(p: Bytes, q: Bytes) {
    !HasPrefix(p, q) && !HasPrefix(q, p)
  }

  /** No operation through `p` is ever visible through `q`. */
  ghost predicate Isolated(p: Bytes, q: Bytes) {
    forall m: Contents, op: Op :: op.key != [] ==> View(Apply(m, LiftOp(p, op)), q) == View(m, q)
  }

  lemma {:induction false} CommonPrefixes(k: Bytes, p: Bytes, q: Bytes)
    requires HasPrefix(k, p) && HasPrefix(k, q)
    ensures !Unrelated(p, q)
  {
    if |p| <= |q| {
      assert q[..|p|] == k[..|q|][..|p|] == k[..|p|];
    } else {
      assert p[..|q|] == k[..|p|][..|q|] == k[..|q|];
    }
  }

  lemma UnrelatedViews(m: Contents, p: Bytes, q: Bytes, ops: seq<Op>)
    requires Unrelated(p, q) && ValidLog(ops)
    ensures View(ApplyAll(m, Lift(p, ops)), q) == View(m, q)
  {
    var m' := ApplyAll(m, Lift(p, ops));
    forall k ensures Lookup(View(m', q), k) == Lookup(View(m, q), k) {
      ViewAt(m', q, k);
      ViewAt(m, q, k);
      PrefixSuffix(q + k, q);
      if InNamespace(q + k, p) { CommonPrefixes(q + k, p, q); }
      OutsideUntouched(m, p, ops, q + k);
    }
    SameLookups(View(m', q), View(m, q));
  }

  /** A write through `p` that a view behind `q` sees, when both namespaces share a key. */
  lemma SharedKeyInterferes(p: Bytes, s: Bytes, q: Bytes, r: Bytes)
    requires s != [] && r != [] && p + s == q + r
    ensures !Isolated(p, q)
  {
    var none: Contents := map[];
    var op := Set(s, []);
    var some := Apply(none, LiftOp(p, op));
    ViewAt(some, q, r);
    ViewAt(none, q, r);
    assert Lookup(View(some, q), r) != Lookup(View(none, q), r);
  }

  lemma RelatedViewsInterfere(p: Bytes, q: Bytes)
    requires !Unrelated(p, q)
    ensures !Isolated(p, q)
  {
    if HasPrefix(q, p) {
      var s := q[|p|..];
      assert p + (s + [0]) == q + [0];
      SharedKeyInterferes(p, s + [0], q, [0]);
    } else {
      var r := p[|q|..];
      assert q + (r + [0]) == p + [0];
      SharedKeyInterferes(p, [0], q, r + [0]);
    }
  }

  /** Two views are isolated if and only if neither prefix is a prefix of the other. */
  lemma IsolationExact(p: Bytes, q: Bytes)
    ensures Isolated(p, q) <==> Unrelated(p, q)
  {
    if Unrelated(p, q) {
      forall m: Contents, op: Op | op.key != [] ensures View(Apply(m, LiftOp(p, op)), q) == View(m, q) {
        UnrelatedViews(m, p, q, [op]);
        assert Lift(p, [op]) == [LiftOp(p, op)];
        assert ApplyAll(m, [LiftOp(p, op)]) == Apply(ApplyAll(m, []), LiftOp(p, op));
      }
    } else {
      RelatedViewsInterfere(p, q);
    }
  }

  /** A write through one of two PrefixDBs over the same source: one operation, or a batch. */
  datatype ViewWrite = ViewWrite(left: bool, ops: seq<Op>)

  predicate ValidWrites(ws: seq<ViewWrite>) {
    forall i :: 0 <= i < |ws| ==> ValidLog(ws[i].ops)
  }

  function Play(m: Contents, p: Bytes, q: Bytes, ws: seq<ViewWrite>): Contents {
    if ws == [] then m
    else
      var w := ws[|ws| - 1];
      ApplyAll(Play(m, p, q, ws[..|ws| - 1]), Lift(if w.left then p else q, w.ops))
  }

  /** The operations one side issued, in order. */
  function SideOf(ws: seq<ViewWrite>, left: bool): seq<Op> {
    if ws == [] then []
    else SideOf(ws[..|ws| - 1], left) + (if ws[|ws| - 1].left == left then ws[|ws| - 1].ops else [])
  }

  /**
   In any interleaving of writes and batches through two unrelated views of one source, each
   view evolves as if it were alone, and every key outside both namespaces keeps its value.
   */
  lemma {:induction false} NamespaceIsolation(m: Contents, p: Bytes, q: Bytes, ws: seq<ViewWrite>)
    requires Unrelated(p, q) && ValidWrites(ws)
    ensures View(Play(m, p, q, ws), p) == ApplyAll(View(m, p), SideOf(ws, true))
    ensures View(Play(m, p, q, ws), q) == ApplyAll(View(m, q), SideOf(ws, false))
    ensures forall full :: !InNamespace(full, p) && !InNamespace(full, q)
                           ==> Lookup(Play(m, p, q, ws), full) == Lookup(m, full)
  {
    if ws != [] {
      var front, w := ws[..|ws| - 1], ws[|ws| - 1];
      NamespaceIsolation(m, p, q, front);
      var before := Play(m, p, q, front);
      var here, there := if w.left then p else q, if w.left then q else p;
      ViewOfApplyAll(before, here, w.ops);
      UnrelatedViews(before, here, there, w.ops);
      ApplyAllConcat(View(m, here), SideOf(front, w.left), w.ops);
      assert SideOf(ws, !w.left) == SideOf(front, !w.left);
      forall full | !InNamespace(full, p) && !InNamespace(full, q)
        ensures Lookup(Play(m, p, q, ws), full) == Lookup(m, full)
      {
        OutsideUntouched(before, here, w.ops, full);
      }
    }
  }

  // ---------------------------------------------------------------- nesting

  /** A view of a view is the view behind the concatenated prefix. */
  lemma ViewOfView(m: Contents, p1: Bytes, p2: Bytes)
    ensures View(View(m, p1), p2) == View(m, p1 + p2)
  {
    forall k ensures Lookup(View(View(m, p1), p2), k) == Lookup(View(m, p1 + p2), k) {
      ViewOfViewAt(m, p1, p2, k);
    }
    SameLookups(View(View(m, p1), p2), View(m, p1 + p2));
  }

  lemma ViewOfViewAt(m: Contents, p1: Bytes, p2: Bytes, k: Bytes)
    ensures Lookup(View(View(m, p1), p2), k) == Lookup(View(m, p1 + p2), k)
  {
    var inner := View(m, p1);
    ViewAt(m, p1, p2 + k);
    assert p1 + (p2 + k) == (p1 + p2) + k;
    ViewAt(inner, p2, k);
    ViewAt(m, p1 + p2, k);
  }

  /** Nested PrefixDBs write to the source what the flat one writes. */
  lemma LiftOfLift(p1: Bytes, p2: Bytes, ops: seq<Op>)
    ensures Lift(p1, Lift(p2, ops)) == Lift(p1 + p2, ops)
  {
    forall i | 0 <= i < |ops| ensures LiftOp(p1, LiftOp(p2, ops[i])) == LiftOp(p1 + p2, ops[i]) {
      assert p1 + (p2 + ops[i].key) == (p1 + p2) + ops[i].key;
    }
  }

  /** A stack of PrefixDBs over a source, the prefix next to the source first. */
  function Through(m: Contents, ps: seq<Bytes>): Contents {
    if ps == [] then m else View(Through(m, ps[..|ps| - 1]), ps[|ps| - 1])
  }

  /** What a log given to the top of the stack is at the source. */
  function Down(ps: seq<Bytes>, ops: seq<Op>): seq<Op> {
    if ps == [] then ops else Down(ps[..|ps| - 1], Lift(ps[|ps| - 1], ops))
  }

  function Path(ps: seq<Bytes>): Bytes {
    if ps == [] then [] else Path(ps[..|ps| - 1]) + ps[|ps| - 1]
  }

  lemma {:induction false} ThroughIsView(m: Contents, ps: seq<Bytes>)
    requires ps != []
    ensures Through(m, ps) == View(m, Path(ps))
  {
    var front, last := ps[..|ps| - 1], ps[|ps| - 1];
    if front == [] {
      assert Path(ps) == [] + last == last;
    } else {
      ThroughIsView(m, front);
      ViewOfView(m, Path(front), last);
    }
  }

  lemma {:induction false} DownIsLift(ps: seq<Bytes>, ops: seq<Op>)
    ensures Down(ps, ops) == Lift(Path(ps), ops)
  {
    if ps == [] {
      forall i | 0 <= i < |ops| ensures LiftOp([], ops[i]) == ops[i] {
        assert [] + ops[i].key == ops[i].key;
      }
    } else {
      DownIsLift(ps[..|ps| - 1], Lift(ps[|ps| - 1], ops));
      LiftOfLift(Path(ps[..|ps| - 1]), ps[|ps| - 1], ops);
    }
  }

  /** A call on the top of the stack: a read, or a write that is one operation or a batch. */
  datatype Call = Read(key: Bytes) | Write(ops: seq<Op>)

  predicate ValidCalls(calls: seq<Call>) {
    forall i :: 0 <= i < |calls| && calls[i].Write? ==> ValidLog(calls[i].ops)
  }

  /** A session of calls: the source it leaves behind, and what the reads returned. */
  function Session(m: Contents, ps: seq<Bytes>, calls: seq<Call>): (Contents, seq<Option<Bytes>>) {
    if calls == [] then (m, [])
    else
      var (m', answers) := Session(m, ps, calls[..|calls| - 1]);
      match calls[|calls| - 1]
      case Read(k) => (m', answers + [Lookup(Through(m', ps), k)])
      case Write(ops) => (ApplyAll(m', Down(ps, ops)), answers)
  }

  /** Through PrefixDBs nested to any depth, any session is the one through a single flat PrefixDB. */
  lemma {:induction false} NestedSessionIsFlat(m: Contents, ps: seq<Bytes>, calls: seq<Call>)
    requires ps != []
    ensures Session(m, ps, calls) == Session(m, [Path(ps)], calls)
  {
    if calls != [] {
      NestedSessionIsFlat(m, ps, calls[..|calls| - 1]);
      var flat := [Path(ps)];
      assert flat[..0] == [] && Path(flat) == [] + Path(ps) == Path(ps);
      match calls[|calls| - 1]
      case Read(k) =>
        var m' := Session(m, ps, calls[..|calls| - 1]).0;
        ThroughIsView(m', ps);
        ThroughIsView(m', flat);
      case Write(ops) =>
        DownIsLift(ps, ops);
        DownIsLift(flat, ops);
    }
  }

  /** And any session through them is the one on a store of its own that starts as their view. */
  lemma {:induction false} SessionOnOwnStore(m: Contents, ps: seq<Bytes>, calls: seq<Call>)
    requires ps != [] && ValidCalls(calls)
    ensures Session(m, ps, calls).1 == Session(Through(m, ps), [], calls).1
    ensures Through(Session(m, ps, calls).0, ps) == Session(Through(m, ps), [], calls).0
  {
    if calls != [] {
      SessionOnOwnStore(m, ps, calls[..|calls| - 1]);
      if calls[|calls| - 1].Write? {
        var m' := Session(m, ps, calls[..|calls| - 1]).0;
        var ops := calls[|calls| - 1].ops;
        DownIsLift(ps, ops);
        ThroughIsView(m', ps);
        ThroughIsView(ApplyAll(m', Down(ps, ops)), ps);
        ViewOfApplyAll(m', Path(ps), ops);
      }
    }
  }

  // ---------------------------------------------------------------- what a session computes

  /** The writes of a session, in order. */
  function Writes(calls: seq<Call>): seq<Op> {
    if calls == [] then []
    else Writes(calls[..|calls| - 1]) + (if calls[|calls| - 1].Write? then calls[|calls| - 1].ops else [])
  }

  function ReadCount(calls: seq<Call>): nat {
    if calls == [] then 0
    else ReadCount(calls[..|calls| - 1]) + (if calls[|calls| - 1].Read? then 1 else 0)
  }

  lemma {:induction false} LiftConcat(p: Bytes, a: seq<Op>, b: seq<Op>)
    ensures Lift(p, a + b) == Lift(p, a) + Lift(p, b)
  {
  }

  /** The source after a session: the prefixed writes, in order, over the source before it. */
  lemma {:induction false} SessionSource(m: Contents, ps: seq<Bytes>, calls: seq<Call>)
    ensures Session(m, ps, calls).0 == ApplyAll(m, Lift(Path(ps), Writes(calls)))
  {
    if calls != [] {
      var front, last := calls[..|calls| - 1], calls[|calls| - 1];
      SessionSource(m, ps, front);
      if last.Write? {
        DownIsLift(ps, last.ops);
        LiftConcat(Path(ps), Writes(front), last.ops);
        ApplyAllConcat(m, Lift(Path(ps), Writes(front)), Lift(Path(ps), last.ops));
      } else {
        assert Writes(calls) == Writes(front) + [] == Writes(front);
      }
    }
  }

  lemma {:induction false} WritesValid(calls: seq<Call>)
    requires ValidCalls(calls)
    ensures ValidLog(Writes(calls))
  {
    if calls != [] {
      WritesValid(calls[..|calls| - 1]);
    }
  }

  lemma SessionView(m: Contents, ps: seq<Bytes>, calls: seq<Call>)
    requires ps != [] && ValidCalls(calls)
    ensures Through(Session(m, ps, calls).0, ps) == ApplyAll(View(m, Path(ps)), Writes(calls))
  {
    SessionSource(m, ps, calls);
    ThroughIsView(Session(m, ps, calls).0, ps);
    WritesValid(calls);
    ViewOfApplyAll(m, Path(ps), Writes(calls));
  }

  lemma {:induction false} SessionCount(m: Contents, ps: seq<Bytes>, calls: seq<Call>)
    ensures |Session(m, ps, calls).1| == ReadCount(calls)
  {
    if calls != [] {
      SessionCount(m, ps, calls[..|calls| - 1]);
    }
  }

  lemma {:induction false} SessionReadAt(m: Contents, ps: seq<Bytes>, calls: seq<Call>, i: nat)
    requires ps != [] && ValidCalls(calls) && i < |calls| && calls[i].Read?
    ensures ReadCount(calls[..i]) < |Session(m, ps, calls).1|
    ensures Session(m, ps, calls).1[ReadCount(calls[..i])]
         == Lookup(ApplyAll(View(m, Path(ps)), Writes(calls[..i])), calls[i].key)
  {
    var front := calls[..|calls| - 1];
    if i < |front| {
      assert front[..i] == calls[..i];
      SessionReadAt(m, ps, front, i);
    } else {
      assert front == calls[..i];
      SessionCount(m, ps, front);
      SessionView(m, ps, front);
    }
  }

  /**
   Every read of a session through PrefixDBs nested to any depth returns what the writes of the
   session before it, folded over the view it began with, give its key; and the view ends up as
   the fold of them all.
   */
  lemma SessionReads(m: Contents, ps: seq<Bytes>, calls: seq<Call>)
    requires ps != [] && ValidCalls(calls)
    ensures Through(Session(m, ps, calls).0, ps) == ApplyAll(View(m, Path(ps)), Writes(calls))
    ensures |Session(m, ps, calls).1| == ReadCount(calls)
    ensures forall i :: 0 <= i < |calls| && calls[i].Read? ==>
                          && ReadCount(calls[..i]) < |Session(m, ps, calls).1|
                          && Session(m, ps, calls).1[ReadCount(calls[..i])]
                             == Lookup(ApplyAll(View(m, Path(ps)), Writes(calls[..i])), calls[i].key)
  {
    SessionView(m, ps, calls);
    SessionCount(m, ps, calls);
    forall i | 0 <= i < |calls| && calls[i].Read?
      ensures ReadCount(calls[..i]) < |Session(m, ps, calls).1|
      ensures Session(m, ps, calls).1[ReadCount(calls[..i])]
           == Lookup(ApplyAll(View(m, Path(ps)), Writes(calls[..i])), calls[i].key)
    {
      SessionReadAt(m, ps, calls, i);
    }
  }
}
