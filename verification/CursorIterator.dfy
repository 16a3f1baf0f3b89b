/**
 Iterators over a storage cursor (goleveldb_iterator.go, rocksdb_iterator.go): positioning
 with Seek, First, Last and Prev, the bound check in `Valid`, and the memo `isInvalid`. The
 cursor of GoLevelDB is limited to the range, the one of RocksDB is not.
 */
module CursorIterator {
  import opened ByteStrings
  import opened KeyDomain
  import opened Store
  import opened Iterators

  // ---------------------------------------------------------------- positions in sorted items

  /** The number of items below `k`, which is the position of the first item at or above it. */
  function LowerBound(t: seq<Item>, k: Bytes): (n: nat)
    ensures n <= |t|
  {
    if t == [] then 0
    else if Less(t[|t| - 1].key, k) then |t|
    else LowerBound(t[..|t| - 1], k)
  }

  lemma {:induction false} LowerBoundSplits(t: seq<Item>, k: Bytes, i: nat)
    requires Sorted(t) && i < |t|
    ensures i < LowerBound(t, k) <==> Less(t[i].key, k)
  {
    var last := t[|t| - 1];
    if Less(last.key, k) {
      if i < |t| - 1 { LessTransitive(t[i].key, last.key, k); }
    } else if i < |t| - 1 {
      LowerBoundSplits(t[..|t| - 1], k, i);
    }
  }

  function Low(t: seq<Item>, start: Option<Bytes>): nat {
    if start.None? then 0 else LowerBound(t, start.value)
  }

  function High(t: seq<Item>, end: Option<Bytes>): (n: nat)
    ensures n <= |t|
  {
    if end.None? then |t| else LowerBound(t, end.value)
  }

  function Slice(t: seq<Item>, lo: int, hi: int): seq<Item> {
    if 0 <= lo <= hi <= |t| then t[lo..hi] else []
  }

  lemma InDomainByPosition(t: seq<Item>, start: Option<Bytes>, end: Option<Bytes>, i: nat)
    requires Sorted(t) && i < |t|
    ensures IsKeyInDomain(t[i].key, start, end) <==> Low(t, start) <= i < High(t, end)
  {
    Trichotomy(t[i].key, []);
    if start.Some? {
      Trichotomy(t[i].key, start.value);
      LowerBoundSplits(t, start.value, i);
    }
    if end.Some? {
      Trichotomy(t[i].key, end.value);
      LowerBoundSplits(t, end.value, i);
    }
  }

  lemma SliceMembers(t: seq<Item>, start: Option<Bytes>, end: Option<Bytes>, it: Item)
    requires Sorted(t)
    ensures it in Slice(t, Low(t, start), High(t, end)) <==> it in t && IsKeyInDomain(it.key, start, end)
  {
    var lo, hi := Low(t, start), High(t, end);
    var s := Slice(t, lo, hi);
    if it in s {
      var j :| 0 <= j < |s| && s[j] == it;
      InDomainByPosition(t, start, end, lo + j);
    }
    if it in t {
      var i :| 0 <= i < |t| && t[i] == it;
      InDomainByPosition(t, start, end, i);
      if lo <= i < hi { assert s[i - lo] == it; }
    }
  }

  /** The slice between the two positions is the range, in either direction. */
  lemma SliceEnumerates(t: seq<Item>, start: Option<Bytes>, end: Option<Bytes>, reverse: bool)
    requires Sorted(t)
    ensures Enumerates(Directed(Slice(t, Low(t, start), High(t, end)), reverse), ToMap(t), start, end, reverse)
  {
    var s := Slice(t, Low(t, start), High(t, end));
    if Low(t, start) <= High(t, end) { MonotoneSlice(t, Low(t, start), High(t, end), false); }
    ReverseMonotone(s);
    forall it: Item ensures it in s <==> InRange(it, ToMap(t), start, end) {
      ToMapMembers(t, it);
      SliceMembers(t, start, end, it);
    }
  }

  /** What lies ahead of position `pos` inside `[lo, hi)`, in the direction of travel. */
  function Ahead(t: seq<Item>, lo: int, hi: int, pos: int, reverse: bool): seq<Item> {
    if reverse then Reverse(Slice(t, lo, pos + 1)) else Slice(t, pos, hi)
  }

  lemma AheadAll(t: seq<Item>, lo: int, hi: int, reverse: bool)
    ensures Ahead(t, lo, hi, if reverse then hi - 1 else lo, reverse) == Directed(Slice(t, lo, hi), reverse)
  {
  }

  lemma AheadStep(t: seq<Item>, lo: int, hi: int, pos: int, reverse: bool)
    requires 0 <= lo <= pos < hi <= |t|
    ensures Ahead(t, lo, hi, pos, reverse)
         == [t[pos]] + Ahead(t, lo, hi, pos + (if reverse then -1 else 1), reverse)
  {
    if reverse {
      assert t[lo..pos + 1] == t[lo..pos] + [t[pos]];
      ReverseSnoc(t[lo..pos], t[pos]);
    } else {
      assert t[pos..hi] == [t[pos]] + t[pos + 1..hi];
    }
  }

  // ---------------------------------------------------------------- the cursor

  /** A library cursor over sorted items. After `moves` more moves the storage reports an error. */
  class Cursor {
    const items: seq<Item>
    var pos: int                        // -1 before the first item, |items| after the last
    var moves: nat
    var failed: bool

    ghost predicate Ok()
      reads this
    {
      Sorted(items) && -1 <= pos <= |items|
    }

    predicate Valid()
      reads this
    {
      0 <= pos < |items|
    }

    constructor (items: seq<Item>, moves: nat)
      requires Sorted(items)
      ensures Ok() && this.items == items && this.moves == moves && !failed
    {
      this.items, this.moves := items, moves;
      pos, failed := -1, false;
    }

    /** One move: it fails exactly when the storage has failed before or fails now. */
    method MoveTo(target: int)
      requires Ok() && -1 <= target <= |items|
      modifies this
      ensures Ok() && (failed <==> old(failed) || old(moves) == 0)
      ensures !failed ==> pos == target && moves == old(moves) - 1
    {
      if failed || moves == 0 {
        failed := true;
      } else {
        moves := moves - 1;
        pos := target;
      }
    }

    /** Moves to the first item at or above `k`; false when there is none, or on an error. */
    method Seek(k: Bytes) returns (found: bool)
      requires Ok()
      modifies this
      ensures Ok() && (failed <==> old(failed) || old(moves) == 0)
      ensures !failed ==> pos == LowerBound(items, k) && moves == old(moves) - 1
      ensures found <==> !failed && pos < |items|
    {
      MoveTo(LowerBound(items, k));
      found := !failed && pos < |items|;
    }
  }

  /** How many moves positioning takes: a reverse iterator with an end seeks it and steps back. */
  function PlacingMoves(end: Option<Bytes>, reverse: bool): nat {
    if reverse && end.Some? then 2 else 1
  }

  /**
   The positioning of a new iterator: on the first item of the range in the direction of travel, or
   next to where it would be. It fails exactly when the storage does within these moves.
   */
  method Position(source: Cursor, start: Option<Bytes>, end: Option<Bytes>, isReverse: bool)
    requires source.Ok()
    modifies source
    ensures source.Ok()
    ensures source.failed <==> old(source.failed) || old(source.moves) < PlacingMoves(end, isReverse)
    ensures !source.failed ==> source.moves == old(source.moves) - PlacingMoves(end, isReverse)
    ensures !source.failed ==> source.pos == if isReverse then High(source.items, end) - 1 else Low(source.items, start)
  {
    if isReverse {
      if end.None? {
        source.MoveTo(|source.items| - 1);              // Last
      } else {
        var found := source.Seek(end.value);
        if found {
          var eoakey := source.items[source.pos].key;   // end or after key
          LowerBoundSplits(source.items, end.value, source.pos);
          Trichotomy(end.value, eoakey);
          if Compare(end.value, eoakey) <= 0 {
            source.MoveTo(source.pos - 1);              // Prev
          }
        } else {
          source.MoveTo(|source.items| - 1);            // Last
        }
      }
    } else {
      if start.None? {
        source.MoveTo(0);                               // First
      } else {
        var found := source.Seek(start.value);
      }
    }
  }

  // ---------------------------------------------------------------- the iterator

  class CursorIterator {
    const source: Cursor
    const start: Option<Bytes>
    const end: Option<Bytes>
    const isReverse: bool
    var isInvalid: bool

    /** The cursor stands inside the bounds that `Valid` checks. */
    predicate InBounds()
      reads this, source
    {
      && !source.failed
      && source.Valid()
      && (if isReverse then start.Some? ==> !Less(source.items[source.pos].key, start.value)
          else end.Some? ==> Less(source.items[source.pos].key, end.value))
    }

    /** While the storage is fine the cursor has not overrun the far end of the range. */
    ghost predicate Placed()
      reads this, source
    {
      if isReverse then source.pos < High(source.items, end) else Low(source.items, start) <= source.pos
    }

    /** The memo is redundant: it is only set once the cursor is out of bounds, for good. */
    ghost predicate Ok()
      reads this, source
    {
      source.Ok() && (isInvalid ==> !InBounds()) && (!source.failed ==> Placed())
    }

    /** What the iterator has still to yield, the current item first. */
    ghost function Remaining(): seq<Item>
      reads this, source
      requires Ok()
    {
      if source.failed then []
      else Ahead(source.items, Low(source.items, start), High(source.items, end), source.pos, isReverse)
    }

    /** The whole range, as far as the cursor's items go. */
    ghost function Range(): seq<Item> {
      Directed(Slice(source.items, Low(source.items, start), High(source.items, end)), isReverse)
    }

    /** `newGoLevelDBIterator` and `newRocksDBIterator`: positioning. */
    constructor (source: Cursor, start: Option<Bytes>, end: Option<Bytes>, isReverse: bool)
      requires source.Ok() && !source.failed
      modifies source
      ensures Ok() && this.source == source
      ensures this.start == start && this.end == end && this.isReverse == isReverse
      ensures source.failed <==> old(source.moves) < PlacingMoves(end, isReverse)
      ensures !source.failed ==> source.moves == old(source.moves) - PlacingMoves(end, isReverse)
      ensures Remaining() == if source.failed then [] else Range()
    {
      this.source, this.start, this.end, this.isReverse, isInvalid := source, start, end, isReverse, false;
      new;
      Position(source, start, end, isReverse);
      AheadAll(source.items, Low(source.items, start), High(source.items, end), isReverse);
    }

    /** `Valid`'s bound check sees exactly whether the cursor is still between the two positions. */
    lemma BoundsAreRange()
      requires Ok() && !source.failed
      ensures InBounds() <==> Low(source.items, start) <= source.pos < High(source.items, end)
    {
      var t, i := source.items, source.pos;
      if 0 <= i < |t| {
        if start.Some? { LowerBoundSplits(t, start.value, i); }
        if end.Some? { LowerBoundSplits(t, end.value, i); }
      }
    }

    /** In bounds the cursor stands on the first of the remaining items; otherwise none remain. */
    lemma InBoundsMeansMore()
      requires Ok()
      ensures InBounds() <==> Remaining() != []
      ensures InBounds() ==> Remaining()[0] == source.items[source.pos]
    {
      if !source.failed {
        BoundsAreRange();
        var lo, hi := Low(source.items, start), High(source.items, end);
        if InBounds() {
          AheadStep(source.items, lo, hi, source.pos, isReverse);
        }
      }
    }

    /** `Valid`: the memo first, then the source's error, its validity and the bound. */
    method Valid() returns (r: bool)
      requires Ok()
      modifies this`isInvalid
      ensures Ok() && Remaining() == old(Remaining())
      ensures r <==> InBounds()
      ensures r <==> Remaining() != []
    {
      InBoundsMeansMore();
      if isInvalid {
        return false;
      }
      if source.failed {
        isInvalid := true;
        return false;
      }
      if !source.Valid() {
        isInvalid := true;
        return false;
      }
      var key := source.items[source.pos].key;
      if isReverse {
        if start.Some? && Compare(key, start.value) < 0 {
          CompareRange(key, start.value);
          isInvalid := true;
          return false;
        }
      } else {
        if end.Some? && Compare(end.value, key) <= 0 {
          Trichotomy(key, end.value);
          isInvalid := true;
          return false;
        }
        if end.Some? { Trichotomy(key, end.value); }
      }
      return true;
    }

    /**
     `Next`: panics on an invalid iterator and otherwise drops the current item. The validity check
     runs on a copy of the iterator, so it never sets the memo.
     */
    method Next() returns (panicked: bool)
      requires Ok()
      modifies source
      ensures Ok()
      ensures panicked <==> !old(InBounds())
      ensures panicked ==> unchanged(source)
      ensures !panicked ==> old(Remaining()) != []
                            && Remaining() == if source.failed then [] else old(Remaining())[1..]
      ensures !panicked ==> (source.failed <==> old(source.moves) == 0)
                            && (!source.failed ==> source.moves == old(source.moves) - 1)
    {
      if !InBounds() { return true; }
      BoundsAreRange();
      AheadStep(source.items, Low(source.items, start), High(source.items, end), source.pos, isReverse);
      source.MoveTo(source.pos + (if isReverse then -1 else 1));
      return false;
    }
  }

  lemma TakeOne(out: seq<Item>, rest: seq<Item>, all: seq<Item>)
    requires rest != [] && out + rest == all
    ensures out + [rest[0]] + rest[1..] == all && out + [rest[0]] <= all && |out| < |all|
  {
  }

  /**
   What the caller's loop collects out of `all` when the storage allows `moves` more moves, and
   whether it ends with an error: one move follows each item, so a failure comes after the item
   that was current.
   */
  function Collected(all: seq<Item>, moves: int): (seq<Item>, bool) {
    if moves < 0 then ([], true)
    else if moves < |all| then (all[..moves + 1], true)
    else (all, false)
  }

  /** The caller's loop: all that remained if the storage holds, a prefix and an error exactly if not. */
  method Drain(itr: CursorIterator) returns (out: seq<Item>, err: bool)
    requires itr.Ok()
    modifies itr`isInvalid, itr.source
    ensures itr.Ok() && err == itr.source.failed
    ensures (out, err) == Collected(old(itr.Remaining()), if old(itr.source.failed) then -1 else old(itr.source.moves))
  {
    ghost var all, budget := itr.Remaining(), itr.source.moves;
    out := [];
    var ok := itr.Valid();
    while ok
      invariant itr.Ok() && (ok <==> itr.InBounds()) && (ok <==> itr.Remaining() != [])
      invariant itr.source.failed && !old(itr.source.failed) ==> |out| == budget + 1 && out <= all
      invariant itr.source.failed && old(itr.source.failed) ==> out == []
      invariant !itr.source.failed ==> !old(itr.source.failed) && out + itr.Remaining() == all
      invariant !itr.source.failed ==> itr.source.moves == budget - |out|
      decreases |itr.Remaining()|
    {
      itr.InBoundsMeansMore();
      TakeOne(out, itr.Remaining(), all);
      out := out + [itr.source.items[itr.source.pos]];
      var panicked := itr.Next();
      ok := itr.Valid();
    }
    err := itr.source.failed;
    if !err {
      assert out == out + [] == all;
    } else if !old(itr.source.failed) {
      assert out == all[..budget + 1];
    }
  }

  // ---------------------------------------------------------------- the two backends

  /** Two sorted structures hold the same items in a domain. */
  ghost predicate AgreeOn(c: seq<Item>, t: seq<Item>, start: Option<Bytes>, end: Option<Bytes>) {
    forall it: Item :: IsKeyInDomain(it.key, start, end) ==> (it in c <==> it in t)
  }

  /** It makes no difference which of two cursors is enumerated when they agree on the domain. */
  lemma AgreeingCursors(out: seq<Item>, c: seq<Item>, t: seq<Item>, start: Option<Bytes>, end: Option<Bytes>, reverse: bool)
    requires Sorted(c) && Sorted(t) && AgreeOn(c, t, start, end)
    ensures Enumerates(out, ToMap(c), start, end, reverse) <==> Enumerates(out, ToMap(t), start, end, reverse)
  {
    forall it: Item ensures InRange(it, ToMap(c), start, end) <==> InRange(it, ToMap(t), start, end) {
      ToMapMembers(c, it);
      ToMapMembers(t, it);
    }
  }

  /**
   A full iteration over any cursor that agrees with the stored items on the domain: exactly the
   range when the storage holds for all its moves, and exactly the part before the failure if not.
   */
  method Iterate(t: seq<Item>, cursor: Cursor, start: Option<Bytes>, end: Option<Bytes>, reverse: bool)
    returns (out: seq<Item>, err: bool)
    requires Sorted(t) && cursor.Ok() && !cursor.failed && AgreeOn(cursor.items, t, start, end)
    modifies cursor
    ensures (out, err)
         == Collected(Directed(Within(t, start, end), reverse), old(cursor.moves) - PlacingMoves(end, reverse))
  {
    var itr := new CursorIterator(cursor, start, end, reverse);
    SliceEnumerates(cursor.items, start, end, reverse);
    AgreeingCursors(itr.Range(), cursor.items, t, start, end, reverse);
    WithinEnumerates(t, start, end, reverse);
    EnumerationUnique(itr.Range(), Directed(Within(t, start, end), reverse), ToMap(t), start, end, reverse);
    out, err := Drain(itr);
  }

  /** What either backend's iterator gives a caller who runs it to its end. */
  function Expected(t: seq<Item>, start: Option<Bytes>, end: Option<Bytes>, reverse: bool, moves: nat)
    : Result<(seq<Item>, bool)>
  {
    if !ValidEndpoints(start, end) then Err(KeyEmpty)
    else Ok(Collected(Directed(Within(t, start, end), reverse), moves - PlacingMoves(end, reverse)))
  }

  /** GoLevelDB's `Iterator` and `ReverseIterator`: a cursor limited to the range. */
  method GoLevelDBIterate(t: seq<Item>, start: Option<Bytes>, end: Option<Bytes>, reverse: bool, moves: nat)
    returns (r: Result<(seq<Item>, bool)>)
    requires Sorted(t)
    ensures r == Expected(t, start, end, reverse, moves)
  {
    if (start.Some? && |start.value| == 0) || (end.Some? && |end.value| == 0) {
      return Err(KeyEmpty);
    }
    WithinMonotone(t, start, end);
    forall it: Item ensures it in Within(t, start, end) <==> it in t && IsKeyInDomain(it.key, start, end) {
      WithinMembers(t, start, end, it);
    }
    var cursor := new Cursor(Within(t, start, end), moves);
    var out, err := Iterate(t, cursor, start, end, reverse);
    return Ok((out, err));
  }

  /** RocksDB's `Iterator` and `ReverseIterator`: a cursor over everything, the same result. */
  method RocksDBIterate(t: seq<Item>, start: Option<Bytes>, end: Option<Bytes>, reverse: bool, moves: nat)
    returns (r: Result<(seq<Item>, bool)>)
    requires Sorted(t)
    ensures r == Expected(t, start, end, reverse, moves)
  {
    if (start.Some? && |start.value| == 0) || (end.Some? && |end.value| == 0) {
      return Err(KeyEmpty);
    }
    var cursor := new Cursor(t, moves);
    var out, err := Iterate(t, cursor, start, end, reverse);
    return Ok((out, err));
  }

  /**
   The limited and the unlimited cursor agree: over storage that holds, both backends yield the same
   enumeration of the domain and no error; over storage that fails they stop at the same item.
   */
  method BackendsAgree(t: seq<Item>, start: Option<Bytes>, end: Option<Bytes>, reverse: bool, moves: nat)
    returns (limited: Result<(seq<Item>, bool)>, unlimited: Result<(seq<Item>, bool)>)
    requires Sorted(t)
    ensures limited == unlimited
    ensures limited.Err? <==> !ValidEndpoints(start, end)
    ensures limited.Ok? ==>
              exists full ::
                && Enumerates(full, ToMap(t), start, end, reverse)
                && limited.value.0 <= full
                && (limited.value.1 <==> moves < |full| + PlacingMoves(end, reverse))
                && (!limited.value.1 ==> limited.value.0 == full)
  {
    limited := GoLevelDBIterate(t, start, end, reverse, moves);
    unlimited := RocksDBIterate(t, start, end, reverse, moves);
    WithinEnumerates(t, start, end, reverse);
  }
}
