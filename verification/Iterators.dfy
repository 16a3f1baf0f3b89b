/**
 The `Iterator` interface (types.go): an iterator positioned on a sequence of items that it
 has still to yield, and the loop that callers write around it.
 */
module Iterators {
  import opened ByteStrings
  import opened Store

  datatype Error = KeyEmpty | ValueNil | BatchClosed | UnknownOperation

  datatype Result<+T> = Ok(value: T) | Err(error: Error)

  /** An iterator as its user sees it. `Key`, `Value` and `Next` panic when it is not valid. */
  class SourceIterator {
    const items: seq<Item>
    var pos: nat

    ghost predicate Ok()
      reads this
    {
      pos <= |items|
    }

    ghost function Remaining(): seq<Item>
      reads this
      requires Ok()
    {
      items[pos..]
    }

    constructor (items: seq<Item>)
      ensures Ok() && this.items == items && pos == 0
    {
      this.items := items;
      pos := 0;
    }

    predicate Valid()
      reads this
    {
      pos < |items|
    }

    function Key(): Bytes
      reads this
      requires Valid()
    {
      items[pos].key
    }

    function Value(): Bytes
      reads this
      requires Valid()
    {
      items[pos].value
    }

    method Next()
      requires Valid()
      modifies this
      ensures Ok() && pos == old(pos) + 1
    {
      pos := pos + 1;
    }
  }
}
