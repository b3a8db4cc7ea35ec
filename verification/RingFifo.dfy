/** The ring in place, as one thread sees it when the other is between calls. */
module RingFifo {
  import opened Options
  import R = Ring

  class Fifo<T> {
    const size: nat
    const data: array<Option<T>>  // one slot more than the ring holds
    var indexStart: nat           // last element popped
    var indexEnd: nat             // last element pushed
    ghost var contents: seq<T>

    ghost predicate Valid()
      reads this, data
    {
      && data.Length == size + 1 && indexStart <= size && indexEnd <= size
      && |contents| == R.Count(size, indexStart, indexEnd)
      && forall i :: 0 <= i < |contents| ==> data[R.Slot(size, indexStart, i)] == Some(contents[i])
    }

    constructor (size: nat)
      ensures Valid() && this.size == size && contents == [] && fresh(data)
    {
      this.size := size;
      data := new Option<T>[size + 1](_ => None);
      indexStart, indexEnd, contents := 0, 0, [];
    }

    /** Refused exactly when the ring holds `size` elements. */
    method Push(item: T) returns (ok: bool)
      requires Valid()
      modifies this`indexEnd, this`contents, data
      ensures Valid() && ok == (|old(contents)| < size)
      ensures contents == if ok then old(contents) + [item] else old(contents)
    {
      var target := indexEnd + 1;
      if target > size { target := 0; }
      if target == indexStart { return false; }
      forall i | 0 <= i < |contents| ensures R.Slot(size, indexStart, i) != target {}
      assert R.Slot(size, indexStart, |contents|) == target;
      data[target] := Some(item);
      indexEnd, contents := target, contents + [item];
      ok := true;
    }

    /** Refused exactly when the ring is empty; the slot is cleared. */
    method Pop() returns (item: Option<T>)
      requires Valid()
      modifies this`indexStart, this`contents, data
      ensures Valid() && (item.None? <==> old(contents) == [])
      ensures item.Some? ==> item.value == old(contents)[0] && contents == old(contents)[1..]
      ensures item.None? ==> contents == old(contents)
    {
      if indexEnd == indexStart { return None; }
      var start := indexStart + 1;
      if start > size { start := 0; }
      assert R.Slot(size, indexStart, 0) == start;
      forall i | 0 < i < |contents| ensures R.Slot(size, indexStart, i) == R.Slot(size, start, i - 1) != start {}
      item := data[start];
      data[start] := None;
      indexStart, contents := start, contents[1..];
    }

    method Front() returns (item: Option<T>)
      requires Valid()
      ensures item == if contents == [] then None else Some(contents[0])
    {
      if indexEnd == indexStart { return None; }
      var first := (indexStart + 1) % (size + 1);
      assert first == R.Slot(size, indexStart, 0) by {
        if indexStart < size { assert (indexStart + 1) % (size + 1) == indexStart + 1; }
      }
      item := data[first];
    }

    method Slots() returns (free: int, used: int, full: bool, empty: bool)
      requires Valid()
      ensures used == |contents| && free == size - |contents|
      ensures full == (|contents| == size) && empty == (contents == [])
    {
      free := R.FreeSlots(size, indexStart, indexEnd);
      used := size - free;
      full := R.IsFull(size, indexStart, indexEnd);
      empty := indexEnd == indexStart;
    }
  }
}
