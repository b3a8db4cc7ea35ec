/** The pages of a DMA buffer: cutting it up, and one call of the readout loop. */
module DmaPages {

  // ---------------------------------------------------------------- cutting the buffer into pages

  /** Offsets of the first `n` pages. */
  function Offsets(n: nat, size: nat): (s: seq<int>)
    ensures |s| == n
  {
    if n == 0 then [] else Offsets(n - 1, size) + [(n - 1) * size]
  }

  lemma {:induction false} OffsetAt(n: nat, size: nat, i: nat)
    requires i < n
    ensures Offsets(n, size)[i] == i * size
  {
    if i < n - 1 { OffsetAt(n - 1, size, i); }
  }

  const INT_LIMIT: int := 0x8000_0000

  /** Fill the free ring. Offsets are computed as `int`. */
  method CutIntoPages(memorySize: nat, pageSize: nat) returns (free: seq<int>)
    requires pageSize > 0 && (memorySize / pageSize) * pageSize < INT_LIMIT
    ensures free == Offsets(memorySize / pageSize, pageSize)
  {
    free := [];
    for i := 0 to memorySize / pageSize
      invariant free == Offsets(i, pageSize)
    {
      free := free + [i * pageSize];
    }
  }

  /** Different pages do not overlap, and all lie inside the buffer. */
  lemma PagesDisjoint(memorySize: nat, size: nat, i: nat, j: nat)
    requires size > 0 && i < j < memorySize / size
    ensures var o := Offsets(memorySize / size, size); 0 <= o[i] && o[i] + size <= o[j] && o[j] + size <= memorySize
  {
    var n := memorySize / size;
    OffsetAt(n, size, i);
    OffsetAt(n, size, j);
    Scale(i, j, size);
    Scale(j, n, size);
    assert n * size <= memorySize;
  }

  lemma Scale(i: nat, j: nat, size: nat)
    requires i < j
    ensures i * size + size <= j * size
  {
    assert (j - i - 1) * size >= 0;
    assert j * size == i * size + size + (j - i - 1) * size;
  }

  lemma {:induction false} OffsetOnce(n: nat, size: nat, p: int)
    requires size > 0
    ensures multiset(Offsets(n, size))[p] <= 1
    ensures p in multiset(Offsets(n, size)) ==> p < n * size
  {
    if n > 0 {
      OffsetOnce(n - 1, size, p);
      Scale(n - 1, n, size);
      assert multiset(Offsets(n, size)) == multiset(Offsets(n - 1, size)) + multiset{(n - 1) * size};
    }
  }

  // ---------------------------------------------------------------- one call of the readout loop

  class Equipment {
    var free: seq<int>
    var driver: seq<int>
    var out: seq<int>
    const outCapacity: nat

    constructor (memorySize: nat, pageSize: nat, outCapacity: nat)
      requires pageSize > 0 && (memorySize / pageSize) * pageSize < INT_LIMIT
      ensures free == Offsets(memorySize / pageSize, pageSize) && driver == [] && out == []
      ensures this.outCapacity == outCapacity
    {
      this.outCapacity, driver, out := outCapacity, [], [];
      new;
      free := CutIntoPages(memorySize, pageSize);
    }

    /** Give free pages to the driver while it takes them. */
    method GivePages(available: nat) returns (given: nat)
      modifies this`free, this`driver
      ensures given == if available < |old(free)| then available else |old(free)|
      ensures free == old(free)[given..] && driver == old(driver) + old(free)[..given]
    {
      given := 0;
      while given < available
        invariant given <= available && given <= |old(free)|
        invariant free == old(free)[given..] && driver == old(driver) + old(free)[..given]
      {
        if free == [] { return; }
        driver := driver + [free[0]];
        free := free[1..];
        given := given + 1;
      }
    }

    /** Collect filled pages, until one is not filled, no container can be made, or the output queue is full. */
    method CollectPages(filled: nat, failAt: nat) returns (n: nat)
      requires |out| <= outCapacity
      modifies this`driver, this`out
      ensures n <= |old(driver)| && n <= filled && n <= failAt && |out| <= outCapacity
      ensures n == |old(driver)| || n == filled || n == failAt || |out| == outCapacity
      ensures driver == old(driver)[n..] && out == old(out) + old(driver)[..n]
    {
      n := 0;
      while |out| < outCapacity && driver != []
        invariant n <= |old(driver)| && n <= filled && n <= failAt && |out| <= outCapacity
        invariant driver == old(driver)[n..] && out == old(out) + old(driver)[..n]
        decreases |driver|
      {
        if n == filled { break; }
        if n == failAt { break; }
        out := out + [driver[0]];
        driver := driver[1..];
        n := n + 1;
      }
    }

    /**
      `populateFifoOut`: the driver is given free pages while it takes them, and then filled pages are
      collected up to one of the four reasons to stop; pages keep their order, and none is lost.
     */
    method PopulateFifoOut(available: nat, filled: nat, failAt: nat) returns (isActive: bool)
      requires |out| <= outCapacity
      modifies this
      ensures out + driver + free == old(out + driver + free)
      ensures var given := if available < |old(free)| then available else |old(free)|;
        var held, n := old(driver) + old(free)[..given], |out| - |old(out)|;
        && free == old(free)[given..]
        && 0 <= n <= |held| && out == old(out) + held[..n] && driver == held[n..]
        && n <= filled && n <= failAt && |out| <= outCapacity
        && (n == |held| || n == filled || n == failAt || |out| == outCapacity)
        && (isActive <==> given > 0 || n > 0)
    {
      ghost var f, d, o := free, driver, out;
      var given := GivePages(available);
      assert driver + free == d + f by {
        assert f == f[..given] + f[given..];
      }
      ghost var held := driver;
      var n := CollectPages(filled, failAt);
      assert out + driver == o + held by {
        assert held == held[..n] + held[n..];
      }
      assert out + driver + free == o + (held + free);
      assert o + (d + f) == o + d + f;
      isActive := given > 0 || n > 0;
      assert |out| == |o| + n;
    }
  }
}
