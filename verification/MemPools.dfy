/** A pool of memory pages: flags taken with test-and-set from a rotating start, one caller at a time. */
module MemPools {
  import opened Options
  import opened Wrapping

  // ---------------------------------------------------------------- rotating over the indices

  /** The `i`-th index looked at when the last one used was `last`. */
  function Turn(last: int, i: nat, size: nat): (k: int)
    requires size > 0
    ensures 0 <= k < size
  {
    (last + 1 + i) % size
  }

  /** Some turn reaches every index, from any start. */
  function TurnOf(last: int, p: nat, size: nat): (i: nat)
    requires -1 <= last < size && p < size
    ensures i < size
  {
    if p > last then p - last - 1 else p + size - last - 1
  }

  lemma TurnReaches(last: int, p: nat, size: nat)
    requires -1 <= last < size && p < size
    ensures Turn(last, TurnOf(last, p, size), size) == p
  {
    WrapIsMod(last + 1 + TurnOf(last, p, size), size);
  }

  lemma TurnIsReached(last: int, i: nat, size: nat)
    requires -1 <= last < size && i < size
    ensures TurnOf(last, Turn(last, i, size), size) == i
  {
    WrapIsMod(last + 1 + i, size);
  }

  // ---------------------------------------------------------------- one caller at a time

  class MemPool {
    const pages: array<int>  // addresses, all different
    const used: array<bool>
    var lastGet: int
    var lastRelease: int

    ghost predicate Valid()
      reads this, pages, used
    {
      && pages.Length == used.Length > 0
      && -1 <= lastGet < pages.Length && -1 <= lastRelease < pages.Length
      && forall i, j :: 0 <= i < j < pages.Length ==> pages[i] != pages[j]
    }

    constructor (addresses: seq<int>)
      requires addresses != [] && forall i, j :: 0 <= i < j < |addresses| ==> addresses[i] != addresses[j]
      ensures Valid() && fresh(pages) && fresh(used) && pages[..] == addresses && lastGet == -1 && lastRelease == -1
      ensures forall i :: 0 <= i < used.Length ==> !used[i]
    {
      pages := new int[|addresses|](i requires 0 <= i < |addresses| => addresses[i]);
      used := new bool[|addresses|](_ => false);
      lastGet, lastRelease := -1, -1;
    }

    /** The first free page in turn, behind pages that are all in use; nothing exactly when every page is in use. */
    method GetPage() returns (page: Option<int>)
      requires Valid()
      modifies this`lastGet, used
      ensures Valid()
      ensures page.None? <==> AllUsed(old(used[..]))
      ensures page.None? ==> used[..] == old(used[..]) && lastGet == old(lastGet)
      ensures page.Some? ==>
        && 0 <= lastGet && page.value == pages[lastGet] && !old(used[..])[lastGet]
        && used[..] == old(used[..])[lastGet := true]
        && Passed(old(used[..]), old(lastGet), TurnOf(old(lastGet), lastGet, |old(used[..])|))
    {
      ghost var flags := used[..];
      var i := 0;
      while i < pages.Length
        invariant 0 <= i <= pages.Length
        invariant used[..] == flags && lastGet == old(lastGet)
        invariant Passed(flags, lastGet, i)
      {
        var newIx := Turn(lastGet, i, pages.Length);
        assert used[newIx] == flags[newIx];
        if !used[newIx] {
          TurnIsReached(lastGet, i, pages.Length);
          used[newIx] := true;
          lastGet := newIx;
          return Some(pages[newIx]);
        }
        OneMoreUsed(flags, lastGet, i);
        i := i + 1;
      }
      page := None;
    }

    /** Exactly the given page becomes free, and is the last released; an unknown address changes nothing. */
    method ReleasePage(page: int)
      requires Valid()
      modifies this`lastRelease, used
      ensures Valid()
      ensures forall p :: 0 <= p < used.Length ==> used[p] == (old(used[..])[p] && pages[p] != page)
      ensures if page in pages[..] then 0 <= lastRelease && pages[lastRelease] == page else lastRelease == old(lastRelease)
    {
      ghost var flags, table := used[..], pages[..];
      var i := 0;
      while i < pages.Length
        invariant 0 <= i <= pages.Length
        invariant used[..] == flags && lastRelease == old(lastRelease)
        invariant Differs(table, lastRelease, i, page)
      {
        var ix := Turn(lastRelease, i, pages.Length);
        if page == pages[ix] {
          assert forall p :: 0 <= p < used.Length ==> used[p] == flags[p];
          used[ix] := false;
          lastRelease := ix;
          assert page in pages[..];
          return;
        }
        OneMoreDiffers(table, lastRelease, i, page);
        i := i + 1;
      }
      assert forall p :: 0 <= p < used.Length ==> used[p] == flags[p] && pages[p] == table[p];
    }
  }

  ghost predicate AllUsed(used: seq<bool>) { forall p :: 0 <= p < |used| ==> used[p] }

  /** The indices of the first `i` turns are all in use. */
  ghost predicate Passed(used: seq<bool>, last: int, i: nat)
    requires -1 <= last < |used|
  {
    forall p :: 0 <= p < |used| && TurnOf(last, p, |used|) < i ==> used[p]
  }

  lemma OneMoreUsed(used: seq<bool>, last: int, i: nat)
    requires -1 <= last < |used| && i < |used| && Passed(used, last, i) && used[Turn(last, i, |used|)]
    ensures Passed(used, last, i + 1)
  {
    forall p | 0 <= p < |used| && TurnOf(last, p, |used|) < i + 1 ensures used[p] {
      TurnReaches(last, p, |used|);
    }
  }

  ghost predicate Differs(pages: seq<int>, last: int, i: nat, page: int)
    requires -1 <= last < |pages|
  {
    forall p :: 0 <= p < |pages| && TurnOf(last, p, |pages|) < i ==> pages[p] != page
  }

  lemma OneMoreDiffers(pages: seq<int>, last: int, i: nat, page: int)
    requires -1 <= last < |pages| && i < |pages| && Differs(pages, last, i, page) && pages[Turn(last, i, |pages|)] != page
    ensures Differs(pages, last, i + 1, page)
  {
    forall p | 0 <= p < |pages| && TurnOf(last, p, |pages|) < i + 1 ensures pages[p] != page {
      TurnReaches(last, p, |pages|);
    }
  }
}
