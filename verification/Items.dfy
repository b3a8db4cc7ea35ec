/**
  Items kept by the permanent FIFO, and the two notions everything about them is
  stated with: being in id order, and the part of a sequence above a given id.
 */
module Items {

  /** One FIFO item: the id given when it was written and its bytes (never empty). */
  datatype Item = Item(id: nat, data: seq<char>)

  ghost predicate Sorted(s: seq<Item>) {
    forall i, j :: 0 <= i < j < |s| ==> s[i].id < s[j].id
  }

  ghost predicate AllAbove(s: seq<Item>, id: nat) {
    forall i :: 0 <= i < |s| ==> s[i].id > id
  }

  ghost predicate NoneAbove(s: seq<Item>, id: nat) {
    forall i :: 0 <= i < |s| ==> s[i].id <= id
  }

  /** The items with an id greater than `id`, in order. */
  function Above(s: seq<Item>, id: nat): seq<Item> {
    if s == [] then []
    else if s[0].id > id then [s[0]] + Above(s[1..], id)
    else Above(s[1..], id)
  }

  function Payloads(s: seq<Item>): (r: seq<seq<char>>)
    ensures |r| == |s|
    ensures forall i :: 0 <= i < |s| ==> r[i] == s[i].data
  {
    seq(|s|, i requires 0 <= i < |s| => s[i].data)
  }

  /** `Above` selects exactly the members above the bound. */
  lemma {:induction false} AboveMembers(s: seq<Item>, id: nat, x: Item)
    ensures x in Above(s, id) <==> x in s && x.id > id
  {
    if s != [] {
      AboveMembers(s[1..], id, x);
      assert s == [s[0]] + s[1..];
    }
  }

  lemma AboveHead(x: Item, s: seq<Item>, id: nat)
    ensures Above([x] + s, id) == (if x.id > id then [x] else []) + Above(s, id)
  {
    assert ([x] + s)[1..] == s;
    assert [] + Above(s, id) == Above(s, id);
  }

  lemma {:induction false} AboveConcat(a: seq<Item>, b: seq<Item>, id: nat)
    ensures Above(a + b, id) == Above(a, id) + Above(b, id)
  {
    if a == [] {
      assert a + b == b;
    } else {
      AboveConcat(a[1..], b, id);
      AboveHead(a[0], a[1..], id);
      AboveHead(a[0], a[1..] + b, id);
      assert a == [a[0]] + a[1..] && a + b == [a[0]] + (a[1..] + b);
      Associates(if a[0].id > id then [a[0]] else [], Above(a[1..], id), Above(b, id));
    }
  }

  lemma Associates(a: seq<Item>, b: seq<Item>, c: seq<Item>)
    ensures a + (b + c) == (a + b) + c
  {
  }

  lemma {:induction false} AboveAllAbove(s: seq<Item>, id: nat)
    ensures AllAbove(Above(s, id), id)
  {
    if s != [] {
      AboveAllAbove(s[1..], id);
    }
  }

  lemma {:induction false} AboveAll(s: seq<Item>, id: nat)
    requires AllAbove(s, id)
    ensures Above(s, id) == s
  {
    if s != [] {
      AboveAll(s[1..], id);
    }
  }

  lemma {:induction false} AboveNone(s: seq<Item>, id: nat)
    requires NoneAbove(s, id)
    ensures Above(s, id) == []
  {
    if s != [] {
      AboveNone(s[1..], id);
    }
  }

  /** Filtering twice keeps what is above both bounds. */
  lemma {:induction false} AboveTwice(s: seq<Item>, a: nat, b: nat)
    ensures Above(Above(s, a), b) == Above(s, if a < b then b else a)
  {
    if s != [] {
      AboveTwice(s[1..], a, b);
      if s[0].id > a {
        assert Above(s, a)[1..] == Above(s[1..], a);
      }
    }
  }

  /** In id order, what is above a bound is a suffix, cut at the first item above it. */
  lemma {:induction false} AboveIsSuffix(s: seq<Item>, id: nat) returns (k: nat)
    requires Sorted(s)
    ensures k <= |s|
    ensures NoneAbove(s[..k], id) && AllAbove(s[k..], id)
    ensures Above(s, id) == s[k..]
  {
    if s == [] || s[0].id > id {
      k := 0;
      AboveAll(s, id);
    } else {
      var k' := AboveIsSuffix(s[1..], id);
      k := k' + 1;
      assert s[..k] == [s[0]] + s[1..][..k'];
      assert s[k..] == s[1..][k'..];
    }
  }

  /** Records already known to lie at or below the bound can be skipped. */
  lemma AboveSkip(s: seq<Item>, n: nat, id: nat)
    requires n <= |s| && NoneAbove(s[..n], id)
    ensures Above(s[n..], id) == Above(s, id)
  {
    AboveConcat(s[..n], s[n..], id);
    AboveNone(s[..n], id);
    assert s == s[..n] + s[n..];
  }

  /** Removing the head of an ordered sequence is raising the bound to the head's id. */
  lemma AboveAdvance(s: seq<Item>, id: nat)
    requires Sorted(s) && Above(s, id) != []
    ensures Above(s, Above(s, id)[0].id) == Above(s, id)[1..]
  {
    var k := AboveIsSuffix(s, id);
    assert s[k..][0] == s[k] && s[k..][1..] == s[k + 1..];
    AboveSkip(s, k + 1, s[k].id);
    AboveAll(s[k + 1..], s[k].id);
  }

  lemma AboveSorted(s: seq<Item>, id: nat)
    requires Sorted(s)
    ensures Sorted(Above(s, id))
  {
    var k := AboveIsSuffix(s, id);
  }

  lemma SortedConcat(a: seq<Item>, b: seq<Item>)
    requires Sorted(a) && Sorted(b)
    requires a == [] || b == [] || a[|a| - 1].id < b[0].id
    ensures Sorted(a + b)
  {
    forall i, j | 0 <= i < j < |a + b| ensures (a + b)[i].id < (a + b)[j].id {
      if i < |a| <= j {
        assert a[i].id <= a[|a| - 1].id;
        assert b[0].id <= b[j - |a|].id;
      }
    }
  }

  lemma SliceOfSuffix(s: seq<Item>, k: nat, m: nat)
    requires k + m <= |s|
    ensures s[k..][..m] == s[k..k + m]
  {
  }
}
