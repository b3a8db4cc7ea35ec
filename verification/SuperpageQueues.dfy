/** The superpage queue in place. */
module SuperpageQueues {
  import opened Options
  import opened Superpages

  class SuperpageQueue {
    const registry: array<Entry>
    var pushing: seq<nat>
    var arrivals: seq<nat>
    var filled: seq<nat>
    var nextId: nat
    var numberOfEntries: int

    ghost function View(): State
      reads this, registry
    {
      State(registry[..], pushing, arrivals, filled, nextId, numberOfEntries)
    }

    constructor (max: nat)
      requires 0 < max <= 256
      ensures fresh(registry) && registry.Length == max
      ensures Inv(View()) && Orderly(View()) && numberOfEntries == 0
    {
      registry := new Entry[max](_ => Entry(0, false, 0, 0));
      pushing, arrivals, filled, nextId, numberOfEntries := [], [], [], 0, 0;
      new;
      Clear();
    }

    method Clear()
      modifies this, registry
      ensures View() == Initial(old(registry[..]))
    {
      ghost var before := registry[..];
      for i := 0 to registry.Length
        invariant registry[i..] == before[i..]
        invariant forall k :: 0 <= k < i ==> registry[k] == before[k].(pushed := INVALID)
      {
        assert registry[i] == registry[i..][0] == before[i..][0] == before[i];
        ghost var rest := registry[i..][1..];
        registry[i] := registry[i].(pushed := INVALID);
        assert registry[i + 1..] == rest == before[i + 1..];
      }
      pushing, arrivals, filled, nextId, numberOfEntries := [], [], [], 0, 0;
      assert registry[..] == Initial(before).registry;
    }

    method AddToQueue(e: Entry) returns (id: Option<nat>)
      requires Inv(View()) && ValidEntry(e)
      modifies this, registry
      ensures (View(), id) == Add(old(View()), e) && Inv(View())
      ensures Orderly(old(View())) ==> Orderly(View())
    {
      AddKeeps(View(), e);
      if Orderly(View()) { AddOrderly(View(), e); }
      if numberOfEntries == registry.Length { return None; }
      if ValidEntry(registry[nextId]) { return None; }
      id := Some(nextId);
      pushing, arrivals := PushBack(pushing, nextId, registry.Length), PushBack(arrivals, nextId, registry.Length);
      registry[nextId] := e;
      nextId, numberOfEntries := (nextId + 1) % registry.Length, numberOfEntries + 1;
    }

    /** The entry of an id; absent when the slot is not in use. */
    method GetEntry(id: nat) returns (e: Option<Entry>)
      ensures e == Lookup(View(), id)
    {
      e := if id < registry.Length && ValidEntry(registry[id]) then Some(registry[id]) else None;
    }

    method RemoveFromPushingQueue() returns (id: Option<nat>)
      requires Inv(View())
      modifies this`pushing
      ensures (View(), id) == RemovePushing(old(View())) && Inv(View())
      ensures Orderly(old(View())) ==> Orderly(View())
    {
      RemovePushingKeeps(View());
      if Orderly(View()) { RemovePushingOrderly(View()); }
      if pushing == [] { return None; }
      var e := GetEntry(pushing[0]);
      if e.None? || e.value.pushed != e.value.maxPages { return None; }
      id := Some(pushing[0]);
      pushing := pushing[1..];
    }

    method MoveFromArrivalsToFilledQueue() returns (id: Option<nat>)
      requires Inv(View())
      modifies this`arrivals, this`filled
      ensures (View(), id) == MoveToFilled(old(View())) && Inv(View()) && Live(View()) == old(Live(View()))
    {
      MoveKeeps(View());
      if arrivals == [] { return None; }
      var e := GetEntry(arrivals[0]);
      if e.None? || !e.value.ready { return None; }
      id := Some(arrivals[0]);
      filled, arrivals := PushBack(filled, arrivals[0], registry.Length), arrivals[1..];
    }

    method RemoveFromFilledQueue() returns (e: Option<Entry>)
      requires Inv(View())
      modifies this, registry
      ensures (View(), e) == RemoveFilled(old(View())) && Inv(View())
      ensures Orderly(old(View())) ==> (Orderly(View()) <==> old(filled) == [] || old(filled)[0] !in pushing)
    {
      RemoveKeeps(View());
      if Orderly(View()) { RemoveOrderlyIff(View()); }
      if filled == [] { return None; }
      e := GetEntry(filled[0]);
      if e.None? { return; }
      registry[filled[0]] := e.value.(pushed := INVALID);
      numberOfEntries := numberOfEntries - 1;
      filled := filled[1..];
    }

    /** The oldest live superpage. */
    method GetFrontSuperpage() returns (e: Option<Entry>)
      requires Inv(View())
      ensures e.None? <==> numberOfEntries == 0
      ensures e.Some? ==> Live(View()) != [] && Live(View())[0] < registry.Length && e.value == registry[Live(View())[0]]
    {
      if numberOfEntries == 0 { return None; }
      EndsAreOldestAndYoungest(View());
      var id := if filled != [] then filled[0] else arrivals[0];
      assert id == Live(View())[0] && id in Live(View());
      e := GetEntry(id);
    }

    /** The back of the first queue that has one: the youngest live id while the pushing queue is in order. */
    method GetBackSuperpageId() returns (id: Option<nat>)
      requires Inv(View())
      ensures id == BackId(View()) && (id.None? <==> numberOfEntries == 0 && pushing == [])
      ensures Orderly(View()) ==> (id.None? <==> numberOfEntries == 0)
      ensures Orderly(View()) && id.Some? ==> Live(View()) != [] && id.value == Live(View())[|Live(View())| - 1]
    {
      if pushing != [] { return Some(pushing[|pushing| - 1]); }
      if arrivals != [] { return Some(arrivals[|arrivals| - 1]); }
      if filled != [] { return Some(filled[|filled| - 1]); }
      id := None;
    }
  }
}
