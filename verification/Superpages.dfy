/** The queue of superpages of a DMA channel: a registry of entries and three queues of ids into it. */
module Superpages {
  import opened Options
  import opened Wrapping

  /** A superpage, how many of its pages have been pushed, and how many can be. */
  datatype Entry = Entry(page: int, ready: bool, pushed: int, maxPages: int)

  datatype State = State(
    registry: seq<Entry>, pushing: seq<nat>, arrivals: seq<nat>, filled: seq<nat>, next: nat, count: int)

  const INVALID := -1

  predicate ValidEntry(e: Entry) { e.pushed != INVALID }

  /** A circular buffer that is full loses its oldest element. */
  function PushBack(q: seq<nat>, id: nat, capacity: nat): seq<nat> {
    if |q| < capacity then q + [id] else if q == [] then q else q[1..] + [id]
  }

  // ---------------------------------------------------------------- operations; None stands for an exception

  function Initial(registry: seq<Entry>): State
  {
    State(seq(|registry|, i requires 0 <= i < |registry| => registry[i].(pushed := INVALID)), [], [], [], 0, 0)
  }

  function Add(s: State, e: Entry): (State, Option<nat>) {
    var max := |s.registry|;
    if s.count == max || s.next >= max || ValidEntry(s.registry[s.next]) then (s, None)
    else (State(s.registry[s.next := e], PushBack(s.pushing, s.next, max), PushBack(s.arrivals, s.next, max), s.filled,
                (s.next + 1) % max, s.count + 1), Some(s.next))
  }

  /** The entry of an id, for the channel to read and write. */
  function Lookup(s: State, id: nat): Option<Entry> {
    if id < |s.registry| && ValidEntry(s.registry[id]) then Some(s.registry[id]) else None
  }

  /** The channel writes an entry: pages pushed, pages arrived, ready; never another page. */
  function Touch(s: State, id: nat, pushed: int, ready: bool): State {
    if Lookup(s, id).None? then s
    else s.(registry := s.registry[id := s.registry[id].(pushed := pushed, ready := ready)])
  }

  function RemovePushing(s: State): (State, Option<nat>) {
    if s.pushing == [] then (s, None)
    else
      match Lookup(s, s.pushing[0])
      case None => (s, None)
      case Some(e) => if e.pushed != e.maxPages then (s, None) else (s.(pushing := s.pushing[1..]), Some(s.pushing[0]))
  }

  function MoveToFilled(s: State): (State, Option<nat>) {
    if s.arrivals == [] then (s, None)
    else
      match Lookup(s, s.arrivals[0])
      case None => (s, None)
      case Some(e) =>
        if !e.ready then (s, None)
        else (s.(filled := PushBack(s.filled, s.arrivals[0], |s.registry|), arrivals := s.arrivals[1..]), Some(s.arrivals[0]))
  }

  function RemoveFilled(s: State): (State, Option<Entry>) {
    if s.filled == [] then (s, None)
    else
      match Lookup(s, s.filled[0])
      case None => (s, None)
      case Some(e) =>
        (s.(registry := s.registry[s.filled[0] := e.(pushed := INVALID)], filled := s.filled[1..], count := s.count - 1),
         Some(e))
  }

  function FrontId(s: State): Option<nat> {
    if s.filled != [] then Some(s.filled[0])
    else if s.arrivals != [] then Some(s.arrivals[0])
    else if s.pushing != [] then Some(s.pushing[0])
    else None
  }

  function BackId(s: State): Option<nat> {
    if s.pushing != [] then Some(s.pushing[|s.pushing| - 1])
    else if s.arrivals != [] then Some(s.arrivals[|s.arrivals| - 1])
    else if s.filled != [] then Some(s.filled[|s.filled| - 1])
    else None
  }

  // ---------------------------------------------------------------- the run of live ids

  /** Ids in the order in which they were added. */
  function Live(s: State): seq<nat> { s.filled + s.arrivals }

  /** The live ids are consecutive modulo the capacity and end before the next one; exactly their entries are valid. */
  ghost predicate Inv(s: State) {
    var max, live := |s.registry|, Live(s);
    && max > 0 && s.next < max
    && s.count == |live| <= max
    && (forall k :: 0 <= k < |live| ==> live[k] == Wrap(s.next + max - |live| + k, max))
    && (forall id :: 0 <= id < max ==> (ValidEntry(s.registry[id]) <==> id in live))
    && |s.pushing| <= max && forall k :: 0 <= k < |s.pushing| ==> s.pushing[k] < max
  }

  /** Consecutive ids are different as long as there are no more than the capacity. */
  lemma LiveDistinct(s: State, j: nat, k: nat)
    requires Inv(s) && j < k < |Live(s)|
    ensures Live(s)[j] != Live(s)[k]
  {
  }

  /** The next id is free unless the queue is full. */
  lemma NextIsFree(s: State)
    requires Inv(s)
    ensures s.next in Live(s) <==> s.count == |s.registry|
  {
    if s.count == |s.registry| {
      assert Live(s)[0] == s.next;
    }
  }

  // ---------------------------------------------------------------- what each operation does

  lemma AddLive(s: State, e: Entry)
    requires Inv(s) && s.count < |s.registry|
    ensures var (t, id) := Add(s, e);
      id == Some(s.next) && Live(t) == Live(s) + [s.next] && t.next == Wrap(s.next + 1, |s.registry|) && t.arrivals == s.arrivals + [s.next]
  {
    NextIsFree(s);
    WrapIsMod(s.next + 1, |s.registry|);
    assert s.filled + (s.arrivals + [s.next]) == (s.filled + s.arrivals) + [s.next];
  }

  /** Adding fails exactly when the queue is full; it never overwrites a live entry. */
  lemma AddKeeps(s: State, e: Entry)
    requires Inv(s) && ValidEntry(e)
    ensures var (t, id) := Add(s, e);
      && Inv(t) && (id.None? <==> s.count == |s.registry|) && (id.None? ==> t == s)
      && (id.Some? ==> Live(t) == Live(s) + [id.value] && id.value !in Live(s) && t.registry == s.registry[id.value := e])
  {
    NextIsFree(s);
    if s.count < |s.registry| {
      AddLive(s, e);
      var t := Add(s, e).0;
      var max := |s.registry|;
      forall k | 0 <= k < |Live(t)| ensures Live(t)[k] == Wrap(t.next + max - |Live(t)| + k, max) {
        if k < |Live(s)| {
          assert Live(t)[k] == Live(s)[k];
        }
      }
    }
  }

  lemma TouchKeeps(s: State, id: nat, pushed: int, ready: bool)
    requires Inv(s) && pushed != INVALID
    ensures var t := Touch(s, id, pushed, ready);
      && Inv(t) && Live(t) == Live(s) && t.pushing == s.pushing
      && |t.registry| == |s.registry|
      && forall i :: 0 <= i < |s.registry| ==>
           t.registry[i] == if i == id && id in Live(s) then Entry(s.registry[i].page, ready, pushed, s.registry[i].maxPages)
                            else s.registry[i]
  {
  }

  /** The front of the pushing queue leaves it, and its id is returned, exactly when it is live and completely pushed. */
  lemma RemovePushingKeeps(s: State)
    requires Inv(s)
    ensures var (t, id) := RemovePushing(s);
      && Inv(t) && Live(t) == Live(s) && t.registry == s.registry
      && (id.Some? <==>
            && s.pushing != [] && s.pushing[0] in Live(s)
            && s.registry[s.pushing[0]].pushed == s.registry[s.pushing[0]].maxPages)
      && (if id.Some? then s.pushing == [id.value] + t.pushing else t == s)
  {
  }

  /** The front of the arrivals goes to the back of the filled pages exactly when it is ready. */
  lemma MoveKeeps(s: State)
    requires Inv(s)
    ensures s.arrivals != [] ==> s.arrivals[0] < |s.registry|
    ensures var (t, id) := MoveToFilled(s);
      && Inv(t) && Live(t) == Live(s) && t.registry == s.registry
      && (id.Some? <==> s.arrivals != [] && s.registry[s.arrivals[0]].ready)
      && (if id.Some? then s.arrivals == [id.value] + t.arrivals && t.filled == s.filled + [id.value] else t == s)
  {
    if s.arrivals != [] {
      assert Live(s)[|s.filled|] == s.arrivals[0];
      assert (s.filled + [s.arrivals[0]]) + s.arrivals[1..] == Live(s);
    }
  }

  /** Removing takes the oldest page; its registry slot becomes free. */
  lemma RemoveKeeps(s: State)
    requires Inv(s)
    ensures var (t, e) := RemoveFilled(s);
      && Inv(t) && (e.None? <==> s.filled == []) && (e.None? ==> t == s)
      && (e.Some? ==> && Live(s) != [] && Live(t) == Live(s)[1..] && e.value == s.registry[Live(s)[0]]
                      && forall id :: 0 <= id < |s.registry| && id != Live(s)[0] ==> t.registry[id] == s.registry[id])
  {
    if s.filled != [] {
      var t := RemoveFilled(s).0;
      assert Live(s)[0] == s.filled[0];
      assert s.filled[1..] + s.arrivals == Live(s)[1..];
      forall k | 0 < k < |Live(s)| ensures Live(s)[k] != Live(s)[0] { LiveDistinct(s, 0, k); }
    }
  }

  // ---------------------------------------------------------------- the pushing queue

  /** The pages still being pushed are the youngest live ones. */
  ghost predicate Orderly(s: State) { Youngest(s.pushing, Live(s)) }

  lemma AddOrderly(s: State, e: Entry)
    requires Inv(s) && ValidEntry(e) && Orderly(s)
    ensures var (t, id) := Add(s, e);
      && Orderly(t)
      && (id.Some? ==> t.pushing == s.pushing + [id.value] && t.arrivals == s.arrivals + [id.value] && t.filled == s.filled)
  {
    AddKeeps(s, e);
    if s.count < |s.registry| {
      AddLive(s, e);
    }
  }

  lemma RemovePushingOrderly(s: State)
    requires Inv(s) && Orderly(s)
    ensures Orderly(RemovePushing(s).0)
    ensures RemovePushing(s).1.Some? <==>
      s.pushing != [] && s.registry[s.pushing[0]].pushed == s.registry[s.pushing[0]].maxPages
  {
    if s.pushing != [] {
      var live := Live(s);
      assert s.pushing[0] == live[|live| - |s.pushing|];
      assert s.pushing[0] in live;
      assert s.pushing[1..] == live[|live| - |s.pushing| + 1..];
    }
  }

  ghost predicate Youngest(p: seq<nat>, live: seq<nat>) {
    |p| <= |live| && p == live[|live| - |p|..]
  }

  /** Order is lost exactly when a page is removed that is still in the pushing queue. */
  lemma RemoveOrderlyIff(s: State)
    requires Inv(s) && Orderly(s)
    ensures Orderly(RemoveFilled(s).0) <==> s.filled == [] || s.filled[0] !in s.pushing
  {
    RemoveKeeps(s);
    if s.filled != [] {
      assert Live(s)[0] == s.filled[0];
    }
  }

  /** A queue of one page, filled while it is still being pushed: removing it leaves its id in the pushing queue. */
  lemma RemovedWhilePushing()
    ensures var s := State([Entry(7, true, 0, 1)], [0], [], [0], 0, 1);
      && Inv(s) && Orderly(s) && RemoveFilled(s).1 == Some(Entry(7, true, 0, 1))
      && !Orderly(RemoveFilled(s).0) && BackId(RemoveFilled(s).0) == Some(0) && RemoveFilled(s).0.count == 0
  {
    var s := State([Entry(7, true, 0, 1)], [0], [], [0], 0, 1);
    assert Live(s) == [0];
    RemoveOrderlyIff(s);
  }

  /** The front id is the oldest live one, and the back id the youngest while the pushing queue is in order. */
  lemma EndsAreOldestAndYoungest(s: State)
    requires Inv(s) && s.count > 0
    ensures FrontId(s) == Some(Live(s)[0])
    ensures Orderly(s) ==> BackId(s) == Some(Live(s)[|Live(s)| - 1])
  {
  }

  // ---------------------------------------------------------------- whole runs

  datatype Op =
    | OpAdd(e: Entry)
    | OpTouch(id: nat, pushed: int, ready: bool)
    | OpRemovePushing
    | OpMoveToFilled
    | OpRemoveFilled

  /** The queue, the pages added so far and the pages removed so far. */
  datatype World = World(s: State, added: seq<int>, removed: seq<int>)

  ghost predicate Allowed(op: Op) {
    match op
    case OpAdd(e) => ValidEntry(e)
    case OpTouch(_, pushed, _) => pushed != INVALID
    case _ => true
  }

  function Step(w: World, op: Op): World {
    match op
    case OpAdd(e) =>
      var (t, id) := Add(w.s, e);
      w.(s := t, added := if id.Some? then w.added + [e.page] else w.added)
    case OpTouch(id, pushed, ready) => w.(s := Touch(w.s, id, pushed, ready))
    case OpRemovePushing => w.(s := RemovePushing(w.s).0)
    case OpMoveToFilled => w.(s := MoveToFilled(w.s).0)
    case OpRemoveFilled =>
      var (t, e) := RemoveFilled(w.s);
      w.(s := t, removed := if e.Some? then w.removed + [e.value.page] else w.removed)
  }

  ghost predicate InRange(s: State) { forall k :: 0 <= k < |Live(s)| ==> Live(s)[k] < |s.registry| }

  /** The pages of the live entries, oldest first. */
  ghost predicate LivePages(s: State, pages: seq<int>) {
    && InRange(s) && |pages| == |Live(s)|
    && forall k :: 0 <= k < |pages| ==> s.registry[Live(s)[k]].page == pages[k]
  }

  /** Pages are removed in the order in which they were added, and those in between are the live ones. */
  ghost predicate RunInv(w: World) {
    && Inv(w.s)
    && |w.removed| <= |w.added| && w.removed == w.added[..|w.removed|]
    && LivePages(w.s, w.added[|w.removed|..])
  }

  lemma AddRun(w: World, e: Entry)
    requires RunInv(w) && ValidEntry(e)
    ensures RunInv(Step(w, OpAdd(e)))
  {
    var s := w.s;
    AddKeeps(s, e);
    var (t, id) := Add(s, e);
    if id.Some? {
      var pages := w.added[|w.removed|..];
      assert (w.added + [e.page])[|w.removed|..] == pages + [e.page];
      forall k | 0 <= k < |pages| ensures t.registry[Live(t)[k]].page == pages[k] {
        assert Live(t)[k] == Live(s)[k] && Live(s)[k] in Live(s);
      }
    }
  }

  lemma TouchRun(w: World, id: nat, pushed: int, ready: bool)
    requires RunInv(w) && pushed != INVALID
    ensures RunInv(Step(w, OpTouch(id, pushed, ready)))
  {
    TouchKeeps(w.s, id, pushed, ready);
  }

  lemma RemoveRun(w: World)
    requires RunInv(w)
    ensures RunInv(Step(w, OpRemoveFilled))
  {
    var s := w.s;
    RemoveKeeps(s);
    var (t, e) := RemoveFilled(s);
    if e.Some? {
      var n := |w.removed|;
      var pages := w.added[n..];
      assert e.value.page == pages[0] == w.added[n];
      assert w.added[..n + 1] == w.added[..n] + [w.added[n]];
      assert w.added[n + 1..] == pages[1..];
      forall k | 0 <= k < |pages| - 1 ensures t.registry[Live(t)[k]].page == pages[1..][k] {
        assert Live(t)[k] == Live(s)[k + 1];
        LiveDistinct(s, 0, k + 1);
      }
    }
  }

  lemma StepKeeps(w: World, op: Op)
    requires RunInv(w) && Allowed(op)
    ensures RunInv(Step(w, op))
  {
    match op
    case OpAdd(e) => AddRun(w, e);
    case OpTouch(id, pushed, ready) => TouchRun(w, id, pushed, ready);
    case OpRemovePushing => RemovePushingKeeps(w.s);
    case OpMoveToFilled => MoveKeeps(w.s);
    case OpRemoveFilled => RemoveRun(w);
  }

  /** No page is removed from the filled queue while it is still in the pushing queue. */
  ghost predicate PushedFirst(w: World, op: Op) {
    op.OpRemoveFilled? && w.s.filled != [] ==> w.s.filled[0] !in w.s.pushing
  }

  lemma StepOrderlyIff(w: World, op: Op)
    requires RunInv(w) && Orderly(w.s) && Allowed(op)
    ensures Orderly(Step(w, op).s) <==> PushedFirst(w, op)
  {
    match op
    case OpAdd(e) => AddOrderly(w.s, e);
    case OpTouch(id, pushed, ready) => TouchKeeps(w.s, id, pushed, ready);
    case OpRemovePushing => RemovePushingOrderly(w.s);
    case OpMoveToFilled => MoveKeeps(w.s);
    case OpRemoveFilled => RemoveOrderlyIff(w.s);
  }

  ghost predicate Follows(ws: seq<World>, ops: seq<Op>, i: nat)
    requires i < |ops| < |ws|
  {
    Allowed(ops[i]) && ws[i + 1] == Step(ws[i], ops[i])
  }

  ghost predicate Execution(ws: seq<World>, ops: seq<Op>) {
    && |ws| == |ops| + 1
    && (exists registry: seq<Entry> :: registry != [] && ws[0] == World(Initial(registry), [], []))
    && forall i :: 0 <= i < |ops| ==> Follows(ws, ops, i)
  }

  lemma {:induction false} ExecutionInv(ws: seq<World>, ops: seq<Op>, n: nat)
    requires Execution(ws, ops) && n < |ws|
    ensures RunInv(ws[n])
  {
    if n == 0 {
      var registry: seq<Entry> :| registry != [] && ws[0] == World(Initial(registry), [], []);
    } else {
      ExecutionInv(ws, ops, n - 1);
      assert Follows(ws, ops, n - 1);
      StepKeeps(ws[n - 1], ops[n - 1]);
    }
  }

  /** In every run: what is removed is what was added, in that order, and the rest is in the queue. */
  lemma SuperpagesAreQueue(ws: seq<World>, ops: seq<Op>, n: nat)
    requires Execution(ws, ops) && n < |ws|
    ensures var w := ws[n];
      && |w.removed| <= |w.added| && w.removed == w.added[..|w.removed|]
      && w.s.count == |w.added| - |w.removed| <= |w.s.registry|
      && LivePages(w.s, w.added[|w.removed|..])
  {
    ExecutionInv(ws, ops, n);
  }

  /** If pages leave the pushing queue before they are removed, it always holds the youngest pages. */
  lemma {:induction false} RunOrderly(ws: seq<World>, ops: seq<Op>, n: nat)
    requires Execution(ws, ops) && n < |ws|
    requires forall i :: 0 <= i < n ==> PushedFirst(ws[i], ops[i])
    ensures Orderly(ws[n].s)
  {
    if n == 0 {
      var registry: seq<Entry> :| registry != [] && ws[0] == World(Initial(registry), [], []);
    } else {
      RunOrderly(ws, ops, n - 1);
      ExecutionInv(ws, ops, n - 1);
      assert Follows(ws, ops, n - 1);
      StepOrderlyIff(ws[n - 1], ops[n - 1]);
    }
  }
}
