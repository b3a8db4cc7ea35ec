/**
  Pages of a DMA buffer on their way: free ring, driver, output queue, containers, and back to the
  ring. The readout thread is the ring's one reader; a page is given back by whichever thread
  destroys its container, without a lock, in the four steps of a push into the ring.
 */
module PageFlow {
  import R = Ring
  import opened DmaPages

  /** A page the readout thread is moving. */
  datatype Hand = Empty | ToDriver(page: int) | ToOut(page: int)

  /** Where a return is: end of the ring loaded, room checked, slot written. */
  datatype Return = Loaded(page: int, target: nat) | Checked(page: int, target: nat) | Written(page: int, target: nat)

  /** The ring of free pages holds as many pages as there are and has one slot more. */
  datatype FreeRing = FreeRing(slots: seq<int>, start: nat, end: nat)

  /** Free ring, returns in progress by thread, pages given to the driver, output queue, containers held by others. */
  datatype State = State(
    ring: FreeRing, backs: map<int, Return>, driver: seq<int>, hand: Hand, out: seq<int>, held: multiset<int>)

  datatype Event =
    | PopFree
    | PushDriver
    | PopDriver       // a container has been made for the oldest page of the driver
    | MakeFails       // no container could be made: the page stays with the driver
    | PushOut
    | Take            // a consumer takes a container from the output queue
    | Destroy(thread: int, page: int)  // the last user of a container lets go of it: the end of the ring is loaded
    | Check(thread: int)
    | Write(thread: int)
    | Publish(thread: int)

  function Max(s: State): nat { if s.ring.slots == [] then 0 else |s.ring.slots| - 1 }

  ghost predicate RingOk(r: FreeRing) { r.slots != [] && r.start < |r.slots| && r.end < |r.slots| }

  /** The pages between the two indices, oldest first. */
  function Content(r: FreeRing): (q: seq<int>)
    requires RingOk(r)
    ensures |q| == R.Count(|r.slots| - 1, r.start, r.end)
  {
    var n := |r.slots| - 1;
    seq(R.Count(n, r.start, r.end), i requires 0 <= i < R.Count(n, r.start, r.end) => r.slots[R.Slot(n, r.start, i)])
  }

  ghost predicate Enabled(s: State, e: Event, outCapacity: nat) {
    match e
    case PopFree => s.hand.Empty? && s.ring.start != s.ring.end
    case PushDriver => s.hand.ToDriver?
    case PopDriver => s.hand.Empty? && s.driver != [] && |s.out| < outCapacity
    case MakeFails => s.hand.Empty? && s.driver != []
    case PushOut => s.hand.ToOut?
    case Take => s.out != []
    case Destroy(t, p) => p in s.held && t !in s.backs
    case Check(t) => t in s.backs && s.backs[t].Loaded?
    case Write(t) => t in s.backs && s.backs[t].Checked?
    case Publish(t) => t in s.backs && s.backs[t].Written?
  }

  function Popped(r: FreeRing): FreeRing
    requires RingOk(r)
  {
    var i := R.Next(|r.slots| - 1, r.start);
    r.(start := i, slots := r.slots[i := 0])
  }

  /** A push into a full output queue drops the page, and so does one into a full ring. */
  function Step(s: State, e: Event, outCapacity: nat): State
    requires Shape(s) && Enabled(s, e, outCapacity)
  {
    match e
    case PopFree => s.(ring := Popped(s.ring), hand := ToDriver(s.ring.slots[R.Next(Max(s), s.ring.start)]))
    case PushDriver => s.(driver := s.driver + [s.hand.page], hand := Empty)
    case PopDriver => s.(driver := s.driver[1..], hand := ToOut(s.driver[0]))
    case MakeFails => s
    case PushOut => s.(out := if |s.out| < outCapacity then s.out + [s.hand.page] else s.out, hand := Empty)
    case Take => s.(out := s.out[1..], held := s.held + multiset{s.out[0]})
    case Destroy(t, p) => s.(held := s.held - multiset{p}, backs := s.backs[t := Loaded(p, R.Next(Max(s), s.ring.end))])
    case Check(t) =>
      var r := s.backs[t];
      if r.target == s.ring.start then s.(backs := s.backs - {t})
      else s.(backs := s.backs[t := Checked(r.page, r.target)])
    case Write(t) =>
      var r := s.backs[t];
      s.(ring := s.ring.(slots := s.ring.slots[r.target := r.page]), backs := s.backs[t := Written(r.page, r.target)])
    case Publish(t) =>
      s.(ring := s.ring.(end := s.backs[t].target), backs := s.backs - {t})
  }

  ghost predicate Shape(s: State) {
    RingOk(s.ring) && forall t :: t in s.backs ==> s.backs[t].target < |s.ring.slots|
  }

  // ---------------------------------------------------------------- where the pages are

  function InHand(h: Hand, p: int): nat { if !h.Empty? && h.page == p then 1 else 0 }

  /** The threads that are giving this page back. */
  function Returners(backs: map<int, Return>, p: int): set<int> { set t | t in backs && backs[t].page == p }

  /** In how many places a page is. */
  function Places(s: State, p: int): nat
    requires Shape(s)
  {
    multiset(Content(s.ring))[p] + |Returners(s.backs, p)| + multiset(s.driver)[p] + InHand(s.hand, p) + multiset(s.out)[p] + s.held[p]
  }

  /** How many pages there are in all places. */
  function Size(s: State): nat
    requires Shape(s)
  {
    |Content(s.ring)| + |s.backs| + |s.driver| + (if s.hand.Empty? then 0 else 1) + |s.out| + |s.held|
  }

  /** Nothing is lost and nothing duplicated. */
  ghost predicate SamePages(s: State, t: State) {
    Shape(s) && Shape(t) && Size(t) == Size(s) && forall p :: Places(t, p) == Places(s, p)
  }

  // ---------------------------------------------------------------- the ring

  lemma PopContent(r: FreeRing)
    requires RingOk(r) && r.start != r.end
    ensures RingOk(Popped(r)) && Content(r) != []
    ensures Content(r)[0] == r.slots[R.Next(|r.slots| - 1, r.start)] && Content(Popped(r)) == Content(r)[1..]
  {
    var n, t := |r.slots| - 1, Popped(r);
    assert R.Slot(n, r.start, 0) == t.start;
    assert R.Count(n, t.start, t.end) == R.Count(n, r.start, r.end) - 1;
    forall i | 0 <= i < |Content(t)| ensures Content(t)[i] == Content(r)[i + 1] {
      assert R.Slot(n, t.start, i) == R.Slot(n, r.start, i + 1) != t.start;
    }
  }

  /** Publishing the next slot appends what it holds. */
  lemma PublishContent(r: FreeRing, target: nat)
    requires RingOk(r) && target == R.Next(|r.slots| - 1, r.end) && target != r.start
    ensures target < |r.slots| && Content(r.(end := target)) == Content(r) + [r.slots[target]]
  {
    var n := |r.slots| - 1;
    assert R.Count(n, r.start, target) == R.Count(n, r.start, r.end) + 1;
    assert R.Slot(n, r.start, R.Count(n, r.start, r.end)) == target;
  }

  lemma LongerByOneIff(n: nat, start: nat, end: nat, target: nat)
    requires start <= n && end <= n && target <= n
    ensures R.Count(n, start, target) == R.Count(n, start, end) + 1 <==> target == R.Next(n, end) && target != start
  {
  }

  lemma FirstOut(q: seq<int>)
    requires q != []
    ensures forall p :: multiset(q)[p] == multiset(q[1..])[p] + if p == q[0] then 1 else 0
  {
    assert q == [q[0]] + q[1..];
  }

  lemma LastIn(q: seq<int>, x: int)
    ensures forall p :: multiset(q + [x])[p] == multiset(q)[p] + if p == x then 1 else 0
  {
  }

  lemma OneMoreReturner(backs: map<int, Return>, t: int, r: Return, p: int)
    requires t !in backs
    ensures |Returners(backs[t := r], p)| == |Returners(backs, p)| + if r.page == p then 1 else 0
  {
    var before, after := Returners(backs, p), Returners(backs[t := r], p);
    if r.page == p {
      assert after == before + {t};
    } else {
      assert after == before;
    }
  }

  /** A return that begins, goes on or ends. */
  lemma ReturnBegins(backs: map<int, Return>, t: int, r: Return)
    requires t !in backs
    ensures |backs[t := r]| == |backs| + 1
    ensures forall p :: |Returners(backs[t := r], p)| == |Returners(backs, p)| + if r.page == p then 1 else 0
  {
    forall p ensures |Returners(backs[t := r], p)| == |Returners(backs, p)| + if r.page == p then 1 else 0 {
      OneMoreReturner(backs, t, r, p);
    }
  }

  lemma ReturnGoesOn(backs: map<int, Return>, t: int, r: Return)
    requires t in backs && backs[t].page == r.page
    ensures |backs[t := r]| == |backs|
    ensures forall p :: Returners(backs[t := r], p) == Returners(backs, p)
  {
    assert backs[t := r].Keys == backs.Keys;
    assert |backs| == |backs.Keys|;
  }

  lemma ReturnEnds(backs: map<int, Return>, t: int)
    requires t in backs
    ensures |backs - {t}| == |backs| - 1
    ensures forall p :: |Returners(backs - {t}, p)| == |Returners(backs, p)| - if backs[t].page == p then 1 else 0
  {
    var rest := backs - {t};
    assert backs == rest[t := backs[t]];
    ReturnBegins(rest, t, backs[t]);
  }

  // ---------------------------------------------------------------- the readout thread and the consumers

  lemma ReadoutConserves(s: State, e: Event, outCapacity: nat)
    requires Shape(s) && Enabled(s, e, outCapacity) && (s.hand.ToOut? ==> |s.out| < outCapacity)
    requires e.PopFree? || e.PushDriver? || e.PopDriver? || e.MakeFails? || e.PushOut?
    ensures SamePages(s, Step(s, e, outCapacity))
  {
    match e
    case PopFree =>
      PopContent(s.ring);
      FirstOut(Content(s.ring));
    case PushDriver => LastIn(s.driver, s.hand.page);
    case PopDriver => FirstOut(s.driver);
    case MakeFails =>
    case PushOut => LastIn(s.out, s.hand.page);
  }

  /** A push into the output queue keeps the page exactly when that is not full. */
  lemma PushOutConservesIff(s: State, outCapacity: nat)
    requires Shape(s) && Enabled(s, PushOut, outCapacity)
    ensures SamePages(s, Step(s, PushOut, outCapacity)) <==> |s.out| < outCapacity
  {
    if |s.out| < outCapacity {
      LastIn(s.out, s.hand.page);
    } else {
      assert Size(Step(s, PushOut, outCapacity)) == Size(s) - 1;
    }
  }

  lemma TakeConserves(s: State, outCapacity: nat)
    requires Shape(s) && Enabled(s, Take, outCapacity)
    ensures SamePages(s, Step(s, Take, outCapacity))
  {
    FirstOut(s.out);
  }

  lemma DestroyConserves(s: State, t: int, p: int, outCapacity: nat)
    requires Shape(s) && Enabled(s, Destroy(t, p), outCapacity)
    ensures SamePages(s, Step(s, Destroy(t, p), outCapacity))
  {
    ReturnBegins(s.backs, t, Loaded(p, R.Next(Max(s), s.ring.end)));
    assert s.held == (s.held - multiset{p}) + multiset{p};
  }

  // ---------------------------------------------------------------- when a return keeps every page

  /** The check keeps every page exactly when the slot aimed at is not the start of the ring. */
  lemma CheckConservesIff(s: State, t: int, outCapacity: nat)
    requires Shape(s) && Enabled(s, Check(t), outCapacity)
    ensures SamePages(s, Step(s, Check(t), outCapacity)) <==> s.backs[t].target != s.ring.start
  {
    var b := s.backs[t];
    if b.target == s.ring.start {
      ReturnEnds(s.backs, t);
    } else {
      ReturnGoesOn(s.backs, t, Checked(b.page, b.target));
    }
  }

  /** The slot lies between the indices of the ring. */
  predicate InUse(r: FreeRing, target: nat)
    requires RingOk(r) && target < |r.slots|
  {
    0 < R.Count(|r.slots| - 1, r.start, target) <= R.Count(|r.slots| - 1, r.start, r.end)
  }

  /** The place of a slot that is in use in the contents of the ring. */
  function PlaceOf(r: FreeRing, target: nat): (i: nat)
    requires RingOk(r) && target < |r.slots| && InUse(r, target)
    ensures i < |Content(r)|
  {
    R.Count(|r.slots| - 1, r.start, target) - 1
  }

  lemma SlotAt(n: nat, start: nat, target: nat, i: nat)
    requires start <= n && target <= n && i < n
    ensures R.Slot(n, start, i) == target <==> R.Count(n, start, target) == i + 1
  {
  }

  lemma WriteContent(r: FreeRing, target: nat, p: int)
    requires RingOk(r) && target < |r.slots|
    ensures var t := r.(slots := r.slots[target := p]);
      && RingOk(t)
      && (!InUse(r, target) ==> Content(t) == Content(r))
      && (InUse(r, target) ==>
            Content(r)[PlaceOf(r, target)] == r.slots[target] && Content(t) == Content(r)[PlaceOf(r, target) := p])
  {
    var n, t := |r.slots| - 1, r.(slots := r.slots[target := p]);
    forall j | 0 <= j < |Content(r)|
      ensures Content(t)[j] == if R.Count(n, r.start, target) == j + 1 then p else Content(r)[j]
      ensures R.Count(n, r.start, target) == j + 1 ==> Content(r)[j] == r.slots[target]
    {
      SlotAt(n, r.start, target, j);
    }
  }

  lemma ReplaceCount(q: seq<int>, i: nat, p: int)
    requires i < |q|
    ensures multiset(q[i := p])[p] == multiset(q)[p] + if q[i] == p then 0 else 1
  {
  }

  lemma WriteShape(s: State, t: int, outCapacity: nat)
    requires Shape(s) && Enabled(s, Write(t), outCapacity)
    ensures var r := Step(s, Write(t), outCapacity);
      && Shape(r) && Size(r) == Size(s)
      && forall p :: Places(r, p) - multiset(Content(r.ring))[p] == Places(s, p) - multiset(Content(s.ring))[p]
  {
    var b := s.backs[t];
    ReturnGoesOn(s.backs, t, Written(b.page, b.target));
    WriteContent(s.ring, b.target, b.page);
  }

  lemma Overwrites(s: State, t: int, outCapacity: nat)
    requires Shape(s) && Enabled(s, Write(t), outCapacity) && InUse(s.ring, s.backs[t].target)
    requires s.ring.slots[s.backs[t].target] != s.backs[t].page
    ensures !SamePages(s, Step(s, Write(t), outCapacity))
  {
    var b, r := s.backs[t], Step(s, Write(t), outCapacity);
    WriteShape(s, t, outCapacity);
    WriteContent(s.ring, b.target, b.page);
    ReplaceCount(Content(s.ring), PlaceOf(s.ring, b.target), b.page);
    assert Places(r, b.page) != Places(s, b.page);
  }

  lemma WritesBeside(s: State, t: int, outCapacity: nat)
    requires Shape(s) && Enabled(s, Write(t), outCapacity)
    requires !InUse(s.ring, s.backs[t].target) || s.ring.slots[s.backs[t].target] == s.backs[t].page
    ensures SamePages(s, Step(s, Write(t), outCapacity))
  {
    var b := s.backs[t];
    WriteShape(s, t, outCapacity);
    WriteContent(s.ring, b.target, b.page);
    if InUse(s.ring, b.target) {
      var q, i := Content(s.ring), PlaceOf(s.ring, b.target);
      assert q[i := b.page] == q;
    }
  }

  /** Writing keeps every page exactly when it does not overwrite another page in the ring. */
  lemma WriteConservesIff(s: State, t: int, outCapacity: nat)
    requires Shape(s) && Enabled(s, Write(t), outCapacity)
    ensures SamePages(s, Step(s, Write(t), outCapacity)) <==>
      !InUse(s.ring, s.backs[t].target) || s.ring.slots[s.backs[t].target] == s.backs[t].page
  {
    if !InUse(s.ring, s.backs[t].target) || s.ring.slots[s.backs[t].target] == s.backs[t].page {
      WritesBeside(s, t, outCapacity);
    } else {
      Overwrites(s, t, outCapacity);
    }
  }

  lemma PublishShape(s: State, t: int, outCapacity: nat)
    requires Shape(s) && Enabled(s, Publish(t), outCapacity)
    ensures var r, b := Step(s, Publish(t), outCapacity), s.backs[t];
      && Shape(r) && Size(r) - |Content(r.ring)| == Size(s) - |Content(s.ring)| - 1
      && forall p :: Places(r, p) - multiset(Content(r.ring))[p]
                       == Places(s, p) - multiset(Content(s.ring))[p] - if b.page == p then 1 else 0
  {
    ReturnEnds(s.backs, t);
  }

  /** Publishing keeps every page exactly when the slot follows the end of a ring not full and still holds the page. */
  lemma PublishConservesIff(s: State, t: int, outCapacity: nat)
    requires Shape(s) && Enabled(s, Publish(t), outCapacity)
    ensures var b := s.backs[t];
      SamePages(s, Step(s, Publish(t), outCapacity)) <==>
        b.target == R.Next(Max(s), s.ring.end) && b.target != s.ring.start && s.ring.slots[b.target] == b.page
  {
    var b, r := s.backs[t], Step(s, Publish(t), outCapacity);
    PublishShape(s, t, outCapacity);
    LongerByOneIff(Max(s), s.ring.start, s.ring.end, b.target);
    if b.target == R.Next(Max(s), s.ring.end) && b.target != s.ring.start {
      PublishContent(s.ring, b.target);
      LastIn(Content(s.ring), s.ring.slots[b.target]);
      if s.ring.slots[b.target] != b.page {
        assert Places(r, b.page) != Places(s, b.page);
      }
    } else {
      assert Size(r) != Size(s);
    }
  }

  // ---------------------------------------------------------------- one return at a time

  ghost predicate BackOk(r: FreeRing, b: Return)
    requires RingOk(r)
  {
    && b.target < |r.slots| && b.target == R.Next(|r.slots| - 1, r.end)
    && (!b.Loaded? ==> b.target != r.start)
    && (b.Written? ==> r.slots[b.target] == b.page)
  }

  /** At most one return is in progress, and the ring has not moved under it. */
  ghost predicate Alone(s: State) {
    && Shape(s)
    && (forall t, u :: t in s.backs && u in s.backs ==> t == u)
    && (forall t :: t in s.backs ==> BackOk(s.ring, s.backs[t]))
  }

  /** Every page is where it is counted, and a page on its way to the output queue has a place there. */
  ghost predicate Inv(s: State, all: seq<int>, outCapacity: nat) {
    && Alone(s) && |s.ring.slots| == |all| + 1
    && Size(s) == |all| && (forall p :: Places(s, p) == multiset(all)[p])
    && (s.hand.ToOut? ==> |s.out| < outCapacity)
  }

  /** A container is destroyed only while no other return is in progress. */
  ghost predicate OneAtATime(s: State, e: Event) { e.Destroy? ==> s.backs == map[] }

  lemma ReturnConserves(s: State, e: Event, all: seq<int>, outCapacity: nat)
    requires Inv(s, all, outCapacity) && Enabled(s, e, outCapacity) && (e.Check? || e.Write? || e.Publish?)
    ensures SamePages(s, Step(s, e, outCapacity))
  {
    var b := s.backs[e.thread];
    assert BackOk(s.ring, b);
    match e
    case Check(t) =>
      CheckConservesIff(s, t, outCapacity);
      assert s.backs == (s.backs - {t})[t := b];
    case Write(t) => WriteConservesIff(s, t, outCapacity);
    case Publish(t) => PublishConservesIff(s, t, outCapacity);
  }

  lemma StepConserves(s: State, e: Event, all: seq<int>, outCapacity: nat)
    requires Inv(s, all, outCapacity) && Enabled(s, e, outCapacity)
    ensures SamePages(s, Step(s, e, outCapacity))
  {
    match e
    case Take => TakeConserves(s, outCapacity);
    case Destroy(t, p) => DestroyConserves(s, t, p, outCapacity);
    case Check(_) => ReturnConserves(s, e, all, outCapacity);
    case Write(_) => ReturnConserves(s, e, all, outCapacity);
    case Publish(_) => ReturnConserves(s, e, all, outCapacity);
    case _ => ReadoutConserves(s, e, outCapacity);
  }

  lemma PopKeepsBack(r: FreeRing, b: Return)
    requires RingOk(r) && r.start != r.end && BackOk(r, b)
    ensures RingOk(Popped(r)) && BackOk(Popped(r), b)
  {
  }

  lemma StepAlone(s: State, e: Event, outCapacity: nat)
    requires Alone(s) && Enabled(s, e, outCapacity) && OneAtATime(s, e)
    ensures Alone(Step(s, e, outCapacity)) && |Step(s, e, outCapacity).ring.slots| == |s.ring.slots|
  {
    if e.PopFree? {
      forall t | t in s.backs ensures BackOk(Popped(s.ring), s.backs[t]) { PopKeepsBack(s.ring, s.backs[t]); }
    } else if e.Check? || e.Write? || e.Publish? {
      assert BackOk(s.ring, s.backs[e.thread]);
    }
  }

  lemma StepKeeps(s: State, e: Event, all: seq<int>, outCapacity: nat)
    requires Inv(s, all, outCapacity) && Enabled(s, e, outCapacity) && OneAtATime(s, e)
    ensures Inv(Step(s, e, outCapacity), all, outCapacity)
  {
    StepConserves(s, e, all, outCapacity);
    StepAlone(s, e, outCapacity);
  }

  // ---------------------------------------------------------------- whole runs

  function Start(all: seq<int>): State { State(FreeRing([0] + all, 0, |all|), map[], [], Empty, [], multiset{}) }

  lemma StartInv(all: seq<int>, outCapacity: nat)
    ensures Inv(Start(all), all, outCapacity)
  {
    var s := Start(all);
    assert Content(s.ring) == all;
    assert forall p :: Returners(s.backs, p) == {};
  }

  ghost predicate Follows(ss: seq<State>, es: seq<Event>, i: nat, outCapacity: nat)
    requires i < |es| < |ss|
  {
    Shape(ss[i]) && Enabled(ss[i], es[i], outCapacity) && ss[i + 1] == Step(ss[i], es[i], outCapacity)
  }

  /** Any steps of the readout thread and of the users of pages. */
  ghost predicate Runs(ss: seq<State>, es: seq<Event>, outCapacity: nat) {
    |ss| == |es| + 1 && forall i :: 0 <= i < |es| ==> Follows(ss, es, i, outCapacity)
  }

  ghost predicate NoOverlap(ss: seq<State>, es: seq<Event>) {
    |es| < |ss| && forall i :: 0 <= i < |es| ==> OneAtATime(ss[i], es[i])
  }

  lemma {:induction false} RunInv(ss: seq<State>, es: seq<Event>, all: seq<int>, outCapacity: nat, n: nat)
    requires Runs(ss, es, outCapacity) && ss[0] == Start(all) && NoOverlap(ss, es) && n < |ss|
    ensures Inv(ss[n], all, outCapacity)
  {
    if n == 0 {
      StartInv(all, outCapacity);
    } else {
      RunInv(ss, es, all, outCapacity, n - 1);
      assert Follows(ss, es, n - 1, outCapacity) && OneAtATime(ss[n - 1], es[n - 1]);
      StepKeeps(ss[n - 1], es[n - 1], all, outCapacity);
    }
  }

  /**
    As long as returns do not overlap, at any time every page is in exactly one place, a page given
    back always finds room, and so does one pushed to the output queue.
   */
  lemma PagesConserved(ss: seq<State>, es: seq<Event>, pages: nat, size: nat, outCapacity: nat, n: nat)
    requires Runs(ss, es, outCapacity) && ss[0] == Start(Offsets(pages, size)) && NoOverlap(ss, es) && n < |ss| && size > 0
    ensures Shape(ss[n]) && forall p :: Places(ss[n], p) == if p in Offsets(pages, size) then 1 else 0
    ensures forall t :: t in ss[n].backs ==> ss[n].backs[t].target != ss[n].ring.start
    ensures ss[n].hand.ToOut? ==> |ss[n].out| < outCapacity
  {
    var s := ss[n];
    RunInv(ss, es, Offsets(pages, size), outCapacity, n);
    forall p ensures Places(s, p) == if p in Offsets(pages, size) then 1 else 0 { OffsetOnce(pages, size, p); }
    forall t | t in s.backs ensures s.backs[t].target != s.ring.start {
      assert BackOk(s.ring, s.backs[t]);
      assert s.backs == (s.backs - {t})[t := s.backs[t]];
    }
  }

  // ---------------------------------------------------------------- overlapping returns

  /** These events lead from one state to another. */
  ghost predicate Leads(s: State, es: seq<Event>, r: State, outCapacity: nat)
    decreases |es|
  {
    if es == [] then s == r
    else Shape(s) && Enabled(s, es[0], outCapacity) && Leads(Step(s, es[0], outCapacity), es[1..], r, outCapacity)
  }

  lemma {:induction false} LeadsOn(s: State, a: seq<Event>, r: State, b: seq<Event>, q: State, outCapacity: nat)
    requires Leads(s, a, r, outCapacity) && Leads(r, b, q, outCapacity)
    ensures Leads(s, a + b, q, outCapacity)
    decreases |a|
  {
    if a == [] {
      assert a + b == b;
    } else {
      LeadsOn(Step(s, a[0], outCapacity), a[1..], r, b, q, outCapacity);
      assert (a + b)[0] == a[0] && (a + b)[1..] == a[1..] + b;
    }
  }

  lemma LeadsTwo(s: State, e: Event, m: State, f: Event, r: State, outCapacity: nat)
    requires Shape(s) && Enabled(s, e, outCapacity) && m == Step(s, e, outCapacity)
    requires Shape(m) && Enabled(m, f, outCapacity) && r == Step(m, f, outCapacity)
    ensures Leads(s, [e, f], r, outCapacity)
  {
    assert [e, f][1..] == [f] && [f][1..] == [];
    assert Leads(r, [], r, outCapacity) && Leads(m, [f], r, outCapacity);
  }

  /** Two returns have loaded the end of the ring, checked it, or written the slot, one after the other. */
  function Twice(s: State, t: int, b: Return, u: int, c: Return): State { s.(backs := s.backs[t := b][u := c]) }

  lemma BothLoad(s: State, t: int, p: int, u: int, q: int, x: nat, outCapacity: nat)
    requires Shape(s) && s.backs == map[] && t != u && p != q && p in s.held && q in s.held
    requires x == R.Next(Max(s), s.ring.end) && x < |s.ring.slots|
    ensures var r := Twice(s.(held := s.held - multiset{p} - multiset{q}), t, Loaded(p, x), u, Loaded(q, x));
      Shape(r) && Leads(s, [Destroy(t, p), Destroy(u, q)], r, outCapacity)
  {
    var m := Step(s, Destroy(t, p), outCapacity);
    LeadsTwo(s, Destroy(t, p), m, Destroy(u, q), Step(m, Destroy(u, q), outCapacity), outCapacity);
  }

  lemma BothCheck(s: State, t: int, p: int, u: int, q: int, x: nat, outCapacity: nat)
    requires Shape(s) && t != u && t in s.backs && u in s.backs && x != s.ring.start
    requires s.backs[t] == Loaded(p, x) && s.backs[u] == Loaded(q, x)
    ensures var r := Twice(s, t, Checked(p, x), u, Checked(q, x));
      Shape(r) && Leads(s, [Check(t), Check(u)], r, outCapacity)
  {
    var m := Step(s, Check(t), outCapacity);
    LeadsTwo(s, Check(t), m, Check(u), Step(m, Check(u), outCapacity), outCapacity);
  }

  lemma BothWrite(s: State, t: int, p: int, u: int, q: int, x: nat, outCapacity: nat)
    requires Shape(s) && t != u && t in s.backs && u in s.backs
    requires s.backs[t] == Checked(p, x) && s.backs[u] == Checked(q, x)
    ensures var r := Twice(s, t, Written(p, x), u, Written(q, x)).(ring := s.ring.(slots := s.ring.slots[x := p][x := q]));
      Shape(r) && Leads(s, [Write(t), Write(u)], r, outCapacity)
  {
    var m := Step(s, Write(t), outCapacity);
    LeadsTwo(s, Write(t), m, Write(u), Step(m, Write(u), outCapacity), outCapacity);
  }

  /** Two returns, each step of the second right behind that of the first, up to the publications. */
  function Overlap(t: int, p: int, u: int, q: int): seq<Event> {
    [Destroy(t, p), Destroy(u, q)] + [Check(t), Check(u)] + [Write(t), Write(u)]
  }

  lemma OverlapLeads(s: State, t: int, p: int, u: int, q: int, x: nat, outCapacity: nat) returns (r: State)
    requires Shape(s) && s.backs == map[] && t != u && p != q && p in s.held && q in s.held
    requires x == R.Next(Max(s), s.ring.end) && x != s.ring.start && x < |s.ring.slots|
    ensures Leads(s, Overlap(t, p, u, q), r, outCapacity) && Shape(r)
    ensures t in r.backs && r.backs[t] == Written(p, x) && r.ring.slots[x] == q
  {
    BothLoad(s, t, p, u, q, x, outCapacity);
    var a := Twice(s.(held := s.held - multiset{p} - multiset{q}), t, Loaded(p, x), u, Loaded(q, x));
    BothCheck(a, t, p, u, q, x, outCapacity);
    var b := Twice(a, t, Checked(p, x), u, Checked(q, x));
    BothWrite(b, t, p, u, q, x, outCapacity);
    r := Twice(b, t, Written(p, x), u, Written(q, x)).(ring := b.ring.(slots := b.ring.slots[x := p][x := q]));
    LeadsOn(s, [Destroy(t, p), Destroy(u, q)], a, [Check(t), Check(u)], b, outCapacity);
    LeadsOn(s, [Destroy(t, p), Destroy(u, q)] + [Check(t), Check(u)], b, [Write(t), Write(u)], r, outCapacity);
  }

  /** Room for one more page in a ring that lacks one. */
  lemma NotFull(s: State, all: seq<int>, outCapacity: nat)
    requires Inv(s, all, outCapacity) && |s.held| >= 1
    ensures R.Next(Max(s), s.ring.end) != s.ring.start && R.Next(Max(s), s.ring.end) < |s.ring.slots|
  {
  }

  /** From every state with two pages held and no return in progress, overlapping returns lose a page. */
  lemma OverlapLoses(s: State, all: seq<int>, t: int, p: int, u: int, q: int, outCapacity: nat) returns (r: State)
    requires Inv(s, all, outCapacity) && s.backs == map[] && t != u && p != q && p in s.held && q in s.held
    ensures Leads(s, Overlap(t, p, u, q), r, outCapacity) && Shape(r) && Enabled(r, Publish(t), outCapacity)
    ensures !SamePages(r, Step(r, Publish(t), outCapacity))
  {
    assert s.held == (s.held - multiset{p}) + multiset{p};
    NotFull(s, all, outCapacity);
    r := OverlapLeads(s, t, p, u, q, R.Next(Max(s), s.ring.end), outCapacity);
    PublishConservesIff(r, t, outCapacity);
  }

  /** One page on its way through the driver to a consumer. */
  lemma Delivered(r: FreeRing, r': FreeRing, p: int, held: multiset<int>)
    requires RingOk(r) && r.start != r.end && r' == Popped(r) && p == r.slots[R.Next(|r.slots| - 1, r.start)]
    ensures Leads(State(r, map[], [], Empty, [], held), [PopFree, PushDriver] + [PopDriver, PushOut],
                  State(r', map[], [], Empty, [p], held), 1)
  {
    var s := State(r, map[], [], Empty, [], held);
    var s1, s2 := State(r', map[], [], ToDriver(p), [], held), State(r', map[], [p], Empty, [], held);
    var s3, s4 := State(r', map[], [], ToOut(p), [], held), State(r', map[], [], Empty, [p], held);
    LeadsTwo(s, PopFree, s1, PushDriver, s2, 1);
    LeadsTwo(s2, PopDriver, s3, PushOut, s4, 1);
    LeadsOn(s, [PopFree, PushDriver], s2, [PopDriver, PushOut], s4, 1);
  }

  const DELIVER := [PopFree, PushDriver] + [PopDriver, PushOut]

  lemma Taken(r: FreeRing, p: int, held: multiset<int>)
    requires RingOk(r)
    ensures Leads(State(r, map[], [], Empty, [p], held), [Take], State(r, map[], [], Empty, [], held + multiset{p}), 1)
  {
    var s, t := State(r, map[], [], Empty, [p], held), State(r, map[], [], Empty, [], held + multiset{p});
    assert [Take][1..] == [];
    assert Leads(t, [], t, 1) && Step(s, Take, 1) == t;
  }

  lemma DeliveredAndTaken(r: FreeRing, p: int, held: multiset<int>)
    requires RingOk(r) && r.start != r.end && p == r.slots[R.Next(|r.slots| - 1, r.start)]
    ensures Leads(State(r, map[], [], Empty, [], held), DELIVER + [Take],
                  State(Popped(r), map[], [], Empty, [], held + multiset{p}), 1)
  {
    Delivered(r, Popped(r), p, held);
    Taken(Popped(r), p, held);
    LeadsOn(State(r, map[], [], Empty, [], held), DELIVER, State(Popped(r), map[], [], Empty, [p], held), [Take],
            State(Popped(r), map[], [], Empty, [], held + multiset{p}), 1);
  }

  /** Such a state is reached with two pages: both are read out and taken by consumers. */
  lemma TwoHeldReached() returns (r: State)
    ensures Leads(Start([0, 8]), (DELIVER + [Take]) + (DELIVER + [Take]), r, 1)
    ensures r.backs == map[] && 0 in r.held && 8 in r.held
  {
    var a, h := Start([0, 8]).ring, multiset{};
    assert [0] + [0, 8] == [0, 0, 8];
    DeliveredAndTaken(a, 0, h);
    var b := Popped(a);
    assert b == FreeRing([0, 0, 8], 1, 2);
    DeliveredAndTaken(b, 8, h + multiset{0});
    r := State(Popped(b), map[], [], Empty, [], h + multiset{0} + multiset{8});
    LeadsOn(Start([0, 8]), DELIVER + [Take], State(b, map[], [], Empty, [], h + multiset{0}), DELIVER + [Take], r, 1);
  }
}
