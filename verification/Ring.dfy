/**
  The lock-free ring between one writer and one reader. Every load and store that the other
  thread can see is one step; `pop` publishes its index before it reads the slot.
 */
module Ring {
  import opened Options

  /** Where the writer is inside `push`: index loaded, space checked, slot written. */
  datatype Pusher<T> =
    | PushIdle
    | PushLoaded(item: T, target: nat)
    | PushChecked(item: T, target: nat)
    | PushWritten(item: T, target: nat)

  /** Where the reader is inside `pop`: found not empty, index published, slot read. */
  datatype Popper<T> = PopIdle | PopChecked | PopPublished | PopRead(item: T)

  /**
    `data` has one slot more than the ring holds elements. `pushed` and `popped` list the elements
    of the pushes and pops that have taken effect, `delivered` those already handed to the reader.
   */
  datatype Ring<T> = Ring(
    size: nat, data: seq<Option<T>>, start: nat, end: nat,
    pusher: Pusher<T>, popper: Popper<T>,
    pushed: seq<T>, popped: seq<T>, delivered: seq<T>)

  function Next(size: nat, i: nat): nat { if i + 1 > size then 0 else i + 1 }

  datatype Step<T> =
    | PushStart(item: T) | PushCheck | PushWrite | PushPublish
    | PopCheck | PopPublish | PopTake | PopClear

  predicate Enabled<T>(r: Ring<T>, s: Step<T>) {
    match s
    case PushStart(_) => r.pusher.PushIdle?
    case PushCheck => r.pusher.PushLoaded?
    case PushWrite => r.pusher.PushChecked? && r.pusher.target < |r.data|
    case PushPublish => r.pusher.PushWritten?
    case PopCheck => r.popper.PopIdle?
    case PopPublish => r.popper.PopChecked? && Next(r.size, r.start) < |r.data| && r.data[Next(r.size, r.start)].Some?
    case PopTake => r.popper.PopPublished? && r.start < |r.data| && r.data[r.start].Some?
    case PopClear => r.popper.PopRead? && r.start < |r.data|
  }

  function Apply<T>(r: Ring<T>, s: Step<T>): Ring<T>
    requires Enabled(r, s)
  {
    match s
    case PushStart(item) => r.(pusher := PushLoaded(item, Next(r.size, r.end)))
    case PushCheck =>
      if r.pusher.target == r.start then r.(pusher := PushIdle)
      else r.(pusher := PushChecked(r.pusher.item, r.pusher.target))
    case PushWrite =>
      r.(data := r.data[r.pusher.target := Some(r.pusher.item)],
         pusher := PushWritten(r.pusher.item, r.pusher.target))
    case PushPublish =>
      r.(end := r.pusher.target, pusher := PushIdle, pushed := r.pushed + [r.pusher.item])
    case PopCheck => if r.end == r.start then r else r.(popper := PopChecked)
    case PopPublish =>
      var i := Next(r.size, r.start);
      r.(start := i, popper := PopPublished, popped := r.popped + [r.data[i].value])
    case PopTake => r.(popper := PopRead(r.data[r.start].value))
    case PopClear =>
      r.(data := r.data[r.start := None], popper := PopIdle, delivered := r.delivered + [r.popper.item])
  }

  /** Number of elements between the two indices. */
  function Count(size: nat, start: nat, end: nat): nat
    requires start <= size && end <= size
  {
    if end >= start then end - start else end + size + 1 - start
  }

  /** The slot of the `i`-th oldest element. */
  function Slot(size: nat, start: nat, i: nat): nat {
    if start + 1 + i > size then start + i - size else start + 1 + i
  }

  /** The slots between the indices hold what was pushed and not popped, in order. */
  ghost predicate Holds<T>(r: Ring<T>) {
    && |r.data| == r.size + 1 && r.start <= r.size && r.end <= r.size
    && r.popped <= r.pushed
    && |r.pushed| == |r.popped| + Count(r.size, r.start, r.end)
    && forall i :: 0 <= i < Count(r.size, r.start, r.end) ==>
         r.data[Slot(r.size, r.start, i)] == Some(r.pushed[|r.popped| + i])
  }

  ghost predicate PusherInv<T>(r: Ring<T>) {
    match r.pusher
    case PushIdle => true
    case PushLoaded(_, target) => target == Next(r.size, r.end)
    case PushChecked(_, target) => target == Next(r.size, r.end) && target != r.start
    case PushWritten(item, target) =>
      target == Next(r.size, r.end) && target != r.start && target < |r.data| && r.data[target] == Some(item)
  }

  ghost predicate PopperInv<T>(r: Ring<T>) {
    match r.popper
    case PopIdle => r.delivered == r.popped
    case PopChecked => r.delivered == r.popped && r.start != r.end
    case PopPublished =>
      && r.popped != [] && r.delivered == r.popped[..|r.popped| - 1]
      && r.start < |r.data| && r.data[r.start] == Some(r.popped[|r.popped| - 1])
    case PopRead(item) =>
      r.popped != [] && r.delivered == r.popped[..|r.popped| - 1] && item == r.popped[|r.popped| - 1]
  }

  ghost predicate Inv<T>(r: Ring<T>) { Holds(r) && PusherInv(r) && PopperInv(r) }

  function Empty<T>(size: nat): Ring<T> {
    Ring(size, seq(size + 1, _ => None), 0, 0, PushIdle, PopIdle, [], [], [])
  }

  lemma PushWriteKeeps<T>(r: Ring<T>)
    requires Inv(r) && Enabled(r, PushWrite)
    ensures Inv(Apply(r, PushWrite))
  {
    forall i | 0 <= i < Count(r.size, r.start, r.end) ensures Slot(r.size, r.start, i) != r.pusher.target {}
  }

  lemma PushPublishKeeps<T>(r: Ring<T>)
    requires Inv(r) && Enabled(r, PushPublish)
    ensures Inv(Apply(r, PushPublish))
  {
    var n := Count(r.size, r.start, r.end);
    assert Count(r.size, r.start, r.pusher.target) == n + 1;
    assert Slot(r.size, r.start, n) == r.pusher.target;
  }

  lemma PopPublishKeeps<T>(r: Ring<T>)
    requires Inv(r) && Enabled(r, PopPublish)
    ensures Inv(Apply(r, PopPublish))
  {
    var t := Apply(r, PopPublish);
    assert Slot(r.size, r.start, 0) == t.start;
    assert Count(t.size, t.start, t.end) == Count(r.size, r.start, r.end) - 1;
    forall i | 0 <= i < Count(t.size, t.start, t.end)
      ensures t.data[Slot(t.size, t.start, i)] == Some(t.pushed[|t.popped| + i])
    {
      assert Slot(t.size, t.start, i) == Slot(r.size, r.start, i + 1);
    }
  }

  lemma PopClearKeeps<T>(r: Ring<T>)
    requires Inv(r) && Enabled(r, PopClear)
    ensures Inv(Apply(r, PopClear))
  {
    forall i | 0 <= i < Count(r.size, r.start, r.end) ensures Slot(r.size, r.start, i) != r.start {}
  }

  /** Every step of either thread keeps the invariant. */
  lemma StepKeeps<T>(r: Ring<T>, s: Step<T>)
    requires Inv(r) && Enabled(r, s)
    ensures Inv(Apply(r, s)) && Apply(r, s).size == r.size
  {
    match s
    case PushWrite => PushWriteKeeps(r);
    case PushPublish => PushPublishKeeps(r);
    case PopPublish => PopPublishKeeps(r);
    case PopClear => PopClearKeeps(r);
    case PopCheck => PopLooksKeep(r, s);
    case PopTake => PopLooksKeep(r, s);
    case _ => PushLooksKeep(r, s);
  }

  /** Steps that only look change nothing the other thread sees. */
  lemma PushLooksKeep<T>(r: Ring<T>, s: Step<T>)
    requires Inv(r) && Enabled(r, s) && (s.PushStart? || s.PushCheck?)
    ensures Inv(Apply(r, s)) && Apply(r, s).size == r.size
  {
  }

  lemma PopLooksKeep<T>(r: Ring<T>, s: Step<T>)
    requires Inv(r) && Enabled(r, s) && (s.PopCheck? || s.PopTake?)
    ensures Inv(Apply(r, s)) && Apply(r, s).size == r.size
  {
  }

  ghost predicate Execution<T>(rs: seq<Ring<T>>, steps: seq<Step<T>>, size: nat) {
    && |rs| == |steps| + 1
    && rs[0] == Empty(size)
    && forall i :: 0 <= i < |steps| ==> Enabled(rs[i], steps[i]) && rs[i + 1] == Apply(rs[i], steps[i])
  }

  lemma {:induction false} ExecutionInv<T>(rs: seq<Ring<T>>, steps: seq<Step<T>>, size: nat, n: nat)
    requires Execution(rs, steps, size) && n < |rs|
    ensures Inv(rs[n]) && rs[n].size == size
  {
    if n > 0 {
      ExecutionInv(rs, steps, size, n - 1);
      StepKeeps(rs[n - 1], steps[n - 1]);
    }
  }

  /** A push is refused only when the ring is full, a pop only when it is empty. */
  ghost predicate RefusesRightly<T>(r: Ring<T>, s: Step<T>) {
    && (s.PushCheck? && r.pusher.PushLoaded? ==>
          (r.pusher.target == r.start <==> |r.pushed| - |r.popped| == r.size))
    && (s.PopCheck? ==> (r.end == r.start <==> r.pushed == r.popped))
  }

  /**
    Every interleaving is a bounded first-in first-out queue of capacity `size`: what the reader
    was handed is what was pushed, in order and without loss, and each refusal is justified.
   */
  lemma BoundedFifo<T>(rs: seq<Ring<T>>, steps: seq<Step<T>>, size: nat, n: nat)
    requires Execution(rs, steps, size) && n < |rs|
    ensures var r := rs[n];
      && r.delivered <= r.popped <= r.pushed
      && |r.popped| - |r.delivered| <= 1
      && |r.pushed| - |r.popped| <= size
      && (n < |steps| ==> RefusesRightly(r, steps[n]))
  {
    ExecutionInv(rs, steps, size, n);
    var r := rs[n];
    assert |r.pushed| == |r.popped| ==> r.pushed == r.popped;
  }

  /** The reader always finds an element where it looks: a pop that was not refused completes. */
  lemma PopNeverStuck<T>(rs: seq<Ring<T>>, steps: seq<Step<T>>, size: nat, n: nat)
    requires Execution(rs, steps, size) && n < |rs|
    ensures rs[n].popper.PopChecked? ==> Enabled(rs[n], PopPublish)
    ensures rs[n].popper.PopPublished? ==> Enabled(rs[n], PopTake)
    ensures rs[n].popper.PopRead? ==> Enabled(rs[n], PopClear)
  {
    ExecutionInv(rs, steps, size, n);
    var r := rs[n];
    if r.popper.PopChecked? {
      assert Slot(r.size, r.start, 0) == Next(r.size, r.start);
    }
  }

  /** The writer never writes the slot the reader has published and is still reading or clearing. */
  lemma NoSharedSlot<T>(rs: seq<Ring<T>>, steps: seq<Step<T>>, size: nat, n: nat)
    requires Execution(rs, steps, size) && n < |rs|
    requires rs[n].pusher.PushChecked? || rs[n].pusher.PushWritten?
    requires rs[n].popper.PopPublished? || rs[n].popper.PopRead?
    ensures rs[n].pusher.target != rs[n].start
  {
    ExecutionInv(rs, steps, size, n);
  }

  // ---------------------------------------------------------------- what each step does

  /** The writer's steps: a push goes on with its item unless the ring was full, and in the end has appended it. */
  ghost predicate WriterDoes<T>(r: Ring<T>, s: Step<T>, t: Ring<T>) {
    && t.popper == r.popper && t.popped == r.popped && t.delivered == r.delivered
    && match s
       case PushStart(item) => t.pusher.PushLoaded? && t.pusher.item == item && t.pushed == r.pushed
       case PushCheck =>
         && t.pushed == r.pushed
         && (t.pusher.PushIdle? <==> |r.pushed| - |r.popped| == r.size)
         && (!t.pusher.PushIdle? ==> t.pusher.PushChecked? && r.pusher.PushLoaded? && t.pusher.item == r.pusher.item)
       case PushWrite => t.pushed == r.pushed && t.pusher.PushWritten? && r.pusher.PushChecked? && t.pusher.item == r.pusher.item
       case PushPublish => t.pusher.PushIdle? && r.pusher.PushWritten? && t.pushed == r.pushed + [r.pusher.item]
       case _ => false
  }

  /** The reader's steps: a pop goes on unless the ring was empty, and in the end has handed over the oldest element. */
  ghost predicate ReaderDoes<T>(r: Ring<T>, s: Step<T>, t: Ring<T>) {
    && t.pusher == r.pusher && t.pushed == r.pushed
    && match s
       case PopCheck =>
         && t.popped == r.popped && t.delivered == r.delivered
         && (if r.pushed == r.popped then t.popper.PopIdle? else t.popper.PopChecked?)
       case PopPublish =>
         && t.popper.PopPublished? && t.delivered == r.delivered
         && |r.popped| < |r.pushed| && t.popped == r.popped + [r.pushed[|r.popped|]]
       case PopTake =>
         t.popped == r.popped && t.delivered == r.delivered && r.popped != [] && t.popper == PopRead(r.popped[|r.popped| - 1])
       case PopClear => t.popper.PopIdle? && t.popped == r.popped && t.delivered == r.popped
       case _ => false
  }

  predicate ByWriter<T>(s: Step<T>) { s.PushStart? || s.PushCheck? || s.PushWrite? || s.PushPublish? }

  lemma WriterEffect<T>(r: Ring<T>, s: Step<T>)
    requires Inv(r) && Enabled(r, s) && ByWriter(s)
    ensures WriterDoes(r, s, Apply(r, s))
  {
  }

  lemma ReaderEffect<T>(r: Ring<T>, s: Step<T>)
    requires Inv(r) && Enabled(r, s) && !ByWriter(s)
    ensures ReaderDoes(r, s, Apply(r, s))
  {
    if s.PopPublish? { assert Slot(r.size, r.start, 0) == Next(r.size, r.start); }
    if s.PopCheck? { assert |r.pushed| == |r.popped| ==> r.pushed == r.popped; }
  }

  /**
    In every interleaving each step does its part: a push is given up exactly when the ring holds
    `size` elements and otherwise appends its item; a pop is given up exactly when the ring is empty
    and otherwise hands over the oldest element.
   */
  lemma StepsDoTheirPart<T>(rs: seq<Ring<T>>, steps: seq<Step<T>>, size: nat, n: nat)
    requires Execution(rs, steps, size) && n < |steps|
    ensures rs[n].size == size
    ensures if ByWriter(steps[n]) then WriterDoes(rs[n], steps[n], rs[n + 1]) else ReaderDoes(rs[n], steps[n], rs[n + 1])
  {
    ExecutionInv(rs, steps, size, n);
    if ByWriter(steps[n]) { WriterEffect(rs[n], steps[n]); } else { ReaderEffect(rs[n], steps[n]); }
  }

  // ---------------------------------------------------------------- the queries

  predicate IsFull(size: nat, start: nat, end: nat) {
    end + 1 == start || (end + 1 > size && start == 0)
  }

  function FreeSlots(size: nat, start: nat, end: nat): int {
    if end >= start then size - end + start else start - end - 1
  }

  /** Between operations the queries count the elements. */
  lemma QueriesCount<T>(r: Ring<T>)
    requires Inv(r)
    ensures IsFull(r.size, r.start, r.end) <==> |r.pushed| - |r.popped| == r.size
    ensures FreeSlots(r.size, r.start, r.end) == r.size - (|r.pushed| - |r.popped|)
  {
  }
}
