/**
  The server side of acknowledgements. A fixed table of connection slots is reused as clients
  come and go; files wait in one output queue; the application takes them, and acknowledges
  them from another thread, possibly long after the connection they came on was closed and its
  slot given to somebody else. Each step below is one critical section of the source.
 */
module TransportServer {
  import opened FileIds

  /** Files received before an acknowledgement is sent at once rather than once a second. */
  const ACK_MAX_FILES: nat := 20

  /** A slot of the connection table; `cxId` is -1 when it is free. */
  datatype Slot = Slot(cxId: int, ackFile: FileId, nonAcknowledged: nat)

  /** A received file, with the slot and the connection it came on. */
  datatype Tagged = Tagged(id: FileId, slot: nat, sender: nat)

  /**
    `received[c]` are the files completed on connection `c` and `acks[c]` the acknowledgements
    written on it, in order; connections are numbered as they are accepted.
   */
  datatype Server = Server(
    slots: seq<Slot>,
    queue: seq<Tagged>,
    taken: seq<Tagged>,
    received: seq<seq<FileId>>,
    acks: seq<seq<FileId>>)

  datatype Step =
    | Accept(slot: nat)
    | Complete(slot: nat, id: FileId)
    | Close(slot: nat)
    | Take
    | AckFile(k: nat)
    | SendAck(slot: nat, minNumber: nat, sent: bool)

  predicate Enabled(s: Server, step: Step) {
    match step
    case Accept(i) => i < |s.slots| && s.slots[i].cxId == -1
    case Complete(i, _) => i < |s.slots| && 0 <= s.slots[i].cxId < |s.received|
    case Close(i) => i < |s.slots|
    case Take => s.queue != []
    case AckFile(k) => k < |s.taken| && s.taken[k].slot < |s.slots|
    case SendAck(i, _, _) => i < |s.slots| && s.slots[i].cxId < |s.acks|
  }

  function Apply(s: Server, step: Step): Server
    requires Enabled(s, step)
  {
    match step
    case Accept(i) =>
      s.(slots := s.slots[i := Slot(|s.received|, ZERO, 0)], received := s.received + [[]], acks := s.acks + [[]])
    case Complete(i, id) =>
      var c := s.slots[i].cxId;
      s.(queue := s.queue + [Tagged(id, i, c)], received := s.received[c := s.received[c] + [id]])
    case Close(i) =>
      s.(slots := s.slots[i := s.slots[i].(cxId := -1)])
    case Take =>
      s.(queue := s.queue[1..], taken := s.taken + [s.queue[0]])
    case AckFile(k) =>
      var t := s.taken[k];
      var x := s.slots[t.slot];
      if x.cxId == t.sender && Newer(t.id, x.ackFile) then
        s.(slots := s.slots[t.slot := x.(ackFile := t.id, nonAcknowledged := x.nonAcknowledged + 1)])
      else s
    case SendAck(i, minNumber, sent) =>
      var x := s.slots[i];
      if x.cxId >= 0 && x.nonAcknowledged > minNumber && sent then
        s.(slots := s.slots[i := x.(nonAcknowledged := 0)],
           acks := s.acks[x.cxId := s.acks[x.cxId] + [x.ackFile]])
      else s
  }

  /** The files among `ts` that came on connection `c`, in order. */
  function From(ts: seq<Tagged>, c: nat): seq<FileId> {
    if ts == [] then []
    else if ts[|ts| - 1].sender == c then From(ts[..|ts| - 1], c) + [ts[|ts| - 1].id]
    else From(ts[..|ts| - 1], c)
  }

  lemma FromSnoc(ts: seq<Tagged>, t: Tagged, c: nat)
    ensures From(ts + [t], c) == if t.sender == c then From(ts, c) + [t.id] else From(ts, c)
  {
    assert (ts + [t])[..|ts|] == ts;
  }

  lemma {:induction false} FromConcat(a: seq<Tagged>, b: seq<Tagged>, c: nat)
    ensures From(a + b, c) == From(a, c) + From(b, c)
  {
    if b == [] {
      assert a + b == a;
    } else {
      var n := |b| - 1;
      FromConcat(a, b[..n], c);
      assert a + b == (a + b[..n]) + [b[n]];
      FromSnoc(a + b[..n], b[n], c);
    }
  }

  lemma {:induction false} FromMembers(ts: seq<Tagged>, k: nat)
    requires k < |ts|
    ensures ts[k].id in From(ts, ts[k].sender)
  {
    if k < |ts| - 1 {
      FromMembers(ts[..|ts| - 1], k);
    }
  }

  /** The last acknowledgement written on a connection, or that of nothing. */
  function LastAck(acks: seq<FileId>): FileId { if acks == [] then ZERO else acks[|acks| - 1] }

  /** Acknowledgement state of a connection held in slot `x`. */
  ghost predicate SlotInv(x: Slot, taken: seq<FileId>, acks: seq<FileId>) {
    && (x.ackFile in taken || (x.ackFile == ZERO && x.nonAcknowledged == 0 && acks == []))
    && (acks != [] ==> x.ackFile == acks[|acks| - 1] || Newer(x.ackFile, acks[|acks| - 1]))
    && (x.nonAcknowledged > 0 && acks != [] ==> Newer(x.ackFile, acks[|acks| - 1]))
    && (x.nonAcknowledged == 0 ==> x.ackFile == LastAck(acks))
  }

  /** What was written on a connection names files taken from it, in increasing order. */
  ghost predicate AcksInv(acks: seq<FileId>, taken: seq<FileId>) {
    && Increasing(acks)
    && forall x :: x in acks ==> x in taken
  }

  ghost predicate SlotsInv(s: Server) {
    && |s.acks| == |s.received|
    && (forall i :: 0 <= i < |s.slots| ==> -1 <= s.slots[i].cxId < |s.received|)
    && (forall i, j :: 0 <= i < j < |s.slots| && s.slots[i].cxId >= 0 ==> s.slots[i].cxId != s.slots[j].cxId)
    && (forall i :: 0 <= i < |s.slots| && s.slots[i].cxId >= 0 ==>
          SlotInv(s.slots[i], From(s.taken, s.slots[i].cxId), s.acks[s.slots[i].cxId]))
  }

  ghost predicate FilesInv(s: Server) {
    && (forall k :: 0 <= k < |s.taken| ==> s.taken[k].slot < |s.slots| && s.taken[k].sender < |s.received|)
    && (forall k :: 0 <= k < |s.queue| ==> s.queue[k].slot < |s.slots| && s.queue[k].sender < |s.received|)
    && (forall c :: 0 <= c < |s.received| ==> From(s.taken, c) + From(s.queue, c) == s.received[c])
  }

  ghost predicate Inv(s: Server) {
    && SlotsInv(s)
    && FilesInv(s)
    && (forall c :: 0 <= c < |s.received| ==> AcksInv(s.acks[c], From(s.taken, c)))
  }

  predicate Init(s: Server) {
    && (forall i :: 0 <= i < |s.slots| ==> s.slots[i].cxId == -1)
    && s.queue == [] && s.taken == [] && s.received == [] && s.acks == []
  }

  lemma {:induction false} FromAbsent(ts: seq<Tagged>, c: nat)
    requires forall k :: 0 <= k < |ts| ==> ts[k].sender != c
    ensures From(ts, c) == []
  {
    if ts != [] {
      FromAbsent(ts[..|ts| - 1], c);
    }
  }

  lemma AcceptKeeps(s: Server, i: nat)
    requires Inv(s) && Enabled(s, Accept(i))
    ensures Inv(Apply(s, Accept(i)))
  {
    FromAbsent(s.taken, |s.received|);
    FromAbsent(s.queue, |s.received|);
  }

  lemma CompleteKeeps(s: Server, i: nat, id: FileId)
    requires Inv(s) && Enabled(s, Complete(i, id))
    ensures Inv(Apply(s, Complete(i, id)))
  {
    var t := Apply(s, Complete(i, id));
    var f := Tagged(id, i, s.slots[i].cxId);
    forall c | 0 <= c < |t.received| ensures From(t.taken, c) + From(t.queue, c) == t.received[c] {
      FromSnoc(s.queue, f, c);
      assert From(s.taken, c) + From(s.queue, c) == s.received[c];
    }
  }

  lemma TakeFrom(s: Server, c: nat)
    requires s.queue != []
    ensures var t := Apply(s, Take);
      && From(t.taken, c) + From(t.queue, c) == From(s.taken, c) + From(s.queue, c)
      && From(s.taken, c) <= From(t.taken, c)
  {
    var h := [s.queue[0]];
    FromConcat(s.taken, h, c);
    FromConcat(h, s.queue[1..], c);
    assert s.queue == h + s.queue[1..];
  }

  lemma TakeKeeps(s: Server)
    requires Inv(s) && Enabled(s, Take)
    ensures Inv(Apply(s, Take))
  {
    forall c: nat ensures
      var t := Apply(s, Take);
      && From(t.taken, c) + From(t.queue, c) == From(s.taken, c) + From(s.queue, c)
      && From(s.taken, c) <= From(t.taken, c)
    {
      TakeFrom(s, c);
    }
  }

  lemma AckFileKeeps(s: Server, k: nat)
    requires Inv(s) && Enabled(s, AckFile(k))
    ensures Inv(Apply(s, AckFile(k)))
  {
    FromMembers(s.taken, k);
  }

  lemma SendAckKeeps(s: Server, i: nat, minNumber: nat, sent: bool)
    requires Inv(s) && Enabled(s, SendAck(i, minNumber, sent))
    ensures Inv(Apply(s, SendAck(i, minNumber, sent)))
  {
    var x := s.slots[i];
    if x.cxId >= 0 && x.nonAcknowledged > minNumber {
      IncreasingSnoc(s.acks[x.cxId], x.ackFile);
    }
  }

  lemma IncreasingSnoc(acks: seq<FileId>, x: FileId)
    requires Increasing(acks) && (acks != [] ==> Newer(x, acks[|acks| - 1]))
    ensures Increasing(acks + [x])
  {
    forall i | 0 <= i < |acks| ensures Newer(x, acks[i]) {
      if i < |acks| - 1 {
        NewerIsStrictOrder(x, acks[|acks| - 1], acks[i]);
      }
    }
  }

  /** Every step of either thread keeps the invariant. */
  lemma StepKeeps(s: Server, step: Step)
    requires Inv(s) && Enabled(s, step)
    ensures Inv(Apply(s, step))
  {
    match step
    case Accept(i) => AcceptKeeps(s, i);
    case Complete(i, id) => CompleteKeeps(s, i, id);
    case Close(i) =>
    case Take => TakeKeeps(s);
    case AckFile(k) => AckFileKeeps(s, k);
    case SendAck(i, minNumber, sent) => SendAckKeeps(s, i, minNumber, sent);
  }

  ghost predicate Execution(ss: seq<Server>, steps: seq<Step>) {
    && |ss| == |steps| + 1
    && Init(ss[0])
    && forall i :: 0 <= i < |steps| ==> Enabled(ss[i], steps[i]) && ss[i + 1] == Apply(ss[i], steps[i])
  }

  lemma {:induction false} ExecutionInv(ss: seq<Server>, steps: seq<Step>, n: nat)
    requires Execution(ss, steps) && n < |ss|
    ensures Inv(ss[n])
  {
    if n > 0 {
      ExecutionInv(ss, steps, n - 1);
      StepKeeps(ss[n - 1], steps[n - 1]);
    }
  }

  /**
    Over every interleaving of the two threads, with connections closed and slots reused at any
    time: the acknowledgements written on a connection strictly increase, and each names a file
    that was received on that same connection and taken by the application.
   */
  lemma AcksAreSafe(ss: seq<Server>, steps: seq<Step>, n: nat, c: nat)
    requires Execution(ss, steps) && n < |ss| && c < |ss[n].received|
    ensures c < |ss[n].acks| && Increasing(ss[n].acks[c])
    ensures forall x :: x in ss[n].acks[c] ==> x in ss[n].received[c] && x in From(ss[n].taken, c)
  {
    ExecutionInv(ss, steps, n);
    assert From(ss[n].taken, c) + From(ss[n].queue, c) == ss[n].received[c];
  }

  // ---------------------------------------------------------------- acknowledgements do go out

  /** Only slot `i` has changed, and nothing of what was received or taken. */
  ghost predicate OnlySlot(s: Server, t: Server, i: nat) {
    && |t.slots| == |s.slots| && t.queue == s.queue && t.taken == s.taken && t.received == s.received
    && forall j :: 0 <= j < |s.slots| && j != i ==> t.slots[j] == s.slots[j]
  }

  /**
    Acknowledging a file marks it exactly when its connection is still open in its slot and nothing
    newer was marked; one more is then waiting, and nothing has been written.
   */
  lemma AckFileMarksIff(s: Server, k: nat)
    requires Inv(s) && Enabled(s, AckFile(k))
    ensures var t, f := Apply(s, AckFile(k)), s.taken[k];
      && OnlySlot(s, t, f.slot) && t.acks == s.acks
      && t.slots[f.slot].cxId == s.slots[f.slot].cxId
      && (s.slots[f.slot].cxId == f.sender && Newer(f.id, s.slots[f.slot].ackFile) <==> t.slots[f.slot] != s.slots[f.slot])
      && (t.slots[f.slot] != s.slots[f.slot] ==>
            t.slots[f.slot].ackFile == f.id && t.slots[f.slot].nonAcknowledged == s.slots[f.slot].nonAcknowledged + 1)
  {
  }

  /** A line is written exactly on an open connection with more files waiting than asked for, if the socket takes it; it carries the mark. */
  lemma SendAckWritesIff(s: Server, i: nat, minNumber: nat, sent: bool)
    requires Inv(s) && Enabled(s, SendAck(i, minNumber, sent))
    ensures var t, x := Apply(s, SendAck(i, minNumber, sent)), s.slots[i];
      && OnlySlot(s, t, i) && |t.acks| == |s.acks|
      && t.slots[i].cxId == x.cxId && t.slots[i].ackFile == x.ackFile
      && (forall c :: 0 <= c < |s.acks| && c != x.cxId ==> t.acks[c] == s.acks[c])
      && (x.cxId >= 0 ==>
            if x.nonAcknowledged > minNumber && sent
            then t.acks[x.cxId] == s.acks[x.cxId] + [x.ackFile] && t.slots[i].nonAcknowledged == 0
            else t.acks[x.cxId] == s.acks[x.cxId] && t.slots[i] == x)
  {
  }

  /** A closed slot is free: it can be accepted again, and everything else is as it was. */
  lemma CloseFrees(s: Server, i: nat)
    requires Inv(s) && Enabled(s, Close(i))
    ensures var t := Apply(s, Close(i));
      && OnlySlot(s, t, i) && t.acks == s.acks && Enabled(t, Accept(i)) && !Enabled(t, Complete(i, ZERO))
  {
  }

  /** A new connection gets a number of its own, with nothing received, marked or written. */
  lemma AcceptOpens(s: Server, i: nat)
    requires Inv(s) && Enabled(s, Accept(i))
    ensures var t, c := Apply(s, Accept(i)), |s.received|;
      && |t.slots| == |s.slots| && t.queue == s.queue && t.taken == s.taken
      && (forall j :: 0 <= j < |s.slots| && j != i ==> t.slots[j] == s.slots[j] && t.slots[j].cxId != c)
      && t.slots[i] == Slot(c, ZERO, 0) && t.received == s.received + [[]] && t.acks == s.acks + [[]]
  {
    assert forall j :: 0 <= j < |s.slots| ==> s.slots[j].cxId < |s.received|;
  }

  /** A completed file goes to the end of the queue, and is taken when those before it have been. */
  lemma CompleteAndTake(s: Server, i: nat, id: FileId)
    requires Inv(s) && Enabled(s, Complete(i, id))
    ensures var t, f := Apply(s, Complete(i, id)), Tagged(id, i, s.slots[i].cxId);
      && t.queue == s.queue + [f] && t.slots == s.slots && t.taken == s.taken && t.acks == s.acks
      && t.received[f.sender] == s.received[f.sender] + [id]
      && Enabled(t, Take) && Apply(t, Take).taken == s.taken + [t.queue[0]] && Apply(t, Take).queue == t.queue[1..]
      && Apply(t, Take).slots == t.slots && Apply(t, Take).acks == t.acks && Apply(t, Take).received == t.received
  {
  }

  /** The file acknowledged by a step, if its connection `c` is still open in its slot. */
  ghost predicate Acknowledges(s: Server, step: Step, c: nat) {
    && step.AckFile? && Enabled(s, step)
    && s.taken[step.k].sender == c && s.slots[s.taken[step.k].slot].cxId == c
  }

  /** The newest file of connection `c` that the application has acknowledged while it was open. */
  ghost function NewestAcknowledged(ss: seq<Server>, steps: seq<Step>, n: nat, c: nat): FileId
    requires n <= |steps| < |ss|
  {
    if n == 0 then ZERO
    else
      var m := NewestAcknowledged(ss, steps, n - 1, c);
      if Acknowledges(ss[n - 1], steps[n - 1], c) && Newer(ss[n - 1].taken[steps[n - 1].k].id, m)
      then ss[n - 1].taken[steps[n - 1].k].id else m
  }

  /** A file of an open connection has the slot that the connection is in. */
  ghost predicate SlotsMatch(s: Server) {
    && (forall k, i :: 0 <= k < |s.taken| && 0 <= i < |s.slots| && s.slots[i].cxId == s.taken[k].sender ==> s.taken[k].slot == i)
    && (forall k, i :: 0 <= k < |s.queue| && 0 <= i < |s.slots| && s.slots[i].cxId == s.queue[k].sender ==> s.queue[k].slot == i)
  }

  lemma StepMatches(s: Server, step: Step)
    requires Inv(s) && SlotsMatch(s) && Enabled(s, step)
    ensures SlotsMatch(Apply(s, step))
  {
    var t := Apply(s, step);
    match step
    case Complete(i, id) =>
      forall k, j | 0 <= k < |t.queue| && 0 <= j < |t.slots| && t.slots[j].cxId == t.queue[k].sender
        ensures t.queue[k].slot == j
      {
        if k < |s.queue| { assert t.queue[k] == s.queue[k]; }
      }
    case Take =>
      assert forall k :: 0 <= k < |t.queue| ==> t.queue[k] == s.queue[k + 1];
    case _ =>
  }

  lemma {:induction false} ExecutionMatches(ss: seq<Server>, steps: seq<Step>, n: nat)
    requires Execution(ss, steps) && n < |ss|
    ensures Inv(ss[n]) && SlotsMatch(ss[n])
  {
    ExecutionInv(ss, steps, n);
    if n > 0 {
      ExecutionMatches(ss, steps, n - 1);
      StepMatches(ss[n - 1], steps[n - 1]);
    }
  }

  /** No connection with this number yet: nothing of it was acknowledged. */
  lemma {:induction false} NothingAcknowledged(ss: seq<Server>, steps: seq<Step>, n: nat, c: nat)
    requires Execution(ss, steps) && n < |ss| && |ss[n].received| <= c
    ensures NewestAcknowledged(ss, steps, n, c) == ZERO
  {
    if n > 0 {
      ExecutionInv(ss, steps, n - 1);
      NothingAcknowledged(ss, steps, n - 1, c);
    }
  }

  lemma StepMark(s: Server, step: Step, i: nat)
    requires Inv(s) && SlotsMatch(s) && Enabled(s, step) && i < |s.slots| && !(step.Accept? && step.slot == i)
    requires |Apply(s, step).slots| == |s.slots| && Apply(s, step).slots[i].cxId >= 0
    ensures var x, y := s.slots[i], Apply(s, step).slots[i];
      && y.cxId == x.cxId
      && y.ackFile == if Acknowledges(s, step, x.cxId) && Newer(s.taken[step.k].id, x.ackFile) then s.taken[step.k].id else x.ackFile
  {
  }

  lemma StepSlots(s: Server, step: Step)
    requires Enabled(s, step)
    ensures |Apply(s, step).slots| == |s.slots|
    ensures step.Accept? ==> Apply(s, step).slots[step.slot] == Slot(|s.received|, ZERO, 0)
  {
  }

  lemma NewestStep(ss: seq<Server>, steps: seq<Step>, n: nat, c: nat)
    requires 0 < n <= |steps| < |ss|
    ensures var m, s, step := NewestAcknowledged(ss, steps, n - 1, c), ss[n - 1], steps[n - 1];
      NewestAcknowledged(ss, steps, n, c) ==
        if Acknowledges(s, step, c) && Newer(s.taken[step.k].id, m) then s.taken[step.k].id else m
  {
  }

  /** On every open connection the mark is the newest file acknowledged by the application. */
  lemma {:induction false} MarkIsNewest(ss: seq<Server>, steps: seq<Step>, n: nat, i: nat)
    requires Execution(ss, steps) && n < |ss| && i < |ss[n].slots| && ss[n].slots[i].cxId >= 0
    ensures ss[n].slots[i].ackFile == NewestAcknowledged(ss, steps, n, ss[n].slots[i].cxId)
  {
    if n > 0 {
      var s, step := ss[n - 1], steps[n - 1];
      StepSlots(s, step);
      if step.Accept? && step.slot == i {
        NothingAcknowledged(ss, steps, n - 1, |s.received|);
      } else {
        ExecutionMatches(ss, steps, n - 1);
        StepMark(s, step, i);
        MarkIsNewest(ss, steps, n - 1, i);
      }
      NewestStep(ss, steps, n, ss[n].slots[i].cxId);
    }
  }

  /** Once nothing waits on an open connection, the last line on it names the newest file acknowledged. */
  lemma LastLineIsNewest(ss: seq<Server>, steps: seq<Step>, n: nat, i: nat)
    requires Execution(ss, steps) && n < |ss| && i < |ss[n].slots|
    requires ss[n].slots[i].cxId >= 0 && ss[n].slots[i].nonAcknowledged == 0
    ensures var c := ss[n].slots[i].cxId;
      c < |ss[n].acks| && LastAck(ss[n].acks[c]) == NewestAcknowledged(ss, steps, n, c)
  {
    ExecutionInv(ss, steps, n);
    MarkIsNewest(ss, steps, n, i);
    assert SlotInv(ss[n].slots[i], From(ss[n].taken, ss[n].slots[i].cxId), ss[n].acks[ss[n].slots[i].cxId]);
  }
}
