/**
  Whole runs of the permanent FIFO: any interleaving of writes, reads, flushes and
  acknowledgements behaves as one unbounded queue, and a crash between any two of them
  loses exactly what was not flushed and brings back nothing that was acknowledged.
 */
module PermFifoRuns {
  import opened Items
  import opened PermFifoModel

  datatype Op = WriteOp(data: seq<char>) | ReadOp | FlushOp | AckOp(id: nat)

  function Step(s: State, op: Op): (State, ReadResult)
    requires s.lastOut <= |s.file.records|
  {
    match op
    case WriteOp(data) => (Write(s, data), Nothing)
    case ReadOp => Read(s)
    case FlushOp => (SaveTableDisk(s), Nothing)
    case AckOp(id) => (Ack(s, id), Nothing)
  }

  // ---------------------------------------------------------------- the reference: an unbounded queue

  datatype Queue = Queue(items: seq<Item>, written: nat, lastRead: nat)

  function QueueStep(q: Queue, op: Op): (Queue, ReadResult) {
    match op
    case WriteOp(data) =>
      (q.(items := q.items + [Item(q.written + 1, data)], written := q.written + 1), Nothing)
    case ReadOp =>
      if q.items == [] then (q, Nothing)
      else (q.(items := q.items[1..], lastRead := q.items[0].id), Got(q.items[0]))
    case FlushOp => (q, Nothing)
    case AckOp(_) => (q, Nothing)
  }

  /** What callers owe: acknowledge only what was read, and stay below the id limit. */
  predicate Legal(q: Queue, op: Op) {
    match op
    case WriteOp(_) => q.written + 1 < ID_LIMIT
    case AckOp(id) => id <= q.lastRead
    case _ => true
  }

  predicate LegalRun(q: Queue, ops: seq<Op>)
    decreases |ops|
  {
    ops == [] || (Legal(q, ops[0]) && LegalRun(QueueStep(q, ops[0]).0, ops[1..]))
  }

  function QueueOutputs(q: Queue, ops: seq<Op>): seq<ReadResult>
    decreases |ops|
  {
    if ops == [] then []
    else [QueueStep(q, ops[0]).1] + QueueOutputs(QueueStep(q, ops[0]).0, ops[1..])
  }

  ghost function QueueOf(s: State): Queue { Queue(Unread(s), s.currentId, s.lastIdOut) }

  lemma ReadStepRefines(s: State)
    requires Inv(s)
    ensures Inv(Read(s).0)
    ensures QueueOf(Read(s).0) == QueueStep(QueueOf(s), ReadOp).0
    ensures Read(s).1 == QueueStep(QueueOf(s), ReadOp).1
  {
    ReadRefines(s);
  }

  lemma WriteStepRefines(s: State, data: seq<char>)
    requires Inv(s) && s.currentId + 1 < ID_LIMIT
    ensures Inv(Write(s, data))
    ensures QueueOf(Write(s, data)) == QueueStep(QueueOf(s), WriteOp(data)).0
  {
    WriteShape(s, data);
    WriteRefines(s, data);
    QueueGrows(s, Write(s, data), data);
  }

  lemma QueueGrows(s: State, w: State, data: seq<char>)
    requires Unread(w) == Unread(s) + [Item(s.currentId + 1, data)] && w.currentId == s.currentId + 1 && w.lastIdOut == s.lastIdOut
    ensures QueueOf(w) == QueueStep(QueueOf(s), WriteOp(data)).0
  {
  }

  /** One operation is one step of the unbounded queue. */
  lemma StepRefines(s: State, op: Op)
    requires Inv(s) && Legal(QueueOf(s), op)
    ensures Inv(Step(s, op).0)
    ensures QueueOf(Step(s, op).0) == QueueStep(QueueOf(s), op).0
    ensures Step(s, op).1 == QueueStep(QueueOf(s), op).1
  {
    match op
    case WriteOp(data) => WriteStepRefines(s, data);
    case ReadOp => ReadStepRefines(s);
    case FlushOp => FlushRefines(s);
    case AckOp(id) => AckRefines(s, id);
  }

  ghost function Outputs(s: State, ops: seq<Op>): seq<ReadResult>
    requires Inv(s) && LegalRun(QueueOf(s), ops)
    decreases |ops|
  {
    if ops == [] then []
    else
      StepRefines(s, ops[0]);
      [Step(s, ops[0]).1] + Outputs(Step(s, ops[0]).0, ops[1..])
  }

  /** Every legal interleaving returns what the unbounded queue returns. */
  lemma {:induction false} RunRefines(s: State, ops: seq<Op>)
    requires Inv(s) && LegalRun(QueueOf(s), ops)
    ensures Outputs(s, ops) == QueueOutputs(QueueOf(s), ops)
    decreases |ops|
  {
    if ops != [] {
      StepRefines(s, ops[0]);
      RunRefines(Step(s, ops[0]).0, ops[1..]);
    }
  }

  // ---------------------------------------------------------------- crash and reopening

  /** Ids 1, 2, ... in place of the old ones, as the copy loop of the cleaning assigns them. */
  function Renumbered(s: seq<Item>, first: nat): (r: seq<Item>)
    ensures |r| == |s|
    ensures forall i :: 0 <= i < |s| ==> r[i] == Item(first + i, s[i].data)
  {
    seq(|s|, i requires 0 <= i < |s| => Item(first + i, s[i].data))
  }

  /** What `permFIFO_file_clean` leaves behind when it runs to its end on a valid file. */
  function Cleaned(f: FifoFile): FifoFile {
    if f.lastAckId == 0 then
      f.(currentId := if f.records == [] then f.currentId else LastId(f.records))
    else
      var kept := Renumbered(Drop(f.records, f.lastAckId), 1);
      FifoFile(0, |kept|, kept)
  }

  /** The part of a file that is still owed to the reader. */
  function Pending(f: FifoFile): seq<Item> { Above(f.records, f.lastAckId) }

  ghost predicate FileOk(f: FifoFile) {
    && Sorted(f.records)
    && (forall i :: 0 <= i < |f.records| ==> 1 <= f.records[i].id < ID_LIMIT)
    && (f.lastAckId == 0 && f.records == [] ==> f.currentId == 0)
  }

  /** A sorted run of positive ids is no longer than its last id. */
  lemma {:induction false} SortedLength(s: seq<Item>)
    requires Sorted(s) && s != [] && s[0].id >= 1
    ensures |s| <= LastId(s)
  {
    if |s| > 1 {
      SortedLength(s[..|s| - 1]);
    }
  }

  /** A file as cleaning leaves it. */
  ghost predicate CleanFile(c: FifoFile) {
    && FileOk(c)
    && c.lastAckId == 0
    && c.currentId == if c.records == [] then 0 else LastId(c.records)
  }

  lemma OpenInv(c: FifoFile, size: nat)
    requires CleanFile(c) && size > 0
    ensures Inv(Open(size, c)) && Unread(Open(size, c)) == c.records
  {
    AboveAll(c.records, 0);
    assert Stored(Open(size, c)) == c.records;
  }

  lemma PendingInRange(f: FifoFile)
    requires FileOk(f)
    ensures Sorted(Pending(f))
    ensures |Pending(f)| < ID_LIMIT
  {
    var p := Pending(f);
    AboveSorted(f.records, f.lastAckId);
    if p != [] {
      AboveMembers(f.records, f.lastAckId, p[0]);
      AboveMembers(f.records, f.lastAckId, p[|p| - 1]);
      SortedLength(p);
    }
  }

  /** Cleaning keeps the pending items, in order; only their ids may change. */
  lemma CleanedKeepsPending(f: FifoFile)
    requires FileOk(f)
    ensures CleanFile(Cleaned(f))
    ensures Payloads(Cleaned(f).records) == Payloads(Pending(f))
  {
    if f.lastAckId == 0 {
      AboveAll(f.records, 0);
    } else {
      DropIsAbove(f.records, f.lastAckId);
      PendingInRange(f);
    }
  }

  /** Reopening a file yields a sound FIFO holding exactly its pending items, in order. */
  lemma ReopenRecovers(f: FifoFile, size: nat)
    requires FileOk(f) && size > 0
    ensures CleanFile(Cleaned(f)) && Inv(Open(size, Cleaned(f)))
    ensures Unread(Open(size, Cleaned(f))) == Cleaned(f).records
    ensures Payloads(Cleaned(f).records) == Payloads(Pending(f))
  {
    CleanedKeepsPending(f);
    OpenInv(Cleaned(f), size);
  }

  /** What a session did to the disk: everything flushed to it, and the last acknowledgement. */
  datatype History = History(flushed: seq<Item>, acked: nat)

  /** `flushed` grows by what a step appends to the file; an acknowledgement is remembered. */
  function Track(h: History, s: State, op: Op): History {
    match op
    case WriteOp(data) => h.(flushed := h.flushed + Added(s, Write(s, data)))
    case ReadOp => h
    case FlushOp => h.(flushed := h.flushed + s.disk)
    case AckOp(id) => h.(acked := id)
  }

  function Added(s: State, t: State): seq<Item> {
    if |s.file.records| <= |t.file.records| then t.file.records[|s.file.records|..] else []
  }

  /** The file owes the reader exactly what was flushed and not acknowledged. */
  ghost predicate DurableInv(s: State, h: History) {
    && Inv(s)
    && Pending(s.file) == Above(h.flushed, h.acked)
    && s.file.lastAckId <= h.acked <= s.lastIdOut
    && AllAbove(s.disk, h.acked)
    && (s.ackOnDisk <==> s.file.records != [])
    && (s.file.lastAckId == 0 && s.file.records == [] ==> s.file.currentId == 0)
  }

  lemma DurableFileOk(s: State, h: History)
    requires DurableInv(s, h)
    ensures FileOk(s.file)
  {
  }

  lemma FlushKeepsDurable(s: State, h: History, t: State, h': History)
    requires DurableInv(s, h) && Inv(t)
    requires t.file == s.file.(records := s.file.records + s.disk)
    requires t.lastIdOut == s.lastIdOut && t.ackOnDisk == (s.ackOnDisk || s.disk != [])
    requires AllAbove(t.disk, h.acked)
    requires h' == h.(flushed := h.flushed + s.disk)
    ensures DurableInv(t, h')
  {
    AboveConcat(s.file.records, s.disk, s.file.lastAckId);
    AboveConcat(h.flushed, s.disk, h.acked);
    AboveAll(s.disk, h.acked);
    AboveAll(s.disk, s.file.lastAckId);
  }

  /** A write that leaves the file alone. */
  lemma AppendKeepsDurable(s: State, h: History, t: State, item: Item)
    requires DurableInv(s, h) && Inv(t) && t.file == s.file && t.disk == s.disk + [item] && item.id > s.currentId
    requires t.lastIdOut == s.lastIdOut && t.ackOnDisk == s.ackOnDisk
    ensures DurableInv(t, h)
  {
  }

  lemma TrackWrite(s: State, h: History, data: seq<char>)
    requires Appended(s, Write(s, data), Item(s.currentId + 1, data))
    ensures var w, g := Write(s, data), Track(h, s, WriteOp(data));
      if w.file == s.file then g == h && w.disk == s.disk + [Item(s.currentId + 1, data)] && w.ackOnDisk == s.ackOnDisk
      else g == h.(flushed := h.flushed + s.disk) && s.disk != [] && w.file == s.file.(records := Stored(s))
           && w.disk == [Item(s.currentId + 1, data)] && w.ackOnDisk
  {
    var w := Write(s, data);
    if w.file == s.file {
      assert Added(s, w) == [] && h.flushed + [] == h.flushed;
    } else {
      assert Added(s, w) == s.disk;
    }
  }

  lemma WriteKeepsDurable(s: State, h: History, data: seq<char>)
    requires DurableInv(s, h) && s.currentId + 1 < ID_LIMIT
    ensures DurableInv(Write(s, data), Track(h, s, WriteOp(data)))
  {
    var w, item := Write(s, data), Item(s.currentId + 1, data);
    WriteShape(s, data);
    WriteRefines(s, data);
    TrackWrite(s, h, data);
    if w.file == s.file {
      AppendKeepsDurable(s, h, w, item);
    } else {
      FlushKeepsDurable(s, h, w, Track(h, s, WriteOp(data)));
    }
  }

  /** What the file owes after an acknowledgement that does not go backwards. */
  lemma AckOwes(s: State, h: History, id: nat)
    requires DurableInv(s, h) && h.acked <= id <= s.lastIdOut
    ensures Pending(Ack(s, id).file) == Above(h.flushed, id)
  {
    AboveTwice(h.flushed, h.acked, id);
    AboveTwice(s.file.records, s.file.lastAckId, id);
    if !s.ackOnDisk || s.lastIdOnDisk <= id {
      AboveNone(s.file.records, id);
    }
  }

  lemma AckLeaves(s: State, id: nat)
    requires Inv(s)
    ensures AllAbove(Ack(s, id).disk, id)
  {
    DropIsAbove(s.disk, id);
    AboveAllAbove(s.disk, id);
  }

  lemma AckKeepsDurable(s: State, h: History, id: nat)
    requires DurableInv(s, h) && h.acked <= id <= s.lastIdOut
    ensures DurableInv(Ack(s, id), h.(acked := id))
  {
    AckRefines(s, id);
    AckOwes(s, h, id);
    AckLeaves(s, id);
  }

  /** Acknowledgements must not go backwards. */
  predicate InOrder(h: History, op: Op) {
    op.AckOp? ==> h.acked <= op.id
  }

  lemma StepKeepsDurable(s: State, h: History, op: Op)
    requires DurableInv(s, h) && Legal(QueueOf(s), op) && InOrder(h, op)
    ensures DurableInv(Step(s, op).0, Track(h, s, op))
  {
    match op
    case WriteOp(data) => WriteKeepsDurable(s, h, data);
    case ReadOp => ReadKeepsDurable(s, h);
    case FlushOp => SaveKeepsDurable(s, h);
    case AckOp(id) => AckKeepsDurable(s, h, id);
  }

  lemma ReadKeepsDurable(s: State, h: History)
    requires DurableInv(s, h)
    ensures DurableInv(Read(s).0, h)
  {
    ReadRefines(s);
    ReadKeepsDisk(s);
  }

  lemma SaveKeepsDurable(s: State, h: History)
    requires DurableInv(s, h)
    ensures DurableInv(SaveTableDisk(s), h.(flushed := h.flushed + s.disk))
  {
    FlushRefines(s);
    if s.disk == [] {
      assert s.file.records + s.disk == s.file.records && h.flushed + s.disk == h.flushed;
    } else {
      FlushKeepsDurable(s, h, SaveTableDisk(s), h.(flushed := h.flushed + s.disk));
    }
  }

  /** A read changes nothing that matters after a crash. */
  lemma ReadKeepsDisk(s: State)
    requires Inv(s)
    ensures var t := Read(s).0;
      t.file == s.file && t.disk == s.disk && t.ackOnDisk == s.ackOnDisk && t.lastIdOut >= s.lastIdOut
  {
    ReadRefines(s);
    if Unread(s) != [] {
      AboveMembers(Stored(s), s.lastIdOut, Unread(s)[0]);
    }
  }

  // ---------------------------------------------------------------- any number of sessions

  /** A session step, or a crash followed by reopening with tables of the given size. */
  datatype Event = Do(op: Op) | Crash(size: nat)

  datatype World = World(state: State, history: History)

  function Reopened(f: FifoFile, size: nat): World {
    World(Open(size, Cleaned(f)), History(Cleaned(f).records, 0))
  }

  function Next(w: World, e: Event): World
    requires w.state.lastOut <= |w.state.file.records|
  {
    match e
    case Do(op) => World(Step(w.state, op).0, Track(w.history, w.state, op))
    case Crash(size) => Reopened(w.state.file, size)
  }

  ghost predicate Allowed(w: World, e: Event) {
    match e
    case Do(op) => Legal(QueueOf(w.state), op) && InOrder(w.history, op)
    case Crash(size) => size > 0
  }

  lemma ReopenedDurable(f: FifoFile, size: nat)
    requires FileOk(f) && size > 0
    ensures DurableInv(Reopened(f, size).state, Reopened(f, size).history)
  {
    ReopenRecovers(f, size);
    AboveAll(Cleaned(f).records, 0);
  }

  lemma EventKeepsDurable(w: World, e: Event)
    requires DurableInv(w.state, w.history) && Allowed(w, e)
    ensures DurableInv(Next(w, e).state, Next(w, e).history)
  {
    match e
    case Do(op) => StepKeepsDurable(w.state, w.history, op);
    case Crash(size) =>
      DurableFileOk(w.state, w.history);
      ReopenedDurable(w.state.file, size);
  }

  ghost predicate Execution(ws: seq<World>, es: seq<Event>) {
    && |ws| == |es| + 1
    && (forall i :: 0 <= i < |ws| ==> ws[i].state.lastOut <= |ws[i].state.file.records|)
    && (forall i :: 0 <= i < |es| ==> Allowed(ws[i], es[i]) && ws[i + 1] == Next(ws[i], es[i]))
  }

  lemma {:induction false} ExecutionDurable(ws: seq<World>, es: seq<Event>, i: nat)
    requires Execution(ws, es) && i < |ws|
    requires DurableInv(ws[0].state, ws[0].history)
    ensures DurableInv(ws[i].state, ws[i].history)
  {
    if i > 0 {
      ExecutionDurable(ws, es, i - 1);
      EventKeepsDurable(ws[i - 1], es[i - 1]);
    }
  }

  /**
    Crash recovery over every execution: whenever the process dies, reopening gives a FIFO
    whose unread items are, in order, exactly those flushed and not acknowledged; so nothing
    acknowledged comes back.
   */
  lemma CrashRecovery(f: FifoFile, size: nat, ws: seq<World>, es: seq<Event>, i: nat)
    requires FileOk(f) && size > 0
    requires Execution(ws, es) && ws[0] == Reopened(f, size)
    requires i < |es| && es[i].Crash?
    ensures Payloads(Unread(ws[i + 1].state)) == Payloads(Above(ws[i].history.flushed, ws[i].history.acked))
  {
    ReopenedDurable(f, size);
    ExecutionDurable(ws, es, i);
    DurableFileOk(ws[i].state, ws[i].history);
    ReopenRecovers(ws[i].state.file, es[i].size);
  }

  // ---------------------------------------------------------------- acknowledgements that go backwards

  /**
    The order of acknowledgements matters exactly when a record lies between the new
    acknowledgement and the one on disk: then, and only then, the file owes the reader
    something else than what was owed before minus what is acknowledged now.
   */
  lemma AckExactIff(s: State, id: nat)
    requires Inv(s) && id <= s.lastIdOut
    ensures Pending(Ack(s, id).file) == Above(Pending(s.file), id)
       <==> forall r :: r in s.file.records && s.lastIdOnDisk > id ==> !(id < r.id <= s.file.lastAckId)
  {
    var t := Ack(s, id);
    AboveTwice(s.file.records, s.file.lastAckId, id);
    if !s.ackOnDisk || s.lastIdOnDisk <= id {
      AboveNone(s.file.records, id);
      AboveNone(s.file.records, if s.file.lastAckId < id then id else s.file.lastAckId);
      assert t.file.records == [];
    } else {
      BoundsAgreeIff(s.file.records, id, if s.file.lastAckId < id then id else s.file.lastAckId);
    }
  }

  lemma {:induction false} BoundsAgreeIff(s: seq<Item>, lo: nat, hi: nat)
    requires lo <= hi
    ensures Above(s, lo) == Above(s, hi) <==> forall r :: r in s ==> !(lo < r.id <= hi)
  {
    if r :| r in s && lo < r.id <= hi {
      AboveMembers(s, lo, r);
      AboveMembers(s, hi, r);
    } else {
      BoundsAgree(s, lo, hi);
    }
  }

  lemma {:induction false} BoundsAgree(s: seq<Item>, lo: nat, hi: nat)
    requires lo <= hi && forall r :: r in s ==> !(lo < r.id <= hi)
    ensures Above(s, lo) == Above(s, hi)
  {
    if s != [] {
      assert s[0] in s;
      BoundsAgree(s[1..], lo, hi);
    }
  }

  /** Five records, of which the first three were acknowledged: acknowledging the second again brings back the third. */
  lemma AckBackwards()
    ensures var x := (i: nat) => Item(i, ['x']);
      var f := FifoFile(3, 5, [x(1), x(2), x(3), x(4), x(5)]);
      var s := State(9, [], [], f, 5, 5, 0, 1, 5, true);
      Inv(s) && x(3) !in Pending(f) && x(3) in Pending(Ack(s, 2).file)
  {
    var x := (i: nat) => Item(i, ['x']);
    var f := FifoFile(3, 5, [x(1), x(2), x(3), x(4), x(5)]);
    var s := State(9, [], [], f, 5, 5, 0, 1, 5, true);
    assert Stored(s) == f.records;
    AboveNone(f.records, 5);
    assert f.records[..0] == [];
    AboveMembers(f.records, 3, x(3));
    AboveMembers(f.records, 2, x(3));
    assert f.records[2] == x(3);
  }

  // ---------------------------------------------------------------- a crash inside an acknowledgement

  /** The file when the program dies between truncating it and writing its header. */
  function Torn(f: FifoFile): FifoFile { f.(records := []) }

  /** The FIFO opened on it. */
  function ReopenedTorn(f: FifoFile, size: nat): State { Open(size, Cleaned(Torn(f))) }

  /**
    Nothing is owed then, and the reopened FIFO says so exactly when the header on disk records an
    acknowledgement already, or no id; otherwise reading fails.
   */
  lemma TornAckIff(f: FifoFile, size: nat)
    requires size > 0
    ensures Pending(Torn(f)) == []
    ensures Read(ReopenedTorn(f, size)).1 == Nothing <==> f.lastAckId != 0 || f.currentId == 0
    ensures !(f.lastAckId != 0 || f.currentId == 0) ==> Read(ReopenedTorn(f, size)).1 == Failed
  {
  }

  /** In that case an item written is not read until it has been saved; then it is. */
  lemma StuckUntilSaved(f: FifoFile, size: nat, data: seq<char>)
    requires size > 0 && f.lastAckId == 0 && 0 < f.currentId < ID_LIMIT - 1
    ensures var s := Write(ReopenedTorn(f, size), data);
      && Read(s).1 == Failed
      && Read(SaveTableDisk(s)).1 == Got(Item(f.currentId + 1, data))
  {
    var item := Item(f.currentId + 1, data);
    var s := Write(ReopenedTorn(f, size), data);
    assert s.disk == [item] && s.file.records == [];
    assert Consecutive(s.disk, 1) == [];
    var t := SaveTableDisk(s);
    assert t.file.records == [item] && t.file.records[0..] == [item];
    AboveAll([item], 0);
    assert LoadFromFile(t).client == [item];
  }

  /** It is reached: a FIFO opened on one record, which is read and acknowledged. */
  lemma TornAckReached()
    ensures var f := FifoFile(0, 1, [Item(1, ['x'])]);
      && CleanFile(f) && Read(Open(1, f)).1 == Got(Item(1, ['x']))
      && Ack(Read(Open(1, f)).0, 1).file.records == []
      && Read(ReopenedTorn(f, 1)).1 == Failed
  {
    var f := FifoFile(0, 1, [Item(1, ['x'])]);
    OpenInv(f, 1);
    ReadRefines(Open(1, f));
    ReadKeepsDisk(Open(1, f));
    TornAckIff(f, 1);
  }
}
