/**
  A client process with its permanent FIFO and its session, over any number of crashes and restarts.
  A restart opens the FIFO again, where items may get new ids, and starts a new session against the
  same server: connections of earlier lives count as those of another client.
 */
module Restarts {
  import opened Items
  import opened PermFifoModel
  import opened PermFifoRuns
  import opened FileIds
  import O = Options
  import T = TransportSession

  datatype Process = Process(fifo: World, session: T.Session)

  datatype Act =
    | Write(data: seq<char>)
    | Flush
    | ReadAcks(n: nat)
    | Pick
    | Other(step: T.Step)
    | Restart(size: nat)

  /** Every other step of the session leaves the items alone. */
  predicate Plain(step: T.Step) { !step.WriteItem? && !step.ReadAcks? && !step.Pick? }

  predicate Allowed(p: Process, a: Act) {
    && p.fifo.state.lastOut <= |p.fifo.state.file.records|
    && match a
    case Write(_) =>
      p.fifo.state.currentId + 1 < INT32_LIMIT && T.Enabled(p.session, T.WriteItem(p.fifo.state.currentId + 1))
    case Flush => true
    case ReadAcks(n) => T.Enabled(p.session, T.ReadAcks(n))
    case Pick => T.Enabled(p.session, T.Pick)
    case Other(step) => Plain(step) && T.Enabled(p.session, step)
    case Restart(size) => size > 0
  }

  function Ids(q: seq<Item>): (r: seq<nat>)
    ensures |r| == |q| && forall i :: 0 <= i < |q| ==> r[i] == q[i].id
  {
    seq(|q|, i requires 0 <= i < |q| => q[i].id)
  }

  /** The session acknowledges, one after the other, the items it has removed from its queue. */
  function AckEach(w: World, ids: seq<nat>): World {
    if ids == [] then w
    else
      var v := AckEach(w, ids[..|ids| - 1]);
      World(Ack(v.state, ids[|ids| - 1]), v.history.(acked := ids[|ids| - 1]))
  }

  /** A new session of a client whose FIFO holds these ids. */
  function NewSession(s: T.Session, log: seq<nat>): T.Session {
    s.(client := T.Client(log, 0, [], [], s.client.capacity, ZERO, O.None), starts := seq(|s.starts|, _ => -1))
  }

  function Next(p: Process, a: Act): Process
    requires Allowed(p, a)
  {
    var w, s := p.fifo, p.session;
    match a
    case Write(data) =>
      Process(PermFifoRuns.Next(w, Do(WriteOp(data))), T.Apply(s, T.WriteItem(w.state.currentId + 1)))
    case Flush => p.(fifo := PermFifoRuns.Next(w, Do(FlushOp)))
    case ReadAcks(n) =>
      var t := T.Apply(s, T.ReadAcks(n));
      Process(AckEach(w, if |s.client.acked| <= |t.client.acked| then t.client.acked[|s.client.acked|..] else []), t)
    case Pick =>
      var t := T.Apply(s, T.Pick);
      Process(if t.client.read > s.client.read then PermFifoRuns.Next(w, Do(ReadOp)) else w, t)
    case Other(step) => p.(session := T.Apply(s, step))
    case Restart(size) =>
      var v := PermFifoRuns.Next(w, Crash(size));
      Process(v, NewSession(s, Ids(v.history.flushed)))
  }

  // ---------------------------------------------------------------- FIFO and session agree

  function LastOf(ids: seq<nat>): nat { if ids == [] then 0 else ids[|ids| - 1] }

  ghost predicate AllIn(q: seq<Item>, ids: seq<nat>) { forall i :: 0 <= i < |q| ==> q[i].id in ids }

  /** What the session has read and acknowledged is what the FIFO has handed out and was told. */
  ghost predicate Agree(w: World, k: T.Client) {
    && k.read <= |k.log|
    && Ids(Unread(w.state)) == k.log[k.read..]
    && w.state.lastIdOut == LastOf(k.log[..k.read])
    && w.state.currentId == LastOf(k.log) < INT32_LIMIT
    && w.history.acked == LastOf(k.acked)
    && AllIn(Stored(w.state), k.log) && AllIn(w.history.flushed, k.log)
  }

  ghost predicate Linked(p: Process) {
    && DurableInv(p.fifo.state, p.fifo.history)
    && T.Inv(p.session)
    && Agree(p.fifo, p.session.client)
  }

  lemma AllInMore(q: seq<Item>, ids: seq<nat>, x: nat)
    requires AllIn(q, ids)
    ensures AllIn(q, ids + [x])
  {
  }

  lemma AllInConcat(a: seq<Item>, b: seq<Item>, ids: seq<nat>)
    requires AllIn(a, ids) && AllIn(b, ids)
    ensures AllIn(a + b, ids)
  {
  }

  lemma DiskAllIn(s: State, ids: seq<nat>)
    requires AllIn(Stored(s), ids)
    ensures AllIn(s.disk, ids) && AllIn(s.file.records, ids)
  {
    forall i | 0 <= i < |s.disk| ensures s.disk[i].id in ids {
      assert Stored(s)[|s.file.records| + i] == s.disk[i];
    }
    forall i | 0 <= i < |s.file.records| ensures s.file.records[i].id in ids {
      assert Stored(s)[i] == s.file.records[i];
    }
  }

  // ---------------------------------------------------------------- each act keeps them in agreement

  /** Writing is possible as long as ids fit. */
  lemma WriteEnabled(p: Process, data: seq<char>)
    requires Agree(p.fifo, p.session.client) && T.Ordered(p.session.client.log)
    requires ClientInv(p.fifo.state) && p.fifo.state.currentId + 1 < INT32_LIMIT
    ensures Allowed(p, Write(data))
  {
  }

  /** What a write does to the FIFO, as far as the session is concerned. */
  ghost predicate Wrote(w: World, v: World, item: Item, added: seq<Item>) {
    && Unread(v.state) == Unread(w.state) + [item] && Stored(v.state) == Stored(w.state) + [item]
    && v.state.lastIdOut == w.state.lastIdOut && v.state.currentId == item.id == w.state.currentId + 1
    && v.history == w.history.(flushed := w.history.flushed + added)
  }

  lemma WriteFacts(w: World, data: seq<char>, log: seq<nat>) returns (added: seq<Item>)
    requires DurableInv(w.state, w.history) && AllIn(Stored(w.state), log)
    ensures Wrote(w, PermFifoRuns.Next(w, Do(WriteOp(data))), Item(w.state.currentId + 1, data), added) && AllIn(added, log)
  {
    var s, t, item := w.state, PermFifoModel.Write(w.state, data), Item(w.state.currentId + 1, data);
    WriteShape(s, data);
    WriteStored(s, data);
    AddedAllIn(s, t, item, log);
    added := Added(s, t);
  }

  lemma IdsSnoc(q: seq<Item>, x: Item)
    ensures Ids(q + [x]) == Ids(q) + [x.id]
  {
  }

  lemma WriteAgrees(w: World, k: T.Client, v: World, item: Item, added: seq<Item>)
    requires Agree(w, k) && w.state.currentId + 1 < INT32_LIMIT && Wrote(w, v, item, added) && AllIn(added, k.log)
    ensures Agree(v, k.(log := k.log + [item.id]))
  {
    var log := k.log + [item.id];
    assert log[k.read..] == k.log[k.read..] + [item.id] && log[..k.read] == k.log[..k.read];
    IdsSnoc(Unread(w.state), item);
    AllInMore(Stored(w.state), k.log, item.id);
    AllInConcat(Stored(w.state), [item], log);
    AllInConcat(w.history.flushed, added, k.log);
    AllInMore(w.history.flushed + added, k.log, item.id);
  }

  lemma AddedAllIn(s: State, t: State, item: Item, log: seq<nat>)
    requires AllIn(Stored(s), log) && Appended(s, t, item)
    ensures AllIn(Added(s, t), log)
  {
    DiskAllIn(s, log);
    if t.file != s.file {
      assert Added(s, t) == s.disk;
    }
  }

  lemma FifoKeeps(p: Process, e: Event)
    requires Linked(p) && PermFifoRuns.Allowed(p.fifo, e)
    ensures DurableInv(PermFifoRuns.Next(p.fifo, e).state, PermFifoRuns.Next(p.fifo, e).history)
  {
    EventKeepsDurable(p.fifo, e);
  }

  lemma SessionKeeps(p: Process, step: T.Step)
    requires Linked(p) && T.Enabled(p.session, step)
    ensures T.Inv(T.Apply(p.session, step))
  {
    T.StepKeeps(p.session, step);
  }

  lemma Link(w: World, s: T.Session)
    requires DurableInv(w.state, w.history) && T.Inv(s) && Agree(w, s.client)
    ensures Linked(Process(w, s))
  {
  }

  lemma WriteFifo(p: Process, data: seq<char>)
    requires DurableInv(p.fifo.state, p.fifo.history) && Allowed(p, Write(data))
    ensures DurableInv(Next(p, Write(data)).fifo.state, Next(p, Write(data)).fifo.history)
  {
    EventKeepsDurable(p.fifo, Do(WriteOp(data)));
  }

  lemma WriteSession(p: Process, data: seq<char>)
    requires T.Inv(p.session) && Allowed(p, Write(data))
    ensures T.Inv(Next(p, Write(data)).session)
  {
    T.StepKeeps(p.session, T.WriteItem(p.fifo.state.currentId + 1));
  }

  lemma WriteLog(p: Process, data: seq<char>)
    requires Allowed(p, Write(data))
    ensures Next(p, Write(data)).session.client == p.session.client.(log := p.session.client.log + [p.fifo.state.currentId + 1])
    ensures Next(p, Write(data)).fifo == PermFifoRuns.Next(p.fifo, Do(WriteOp(data)))
  {
  }

  lemma WriteAgreement(p: Process, data: seq<char>)
    requires DurableInv(p.fifo.state, p.fifo.history) && Agree(p.fifo, p.session.client) && Allowed(p, Write(data))
    ensures Agree(Next(p, Write(data)).fifo, Next(p, Write(data)).session.client)
  {
    var v := Next(p, Write(data)).fifo;
    var added := WriteFacts(p.fifo, data, p.session.client.log);
    WriteLog(p, data);
    WriteAgrees(p.fifo, p.session.client, v, Item(p.fifo.state.currentId + 1, data), added);
  }

  lemma WriteKeeps(p: Process, data: seq<char>)
    requires Linked(p) && Allowed(p, Write(data))
    ensures Linked(Next(p, Write(data)))
  {
    var q := Next(p, Write(data));
    WriteFifo(p, data);
    WriteSession(p, data);
    WriteAgreement(p, data);
    Link(q.fifo, q.session);
  }

  lemma FlushAgrees(w: World, k: T.Client)
    requires DurableInv(w.state, w.history) && Agree(w, k)
    ensures Agree(PermFifoRuns.Next(w, Do(FlushOp)), k)
  {
    FlushRefines(w.state);
    SaveRefines(w.state);
    DiskAllIn(w.state, k.log);
    AllInConcat(w.history.flushed, w.state.disk, k.log);
  }

  lemma FlushKeeps(p: Process)
    requires Linked(p) && Allowed(p, Flush)
    ensures Linked(Next(p, Flush))
  {
    FifoKeeps(p, Do(FlushOp));
    FlushAgrees(p.fifo, p.session.client);
    Link(PermFifoRuns.Next(p.fifo, Do(FlushOp)), p.session);
  }

  lemma ReadAgrees(w: World, k: T.Client)
    requires DurableInv(w.state, w.history) && Agree(w, k) && k.read < |k.log|
    ensures Agree(PermFifoRuns.Next(w, Do(ReadOp)), k.(read := k.read + 1))
  {
    var s := w.state;
    ReadRefines(s);
    ReadKeepsDisk(s);
    HeadRead(k.log, k.read, Unread(s));
  }

  lemma HeadRead(log: seq<nat>, read: nat, q: seq<Item>)
    requires read < |log| && Ids(q) == log[read..]
    ensures q != [] && q[0].id == log[read] == LastOf(log[..read + 1]) && Ids(q[1..]) == log[read + 1..]
  {
    assert |q| == |log[read..]| && q[0].id == log[read..][0];
    assert Ids(q[1..]) == Ids(q)[1..] && log[read..][1..] == log[read + 1..];
  }

  /** Only these parts of the client matter to the agreement. */
  lemma SameAgreement(w: World, k: T.Client, l: T.Client)
    requires Agree(w, k) && l.log == k.log && l.read == k.read && l.acked == k.acked
    ensures Agree(w, l)
  {
  }

  lemma PickClient(s: T.Session)
    requires T.Enabled(s, T.Pick)
    ensures var k, l := s.client, T.Apply(s, T.Pick).client;
      l.log == k.log && l.acked == k.acked && (l.read == k.read || (l.read == k.read + 1 && k.read < |k.log|))
  {
  }

  lemma PickKeeps(p: Process)
    requires Linked(p) && Allowed(p, Pick)
    ensures Linked(Next(p, Pick))
  {
    var k, t := p.session.client, T.Apply(p.session, T.Pick);
    SessionKeeps(p, T.Pick);
    PickClient(p.session);
    if t.client.read > k.read {
      var w := PermFifoRuns.Next(p.fifo, Do(ReadOp));
      FifoKeeps(p, Do(ReadOp));
      ReadAgrees(p.fifo, k);
      SameAgreement(w, k.(read := k.read + 1), t.client);
      Link(w, t);
    } else {
      SameAgreement(p.fifo, k, t.client);
      Link(p.fifo, t);
    }
  }

  lemma PlainClient(s: T.Session, step: T.Step)
    requires T.Enabled(s, step) && Plain(step)
    ensures var k, l := s.client, T.Apply(s, step).client; l.log == k.log && l.acked == k.acked && l.read == k.read
  {
  }

  lemma OtherKeeps(p: Process, step: T.Step)
    requires Linked(p) && Allowed(p, Other(step))
    ensures Linked(Next(p, Other(step)))
  {
    SessionKeeps(p, step);
    PlainClient(p.session, step);
    SameAgreement(p.fifo, p.session.client, T.Apply(p.session, step).client);
    Link(p.fifo, T.Apply(p.session, step));
  }

  // ---------------------------------------------------------------- acknowledgements

  ghost predicate Rising(ids: seq<nat>, low: nat, high: nat) {
    && (forall i :: 0 <= i < |ids| ==> low <= ids[i] <= high)
    && (forall i, j :: 0 <= i < j < |ids| ==> ids[i] < ids[j])
  }

  lemma AckStored(s: State, id: nat, log: seq<nat>)
    requires Inv(s) && AllIn(Stored(s), log)
    ensures AllIn(Stored(Ack(s, id)), log)
  {
    DiskAllIn(s, log);
    DropAllIn(s.disk, id, log);
    AllInConcat(s.file.records, Drop(s.disk, id), log);
    AllInConcat([], Drop(s.disk, id), log);
  }

  lemma {:induction false} DropAllIn(q: seq<Item>, id: nat, log: seq<nat>)
    requires AllIn(q, log)
    ensures AllIn(Drop(q, id), log)
  {
    if q != [] && q[0].id <= id { DropAllIn(q[1..], id, log); }
  }

  /** Acknowledging in order keeps the file exact and the queue as it was. */
  lemma {:induction false} AckEachKeeps(w: World, ids: seq<nat>, log: seq<nat>)
    requires DurableInv(w.state, w.history) && Rising(ids, w.history.acked, w.state.lastIdOut) && AllIn(Stored(w.state), log)
    ensures var v := AckEach(w, ids);
      && DurableInv(v.state, v.history) && v.history.flushed == w.history.flushed
      && v.history.acked == (if ids == [] then w.history.acked else LastOf(ids))
      && Unread(v.state) == Unread(w.state) && v.state.lastIdOut == w.state.lastIdOut && v.state.currentId == w.state.currentId
      && AllIn(Stored(v.state), log)
  {
    if ids != [] {
      var n := |ids| - 1;
      AckEachKeeps(w, ids[..n], log);
      var v := AckEach(w, ids[..n]);
      assert n > 0 ==> LastOf(ids[..n]) == ids[n - 1] < ids[n];
      AckKeepsDurable(v.state, v.history, ids[n]);
      AckRefines(v.state, ids[n]);
      AckStored(v.state, ids[n], log);
    }
  }

  /** What the session removes is acknowledged in the order of the log. */
  lemma RemovedRises(log: seq<nat>, a: nat, b: nat, read: nat)
    requires T.Ordered(log) && a <= b <= read <= |log|
    ensures log[..b][a..] == log[a..b] && Rising(log[a..b], LastOf(log[..a]), LastOf(log[..read]))
    ensures LastOf(log[..b]) == if b == a then LastOf(log[..a]) else LastOf(log[a..b])
  {
  }

  lemma ReadAcksClient(s: T.Session, n: nat)
    requires T.Inv(s) && T.Enabled(s, T.ReadAcks(n))
    ensures var k, l := s.client, T.Apply(s, T.ReadAcks(n)).client;
      l.log == k.log && l.read == k.read && |k.acked| <= |l.acked|
  {
  }

  lemma AcksAgree(w: World, k: T.Client, l: T.Client)
    requires DurableInv(w.state, w.history) && Agree(w, k) && T.Ordered(k.log) && T.QueueInv(k) && T.QueueInv(l)
    requires l.log == k.log && l.read == k.read && |k.acked| <= |l.acked|
    ensures var v := AckEach(w, l.acked[|k.acked|..]);
      DurableInv(v.state, v.history) && Agree(v, l) && v.history.flushed == w.history.flushed
  {
    RemovedRises(k.log, |k.acked|, |l.acked|, k.read);
    AckEachKeeps(w, l.acked[|k.acked|..], k.log);
  }

  lemma ReadAcksKeeps(p: Process, n: nat)
    requires Linked(p) && Allowed(p, ReadAcks(n))
    ensures Linked(Next(p, ReadAcks(n))) && Next(p, ReadAcks(n)).fifo.history.flushed == p.fifo.history.flushed
  {
    var k, t := p.session.client, T.Apply(p.session, T.ReadAcks(n));
    SessionKeeps(p, T.ReadAcks(n));
    ReadAcksClient(p.session, n);
    AcksAgree(p.fifo, k, t.client);
    Link(AckEach(p.fifo, t.client.acked[|k.acked|..]), t);
  }

  // ---------------------------------------------------------------- restarts

  /** Ids of the items that come back fit an `int` as the old ones did. */
  lemma RecoveredIds(f: FifoFile, log: seq<nat>)
    requires FileOk(f) && T.Ordered(log) && AllIn(f.records, log)
    ensures T.Ordered(Ids(Cleaned(f).records))
  {
    if f.lastAckId != 0 {
      DropIsAbove(f.records, f.lastAckId);
      PendingIsShort(f, log);
    }
  }

  lemma PendingIsShort(f: FifoFile, log: seq<nat>)
    requires FileOk(f) && T.Ordered(log) && AllIn(f.records, log)
    ensures |Pending(f)| < INT32_LIMIT
  {
    var p := Pending(f);
    AboveSorted(f.records, f.lastAckId);
    if p != [] {
      AboveMembers(f.records, f.lastAckId, p[0]);
      AboveMembers(f.records, f.lastAckId, p[|p| - 1]);
      SortedLength(p);
    }
  }

  lemma NewSessionInv(s: T.Session, log: seq<nat>)
    requires T.Inv(s) && T.Ordered(log)
    ensures T.Inv(NewSession(s, log))
  {
    var t := NewSession(s, log);
    assert t.client.log[0..0] == [] && t.client.log[..0] == [];
  }

  lemma OpenAgrees(c: FifoFile, size: nat, k: T.Client)
    requires CleanFile(c) && size > 0 && k.log == Ids(c.records) && k.read == 0 && k.acked == [] && T.Ordered(k.log)
    ensures Agree(World(Open(size, c), History(c.records, 0)), k)
  {
    OpenInv(c, size);
    IdsOf(c.records);
    assert k.log[0..] == k.log && k.log[..0] == [];
    assert Stored(Open(size, c)) == c.records;
    assert LastOf(k.log) < INT32_LIMIT;
  }

  lemma IdsOf(q: seq<Item>)
    ensures AllIn(q, Ids(q)) && LastOf(Ids(q)) == if q == [] then 0 else LastId(q)
  {
    forall i | 0 <= i < |q| ensures q[i].id in Ids(q) { assert Ids(q)[i] == q[i].id; }
  }

  lemma RestartAgrees(f: FifoFile, size: nat, k: T.Client)
    requires FileOk(f) && size > 0 && k.log == Ids(Cleaned(f).records) && k.read == 0 && k.acked == []
    requires T.Ordered(k.log)
    ensures Agree(Reopened(f, size), k)
  {
    CleanedKeepsPending(f);
    OpenAgrees(Cleaned(f), size, k);
  }

  lemma RestartFile(p: Process)
    requires Linked(p)
    ensures FileOk(p.fifo.state.file) && T.Ordered(Ids(Cleaned(p.fifo.state.file).records))
  {
    DurableFileOk(p.fifo.state, p.fifo.history);
    DiskAllIn(p.fifo.state, p.session.client.log);
    RecoveredIds(p.fifo.state.file, p.session.client.log);
  }

  lemma RestartKeeps(p: Process, size: nat)
    requires Linked(p) && Allowed(p, Restart(size))
    ensures Linked(Next(p, Restart(size)))
  {
    var f, t := p.fifo.state.file, NewSession(p.session, Ids(Cleaned(p.fifo.state.file).records));
    FifoKeeps(p, Crash(size));
    RestartFile(p);
    NewSessionInv(p.session, t.client.log);
    RestartAgrees(f, size, t.client);
    Link(Reopened(f, size), t);
  }

  lemma ActKeeps(p: Process, a: Act)
    requires Linked(p) && Allowed(p, a)
    ensures Linked(Next(p, a))
  {
    match a
    case Write(data) => WriteKeeps(p, data);
    case Flush => FlushKeeps(p);
    case ReadAcks(n) => ReadAcksKeeps(p, n);
    case Pick => PickKeeps(p);
    case Other(step) => OtherKeeps(p, step);
    case Restart(size) => RestartKeeps(p, size);
  }

  // ---------------------------------------------------------------- nothing that was flushed is lost

  /** Everything acknowledged in the FIFO was taken. */
  lemma AckedWasTaken(p: Process, id: nat)
    requires Linked(p) && id in p.session.client.log && id <= p.fifo.history.acked
    ensures T.Taken(p.session, id)
  {
    var k := p.session.client;
    var i :| 0 <= i < |k.log| && k.log[i] == id;
    assert k.acked == k.log[..|k.acked|];
  }

  /** An item on disk was taken by the server application, or is among those that reopening gives back. */
  lemma TakenOrOwed(p: Process, x: Item)
    requires Linked(p) && x in p.fifo.history.flushed
    ensures T.Taken(p.session, x.id) || x in Above(p.fifo.history.flushed, p.fifo.history.acked)
  {
    var h := p.fifo.history;
    if x.id > h.acked {
      AboveMembers(h.flushed, h.acked, x);
    } else {
      AckedWasTaken(p, x.id);
    }
  }

  /** After a flush the file owes what it owed before, followed by everything that waited to be saved. */
  lemma FlushedAll(w: World)
    requires DurableInv(w.state, w.history)
    ensures var f := SaveTableDisk(w.state).file;
      FileOk(f) && Pending(f) == Above(w.history.flushed, w.history.acked) + w.state.disk
  {
    var h, s := w.history, w.state;
    EventKeepsDurable(w, Do(FlushOp));
    var v := PermFifoRuns.Next(w, Do(FlushOp));
    AboveConcat(h.flushed, s.disk, h.acked);
    AboveAll(s.disk, h.acked);
    DurableFileOk(v.state, v.history);
  }

  lemma Flushed(p: Process)
    requires Linked(p)
    ensures Allowed(p, Flush) && var q := Next(p, Flush);
      && q.fifo.state.lastOut <= |q.fifo.state.file.records| && FileOk(q.fifo.state.file)
      && Pending(q.fifo.state.file) == Above(p.fifo.history.flushed, p.fifo.history.acked) + p.fifo.state.disk
  {
    FlushedAll(p.fifo);
  }

  lemma RestartGives(p: Process, size: nat)
    requires FileOk(p.fifo.state.file) && Allowed(p, Restart(size))
    ensures var r := Next(p, Restart(size));
      && Payloads(Unread(r.fifo.state)) == Payloads(Pending(p.fifo.state.file))
      && r.session.client.log == Ids(Unread(r.fifo.state)) && r.session.client.read == 0
  {
    ReopenRecovers(p.fifo.state.file, size);
  }

  /**
    A process that flushes and is then stopped loses nothing: reopening gives back what it still owed
    on disk, followed by everything that waited to be saved, and the new session starts with that.
   */
  lemma FlushThenRestart(p: Process, size: nat)
    requires Linked(p) && size > 0
    ensures Allowed(p, Flush) && var q := Next(p, Flush);
      Allowed(q, Restart(size)) && var r := Next(q, Restart(size));
      && Payloads(Unread(r.fifo.state)) == Payloads(Above(p.fifo.history.flushed, p.fifo.history.acked) + p.fifo.state.disk)
      && r.session.client.log == Ids(Unread(r.fifo.state)) && r.session.client.read == 0
  {
    Flushed(p);
    RestartGives(Next(p, Flush), size);
  }

  // ---------------------------------------------------------------- an item goes through

  /** These acts, each of them allowed, lead from one process to another. */
  ghost predicate ActsLead(p: Process, acts: seq<Act>, q: Process)
    decreases |acts|
  {
    if acts == [] then p == q
    else Allowed(p, acts[0]) && ActsLead(Next(p, acts[0]), acts[1..], q)
  }

  function Others(steps: seq<T.Step>): seq<Act> {
    if steps == [] then [] else [Other(steps[0])] + Others(steps[1..])
  }

  lemma {:induction false} PlainActs(p: Process, steps: seq<T.Step>, r: T.Session)
    requires Linked(p) && T.Leads(p.session, steps, r) && forall i :: 0 <= i < |steps| ==> Plain(steps[i])
    ensures ActsLead(p, Others(steps), p.(session := r)) && Linked(p.(session := r))
    decreases |steps|
  {
    if steps != [] {
      var q := Next(p, Other(steps[0]));
      OtherKeeps(p, steps[0]);
      PlainActs(q, steps[1..], r);
      assert Others(steps)[1..] == Others(steps[1..]);
      assert q.(session := r) == p.(session := r);
    }
  }

  lemma ActsFirst(p: Process, a: Act, acts: seq<Act>, q: Process)
    requires Allowed(p, a) && ActsLead(Next(p, a), acts, q)
    ensures ActsLead(p, [a] + acts, q)
  {
    assert ([a] + acts)[1..] == acts;
  }

  lemma ReadingKeepsHistory(w: World)
    requires w.state.lastOut <= |w.state.file.records|
    ensures PermFifoRuns.Next(w, Do(ReadOp)).history == w.history
  {
  }

  lemma Picked(p: Process)
    requires Linked(p) && Allowed(p, Pick)
    ensures var q := Next(p, Pick);
      Linked(q) && q.session == T.Apply(p.session, T.Pick) && q.fifo.history == p.fifo.history
  {
    PickKeeps(p);
    ReadingKeepsHistory(p.fifo);
  }

  lemma PickActs(p: Process, steps: seq<T.Step>, r: T.Session) returns (q: Process)
    requires Linked(p) && T.Enabled(p.session, T.Pick) && T.Leads(T.Apply(p.session, T.Pick), steps, r)
    requires forall i :: 0 <= i < |steps| ==> Plain(steps[i])
    ensures ActsLead(p, [Pick] + Others(steps), q) && Linked(q) && q.session == r
    ensures q.fifo.history == p.fifo.history
  {
    Picked(p);
    var m := Next(p, Pick);
    PlainActs(m, steps, r);
    q := m.(session := r);
    ActsFirst(p, Pick, Others(steps), q);
  }

  /** The client's acts for one item: read it from the FIFO, send its data, send its END. */
  const SENDING := [T.FinishData] + ([T.SendEnd] + [])

  lemma PlainAnswer(taken: nat, i: nat, id: FileId) returns (answer: seq<T.Step>)
    ensures answer == T.Answer(taken, i, id) && AllPlain(answer)
  {
    answer := T.Answer(taken, i, id);
  }

  ghost predicate AllPlain(steps: seq<T.Step>) { forall i :: 0 <= i < |steps| ==> Plain(steps[i]) }

  /** Reading one more acknowledgement line, after which the item was taken and the file owes only what is newer. */
  ghost predicate LineForgets(p: Process, flushed: seq<Item>, id: nat) {
    Allowed(p, ReadAcks(1)) && var q := Next(p, ReadAcks(1));
    q.fifo.history.acked == id && T.Taken(q.session, id) && Pending(q.fifo.state.file) == Above(flushed, id)
  }

  lemma AckedLast(w: World, k: T.Client, log: seq<nat>, n: nat)
    requires DurableInv(w.state, w.history) && Agree(w, k) && n < |log| && k.acked == log[..n + 1]
    ensures w.history.acked == log[n] && Pending(w.state.file) == Above(w.history.flushed, log[n])
  {
  }

  lemma TakenLast(s: T.Session, n: nat)
    requires T.Inv(s) && n < |s.client.acked| && |s.client.acked| <= |s.client.log|
    ensures T.Taken(s, s.client.log[n])
  {
  }

  lemma LastForgotten(p: Process, log: seq<nat>, n: nat)
    requires Linked(p) && T.Enabled(p.session, T.ReadAcks(1)) && n < |log|
    requires var k := T.Apply(p.session, T.ReadAcks(1)).client; k.log == log && k.acked == log[..n + 1]
    ensures LineForgets(p, p.fifo.history.flushed, log[n])
  {
    var q := Next(p, ReadAcks(1));
    ReadAcksKeeps(p, 1);
    AckedLast(q.fifo, q.session.client, log, n);
    TakenLast(q.session, n);
  }

  /** A session sends and gets the answer, after which one line makes it forget item `n`. */
  ghost predicate SessionDoes(
    q: T.Session, rest: seq<T.Step>, answer: seq<T.Step>, s: T.Session, t: T.Session, log: seq<nat>, n: nat)
    requires n < |log|
  {
    && T.Enabled(q, T.Pick) && T.Leads(T.Apply(q, T.Pick), rest, s) && T.Leads(s, answer, t)
    && T.Enabled(t, T.ReadAcks(1))
    && var k := T.Apply(t, T.ReadAcks(1)).client;
       k.log == log && k.acked == log[..n + 1]
  }

  /** The acts of the two parts, one after the other. */
  lemma ActsOfItem(
    p: Process, rest: seq<T.Step>, answer: seq<T.Step>, s: T.Session, t: T.Session, log: seq<nat>, n: nat)
    returns (a: Process, b: Process)
    requires AllPlain(rest) && AllPlain(answer) && n < |log|
    ensures Linked(p) && SessionDoes(p.session, rest, answer, s, t, log, n) ==>
      && ActsLead(p, [Pick] + Others(rest), a) && ActsLead(a, Others(answer), b)
      && LineForgets(b, p.fifo.history.flushed, log[n])
  {
    a, b := p, p;
    if Linked(p) && SessionDoes(p.session, rest, answer, s, t, log, n) {
      a := PickActs(p, rest, s);
      PlainActs(a, answer, t);
      b := a.(session := t);
      LastForgotten(b, log, n);
    }
  }

  lemma FirstIsPick(s: T.Session, r: T.Session)
    requires T.Leads(s, T.SEND, r)
    ensures T.Enabled(s, T.Pick) && T.Leads(T.Apply(s, T.Pick), SENDING, r)
  {
    assert T.SEND[0] == T.Pick && T.SEND[1..] == SENDING;
  }

  /** What the session does for the item. */
  lemma SessionOfItem(s: T.Session, c: nat, i: nat) returns (m: T.Session, t: T.Session, answer: seq<T.Step>)
    requires T.Waiting(s, c, i)
    ensures s.client.read < |s.client.log|
    ensures answer == T.Answer(|s.server.taken|, i, MessageId(s.client.log[s.client.read])) && AllPlain(answer)
    ensures SessionDoes(s, SENDING, answer, m, t, s.client.log, s.client.read)
  {
    answer := PlainAnswer(|s.server.taken|, i, MessageId(s.client.log[s.client.read]));
    var u;
    m, t, u := T.ItemGoesThrough(s, c, i);
    FirstIsPick(s, m);
  }

  /**
    In a quiet process with an item waiting: it reads the item and sends it, the server completes, hands
    over and acknowledges it, and once that line is read the item was taken and the file owes only what is newer.
   */
  lemma ItemIsForgotten(p: Process, c: nat, i: nat) returns (a: Process, b: Process)
    requires Linked(p) && T.Waiting(p.session, c, i)
    ensures var k := p.session.client;
      && ActsLead(p, [Pick] + Others(SENDING), a)
      && ActsLead(a, Others(T.Answer(|p.session.server.taken|, i, MessageId(k.log[k.read]))), b)
      && LineForgets(b, p.fifo.history.flushed, k.log[k.read])
  {
    var k := p.session.client;
    var m, t, answer := SessionOfItem(p.session, c, i);
    a, b := ActsOfItem(p, SENDING, answer, m, t, k.log, k.read);
  }

  ghost predicate Follows(ps: seq<Process>, acts: seq<Act>, i: nat)
    requires i < |acts| < |ps|
  {
    Allowed(ps[i], acts[i]) && ps[i + 1] == Next(ps[i], acts[i])
  }

  /** The first start of a process, on a new FIFO. */
  ghost predicate Started(p: Process) {
    && p.fifo.state.size > 0 && p.fifo == Reopened(FifoFile(0, 0, []), p.fifo.state.size)
    && T.Init(p.session)
  }

  /** A process from its first start through any number of restarts. */
  ghost predicate Life(ps: seq<Process>, acts: seq<Act>) {
    && |ps| == |acts| + 1
    && Started(ps[0])
    && forall i :: 0 <= i < |acts| ==> Follows(ps, acts, i)
  }

  lemma FirstStart(p: Process)
    requires Started(p)
    ensures Linked(p)
  {
    var f, s := FifoFile(0, 0, []), p.session;
    ReopenedDurable(f, p.fifo.state.size);
    assert Cleaned(f).records == [] && Ids([]) == s.client.log;
    RestartAgrees(f, p.fifo.state.size, s.client);
    FirstSession(s);
    Link(p.fifo, s);
  }

  lemma FirstSession(s: T.Session)
    requires T.Init(s)
    ensures T.Inv(s)
  {
    assert T.QueueInv(s.client);
  }

  lemma {:induction false} LifeLinked(ps: seq<Process>, acts: seq<Act>, n: nat)
    requires Life(ps, acts) && n < |ps|
    ensures Linked(ps[n])
  {
    if n == 0 {
      FirstStart(ps[0]);
    } else {
      LifeLinked(ps, acts, n - 1);
      assert Follows(ps, acts, n - 1);
      ActKeeps(ps[n - 1], acts[n - 1]);
    }
  }

  /**
    At-least-once delivery across restarts: at any moment of a life with any number of crashes, every
    item that was flushed has been taken by the server application or is owed by the file; and a
    restart goes on with exactly the payloads that were owed, in their order, whatever their new ids.
   */
  lemma NothingFlushedIsLost(ps: seq<Process>, acts: seq<Act>, n: nat)
    requires Life(ps, acts) && n < |ps|
    ensures var h := ps[n].fifo.history;
      forall x :: x in h.flushed ==> T.Taken(ps[n].session, x.id) || x in Above(h.flushed, h.acked)
    ensures n < |acts| && acts[n].Restart? ==>
      var h, g := ps[n].fifo.history, ps[n + 1].fifo.history;
      Payloads(g.flushed) == Payloads(Above(h.flushed, h.acked)) && g.acked == 0
  {
    LifeLinked(ps, acts, n);
    var w := ps[n].fifo;
    forall x | x in w.history.flushed
      ensures T.Taken(ps[n].session, x.id) || x in Above(w.history.flushed, w.history.acked)
    {
      TakenOrOwed(ps[n], x);
    }
    if n < |acts| && acts[n].Restart? {
      assert Follows(ps, acts, n);
      DurableFileOk(w.state, w.history);
      CleanedKeepsPending(w.state.file);
    }
  }
}
