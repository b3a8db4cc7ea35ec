/**
  One message-mode client session against the server, over any number of connections that may
  break at any time: what the permanent FIFO may forget, and what the application gets.

  The bytes of a connection arrive in order, so on each connection the server completes files in
  the order their END was handed to the socket (the framing module proves this of the byte
  streams). Other clients use the same server freely.
 */
module TransportSession {
  import opened Options
  import opened FileIds
  import S = TransportServer

  /** The connected state: position in the queue, the file in transfer, acknowledgement lines read. */
  datatype Line = Line(cx: nat, index: nat, current: Option<nat>, ending: Option<nat>, parsed: nat)

  /**
    `log` are the ids written to the permanent FIFO, oldest first, of which `read` were read;
    `acked` are the ids acknowledged in it, `input` the transmit queue.
   */
  datatype Client = Client(
    log: seq<nat>, read: nat, acked: seq<nat>, input: seq<nat>, capacity: nat, ackId: FileId, line: Option<Line>)

  /**
    Per connection of the server: `sent` are the ids whose END this client handed to it, and
    `starts` how many items were acknowledged when this client opened it (-1: another client's).
   */
  datatype Session = Session(server: S.Server, client: Client, sent: seq<seq<nat>>, starts: seq<int>)

  datatype Step =
    | WriteItem(id: nat)
    | Connect(slot: nat)
    | Disconnect
    | ReadAcks(n: nat)
    | Pick
    | FinishData
    | SendEnd
    | OtherClient(slot: nat)
    | ServerDoes(step: S.Step)

  /** The removal loop: drop acknowledged files from the head of the transmit queue. */
  function Removed(input: seq<nat>, current: Option<nat>, ackId: FileId): (n: nat)
    ensures n <= |input|
  {
    if input == [] then 0
    else if current == Some(input[0]) then 0
    else if Newer(MessageId(input[0]), ackId) then 0
    else 1 + Removed(input[1..], current, ackId)
  }

  /** The loop removes acknowledged files that are not in transfer, and stops at the first other one. */
  lemma {:induction false} RemovedStops(input: seq<nat>, current: Option<nat>, ackId: FileId)
    ensures var n := Removed(input, current, ackId);
      && (forall i :: 0 <= i < n ==> current != Some(input[i]) && !Newer(MessageId(input[i]), ackId))
      && (n < |input| ==> current == Some(input[n]) || Newer(MessageId(input[n]), ackId))
  {
    if Removed(input, current, ackId) > 0 {
      RemovedStops(input[1..], current, ackId);
    }
  }

  function RemoveAcked(k: Client): Client
    requires k.line.Some?
  {
    var n := Removed(k.input, k.line.value.current, k.ackId);
    var index := if k.line.value.index < n then 0 else k.line.value.index - n;
    k.(input := k.input[n..], acked := k.acked + k.input[..n], line := Some(k.line.value.(index := index)))
  }

  function PickNext(k: Client): Client
    requires k.line.Some? && k.read <= |k.log|
  {
    var l := k.line.value;
    if l.index < |k.input| then
      k.(line := Some(l.(current := Some(k.input[l.index]), index := l.index + 1)))
    else if |k.input| < k.capacity && k.read < |k.log| then
      var id := k.log[k.read];
      k.(read := k.read + 1, input := k.input + [id], line := Some(l.(current := Some(id), index := l.index + 1)))
    else k
  }

  predicate Enabled(s: Session, step: Step) {
    var k := s.client;
    match step
    case WriteItem(id) => 0 < id < INT32_LIMIT && (k.log == [] || k.log[|k.log| - 1] < id)
    case Connect(i) => k.line.None? && S.Enabled(s.server, S.Accept(i))
    case Disconnect => k.line.Some?
    case ReadAcks(n) =>
      k.line.Some? && k.line.value.cx < |s.server.acks|
      && k.line.value.parsed + n <= |s.server.acks[k.line.value.cx]|
    case Pick =>
      k.line.Some? && k.line.value.current.None? && k.line.value.ending.None? && k.read <= |k.log|
    case FinishData => k.line.Some? && k.line.value.current.Some?
    case SendEnd => k.line.Some? && k.line.value.ending.Some? && k.line.value.cx < |s.sent|
    case OtherClient(i) => S.Enabled(s.server, S.Accept(i))
    case ServerDoes(t) =>
      && S.Enabled(s.server, t)
      && !t.Accept?
      && (t.Complete? ==>
            var c := s.server.slots[t.slot].cxId;
            c < |s.starts| == |s.sent| &&
            (s.starts[c] >= 0 ==>
              var n := |s.server.received[c]|;
              n < |s.sent[c]| && t.id == MessageId(s.sent[c][n])))
  }

  function Apply(s: Session, step: Step): Session
    requires Enabled(s, step)
  {
    var k := s.client;
    match step
    case WriteItem(id) => s.(client := k.(log := k.log + [id]))
    case Connect(i) =>
      s.(server := S.Apply(s.server, S.Accept(i)),
         client := k.(line := Some(Line(|s.server.received|, 0, None, None, 0))),
         sent := s.sent + [[]], starts := s.starts + [|k.acked|])
    case Disconnect => s.(client := k.(line := None))
    case ReadAcks(n) =>
      var l := k.line.value;
      var lines := s.server.acks[l.cx][l.parsed..l.parsed + n];
      var ackId := if n == 0 then k.ackId else lines[n - 1];
      s.(client := RemoveAcked(k.(ackId := ackId, line := Some(l.(parsed := l.parsed + n)))))
    case Pick => s.(client := PickNext(k))
    case FinishData =>
      var l := k.line.value;
      s.(client := k.(line := Some(l.(current := None, ending := l.current))))
    case SendEnd =>
      var l := k.line.value;
      s.(client := k.(line := Some(l.(ending := None))),
         sent := s.sent[l.cx := s.sent[l.cx] + [l.ending.value]])
    case OtherClient(i) =>
      s.(server := S.Apply(s.server, S.Accept(i)), sent := s.sent + [[]], starts := s.starts + [-1])
    case ServerDoes(t) => s.(server := S.Apply(s.server, t))
  }

  // ---------------------------------------------------------------- invariant

  /** The application has taken item `id` from some connection of this client. */
  ghost predicate Taken(s: Session, id: nat) {
    exists c :: 0 <= c < |s.starts| && s.starts[c] >= 0 && MessageId(id) in S.From(s.server.taken, c)
  }

  ghost predicate Ordered(log: seq<nat>) {
    && (forall i :: 0 <= i < |log| ==> 0 < log[i] < INT32_LIMIT)
    && (forall i, j :: 0 <= i < j < |log| ==> log[i] < log[j])
  }

  /** Acknowledged, waiting for an acknowledgement, not yet read: three consecutive parts of the log. */
  ghost predicate QueueInv(k: Client) {
    && |k.acked| <= k.read <= |k.log|
    && k.acked == k.log[..|k.acked|]
    && k.input == k.log[|k.acked|..k.read]
  }

  ghost predicate NothingToRemove(k: Client) {
    forall i :: 0 <= i < |k.input| ==> Newer(MessageId(k.input[i]), k.ackId)
  }

  /** The last acknowledgement read names an item that was read from the permanent FIFO. */
  ghost predicate AckIdKnown(k: Client) {
    k.ackId == ZERO || exists j :: 0 <= j < k.read <= |k.log| && k.ackId == MessageId(k.log[j])
  }

  /** A connection of this client carries a run of the log, from where it was opened. */
  ghost predicate CarriesRun(k: Client, start: nat, sent: seq<nat>, received: seq<FileId>) {
    && start <= |k.acked|
    && start + |sent| <= k.read <= |k.log|
    && sent == k.log[start..start + |sent|]
    && |received| <= |sent|
    && (forall i :: 0 <= i < |received| ==> received[i] == MessageId(sent[i]))
  }

  ghost predicate RunsInv(s: Session) {
    && |s.sent| == |s.starts| == |s.server.received|
    && forall c :: 0 <= c < |s.starts| && s.starts[c] >= 0 ==>
         CarriesRun(s.client, s.starts[c], s.sent[c], s.server.received[c])
  }

  ghost function Busy(l: Line): nat { if l.current.Some? || l.ending.Some? then 1 else 0 }

  /** The queue index counts what was sent, or is being sent, on this connection. */
  ghost predicate LineInv(k: Client, l: Line, start: nat, sent: seq<nat>) {
    var at := start + |sent|;
    && at + Busy(l) == |k.acked| + l.index
    && at + Busy(l) <= k.read <= |k.log|
    && (|k.acked| <= at)
    && !(l.current.Some? && l.ending.Some?)
    && (l.current.Some? ==> l.current.value == k.log[at])
    && (l.ending.Some? ==> l.ending.value == k.log[at])
  }

  ghost predicate Connected(s: Session) {
    s.client.line.Some? ==>
      var l := s.client.line.value;
      && l.cx < |s.starts| == |s.sent| && s.starts[l.cx] >= 0
      && LineInv(s.client, l, s.starts[l.cx], s.sent[l.cx])
  }

  ghost predicate Inv(s: Session) {
    && S.Inv(s.server)
    && Ordered(s.client.log)
    && QueueInv(s.client)
    && NothingToRemove(s.client)
    && AckIdKnown(s.client)
    && RunsInv(s)
    && Connected(s)
    && (forall j :: 0 <= j < |s.client.acked| ==> Taken(s, s.client.log[j]))
  }

  predicate Init(s: Session) {
    && S.Init(s.server)
    && s.client.log == [] && s.client.read == 0 && s.client.acked == [] && s.client.input == []
    && s.client.ackId == ZERO && s.client.line.None?
    && s.sent == [] && s.starts == []
  }

  // ---------------------------------------------------------------- what an acknowledgement means

  lemma MessageOrder(a: nat, b: nat)
    requires a < INT32_LIMIT && b < INT32_LIMIT
    ensures Newer(MessageId(a), MessageId(b)) <==> a > b
    ensures MessageId(a) == MessageId(b) <==> a == b
  {
  }

  /** An acknowledgement on the client's connection names an item sent on it, and all before it were taken. */
  lemma AckNamesTaken(s: Session, c: nat, x: FileId) returns (j: nat)
    requires Inv(s) && c < |s.starts| && s.starts[c] >= 0
    requires x in S.From(s.server.taken, c)
    ensures s.starts[c] <= j < s.starts[c] + |s.sent[c]| <= |s.client.log|
    ensures x == MessageId(s.client.log[j])
    ensures forall i :: s.starts[c] <= i <= j ==> Taken(s, s.client.log[i])
  {
    var taken, received, start := S.From(s.server.taken, c), s.server.received[c], s.starts[c];
    assert taken + S.From(s.server.queue, c) == received;
    var p :| 0 <= p < |taken| && taken[p] == x;
    j := start + p;
    assert received[p] == x;
    forall i | start <= i <= j ensures Taken(s, s.client.log[i]) {
      assert received[i - start] == taken[i - start];
      assert taken[i - start] == MessageId(s.sent[c][i - start]) == MessageId(s.client.log[i]);
    }
  }

  /**
    Prefix closure: whatever was taken, everything written before it was taken too, although
    files are sent again after each reconnection.
   */
  lemma TakenIsPrefix(s: Session, i: nat, j: nat)
    requires Inv(s) && i <= j < |s.client.log| && Taken(s, s.client.log[j])
    ensures Taken(s, s.client.log[i])
  {
    var c :| 0 <= c < |s.starts| && s.starts[c] >= 0 && MessageId(s.client.log[j]) in S.From(s.server.taken, c);
    var j' := AckNamesTaken(s, c, MessageId(s.client.log[j]));
    MessageOrder(s.client.log[j], s.client.log[j']);
    assert j' == j;
  }

  // ---------------------------------------------------------------- every step keeps the invariant

  lemma TakenGrows(s: Session, t: Session, id: nat)
    requires Taken(s, id)
    requires s.starts <= t.starts
    requires forall c: nat :: S.From(s.server.taken, c) <= S.From(t.server.taken, c)
    ensures Taken(t, id)
  {
    var c :| 0 <= c < |s.starts| && s.starts[c] >= 0 && MessageId(id) in S.From(s.server.taken, c);
    assert t.starts[c] == s.starts[c];
  }

  /** The removal loop pops exactly the items up to the acknowledged one. */
  lemma {:induction false} RemovedExactly(log: seq<nat>, a: nat, read: nat, current: Option<nat>, j: nat)
    requires a <= read <= |log| && j < read
    requires Ordered(log)
    requires current.Some? ==> current.value > log[j]
    ensures Removed(log[a..read], current, MessageId(log[j])) == if j < a then 0 else j + 1 - a
    decreases read - a
  {
    if a < read {
      MessageOrder(log[a], log[j]);
      assert log[a..read][0] == log[a] && log[a..read][1..] == log[a + 1..read];
      if a <= j {
        RemovedExactly(log, a + 1, read, current, j);
      }
    }
  }

  lemma PopKeeps(k: Client, r: Client, n: nat)
    requires QueueInv(k) && n <= |k.input|
    requires r == k.(input := k.input[n..], acked := k.acked + k.input[..n], line := r.line)
    ensures QueueInv(r) && |r.acked| == |k.acked| + n
  {
    var a := |k.acked|;
    assert k.input[n..] == k.log[a + n..k.read];
    assert k.log[..a] + k.input[..n] == k.log[..a + n];
  }

  /** Removing up to item `j` of the connection's run. */
  lemma RemoveKeeps(k: Client, l: Line, start: nat, sent: seq<nat>, j: nat)
    requires Ordered(k.log) && QueueInv(k) && k.line == Some(l) && LineInv(k, l, start, sent)
    requires start <= j < start + |sent| && k.ackId == MessageId(k.log[j])
    ensures var r := RemoveAcked(k);
      && QueueInv(r) && NothingToRemove(r)
      && r == k.(input := r.input, acked := r.acked, line := r.line)
      && r.line.Some? && r.line.value.cx == l.cx && LineInv(r, r.line.value, start, sent)
      && |r.acked| == if j < |k.acked| then |k.acked| else j + 1
  {
    var r := RemoveAcked(k);
    RemovedExactly(k.log, |k.acked|, k.read, l.current, j);
    PopKeeps(k, r, Removed(k.input, l.current, k.ackId));
    forall i | 0 <= i < |r.input| ensures Newer(MessageId(r.input[i]), r.ackId) {
      MessageOrder(r.input[i], k.log[j]);
    }
  }

  lemma {:induction false} RemovedNone(input: seq<nat>, current: Option<nat>, ackId: FileId)
    requires input != [] ==> Newer(MessageId(input[0]), ackId)
    ensures Removed(input, current, ackId) == 0
  {
  }

  /** Without a new line, nothing changes. */
  lemma NoAcksKeeps(s: Session)
    requires Inv(s) && Enabled(s, ReadAcks(0))
    ensures Apply(s, ReadAcks(0)) == s
  {
    var k := s.client;
    RemovedNone(k.input, k.line.value.current, k.ackId);
    assert k.input[0..] == k.input && k.acked + k.input[..0] == k.acked;
  }

  /** The client side changed to `r`, which acknowledges items up to `j` of connection `c` at most. */
  lemma AckedAreTaken(s: Session, t: Session, start: nat, j: nat)
    requires Inv(s) && t == s.(client := t.client) && t.client.log == s.client.log
    requires forall i :: start <= i <= j < |s.client.log| ==> Taken(s, s.client.log[i])
    requires start <= |s.client.acked| && j < |s.client.log|
    requires |t.client.acked| <= |s.client.acked| || |t.client.acked| <= j + 1
    ensures forall i :: 0 <= i < |t.client.acked| <= |t.client.log| ==> Taken(t, t.client.log[i])
  {
    forall i | 0 <= i < |t.client.acked| <= |t.client.log| ensures Taken(t, t.client.log[i]) {
      assert Taken(s, s.client.log[i]);
      TakenGrows(s, t, s.client.log[i]);
    }
  }

  lemma RunsKept(s: Session, t: Session)
    requires RunsInv(s) && t == s.(client := t.client)
    requires t.client.log == s.client.log && t.client.read >= s.client.read && t.client.read <= |t.client.log|
    requires |t.client.acked| >= |s.client.acked|
    ensures RunsInv(t)
  {
  }

  /** Reading lines is taking over the last one of them and removing. */
  lemma ReadAcksIs(s: Session, n: nat)
    requires Enabled(s, ReadAcks(n)) && n > 0
    ensures var l := s.client.line.value;
      Apply(s, ReadAcks(n)) ==
      s.(client := RemoveAcked(s.client.(ackId := s.server.acks[l.cx][l.parsed + n - 1],
                                         line := Some(l.(parsed := l.parsed + n)))))
  {
  }

  lemma AckLineTaken(s: Session, c: nat, p: nat)
    requires S.Inv(s.server) && c < |s.server.acks| && p < |s.server.acks[c]|
    ensures s.server.acks[c][p] in S.From(s.server.taken, c)
  {
    assert S.AcksInv(s.server.acks[c], S.From(s.server.taken, c));
  }

  lemma ReadAcksKeeps(s: Session, n: nat)
    requires Inv(s) && Enabled(s, ReadAcks(n))
    ensures Inv(Apply(s, ReadAcks(n)))
  {
    if n == 0 {
      NoAcksKeeps(s);
    } else {
      ReadAcksIs(s, n);
      var k := s.client;
      var l := k.line.value;
      var x, l' := s.server.acks[l.cx][l.parsed + n - 1], l.(parsed := l.parsed + n);
      AckLineTaken(s, l.cx, l.parsed + n - 1);
      var j := AckNamesTaken(s, l.cx, x);
      RemoveSessionKeeps(s, k.(ackId := x, line := Some(l')), l', j);
    }
  }

  lemma RemoveSessionKeeps(s: Session, k: Client, l: Line, j: nat)
    requires Inv(s) && k == s.client.(ackId := k.ackId, line := Some(l))
    requires s.client.line.Some? && l == s.client.line.value.(parsed := l.parsed)
    requires s.starts[l.cx] <= j < s.starts[l.cx] + |s.sent[l.cx]| <= |k.log|
    requires k.ackId == MessageId(k.log[j])
    requires forall i :: s.starts[l.cx] <= i <= j ==> Taken(s, s.client.log[i])
    ensures Inv(s.(client := RemoveAcked(k)))
  {
    var t := s.(client := RemoveAcked(k));
    RemoveKeeps(k, l, s.starts[l.cx], s.sent[l.cx], j);
    assert CarriesRun(s.client, s.starts[l.cx], s.sent[l.cx], s.server.received[l.cx]);
    RunsKept(s, t);
    AckedAreTaken(s, t, s.starts[l.cx], j);
  }

  /** The transmit queue is all that changes: nothing is acknowledged, nothing taken. */
  lemma SameAcked(s: Session, t: Session)
    requires Inv(s) && t.client.acked == s.client.acked && s.client.log <= t.client.log
    requires s.starts <= t.starts
    requires forall c: nat :: S.From(s.server.taken, c) <= S.From(t.server.taken, c)
    ensures forall j :: 0 <= j < |t.client.acked| <= |t.client.log| ==> Taken(t, t.client.log[j])
  {
    forall j | 0 <= j < |t.client.acked| <= |t.client.log| ensures Taken(t, t.client.log[j]) {
      assert Taken(s, s.client.log[j]);
      TakenGrows(s, t, s.client.log[j]);
    }
  }

  lemma LongerLog(k: Client, r: Client, id: nat)
    requires Ordered(k.log) && QueueInv(k) && NothingToRemove(k) && AckIdKnown(k)
    requires 0 < id < INT32_LIMIT && (k.log == [] || k.log[|k.log| - 1] < id)
    requires r == k.(log := k.log + [id])
    ensures Ordered(r.log) && QueueInv(r) && NothingToRemove(r) && AckIdKnown(r)
  {
    assert r.log[..|k.acked|] == k.log[..|k.acked|] && r.log[|k.acked|..k.read] == k.log[|k.acked|..k.read];
    AckIdStaysKnown(k, r, id);
  }

  lemma AckIdStaysKnown(k: Client, r: Client, id: nat)
    requires AckIdKnown(k) && r == k.(log := k.log + [id])
    ensures AckIdKnown(r)
  {
    if k.ackId != ZERO {
      var j :| 0 <= j < k.read && k.ackId == MessageId(k.log[j]);
      assert r.log[j] == k.log[j];
    }
  }

  lemma LongerRuns(s: Session, t: Session, id: nat)
    requires RunsInv(s) && t == s.(client := s.client.(log := s.client.log + [id]))
    ensures RunsInv(t)
  {
    forall c | 0 <= c < |t.starts| && t.starts[c] >= 0
      ensures CarriesRun(t.client, t.starts[c], t.sent[c], t.server.received[c])
    {
      assert CarriesRun(s.client, s.starts[c], s.sent[c], s.server.received[c]);
      var h, m := s.starts[c], |s.sent[c]|;
      assert t.client.log[h..h + m] == s.client.log[h..h + m];
    }
  }

  lemma WriteItemKeeps(s: Session, id: nat)
    requires Inv(s) && Enabled(s, WriteItem(id))
    ensures Inv(Apply(s, WriteItem(id)))
  {
    var t := Apply(s, WriteItem(id));
    SameAcked(s, t);
    LongerLog(s.client, t.client, id);
    LongerRuns(s, t, id);
  }

  lemma ReadOneMore(k: Client, r: Client)
    requires Ordered(k.log) && QueueInv(k) && NothingToRemove(k) && AckIdKnown(k) && k.read < |k.log|
    requires r == k.(read := k.read + 1, input := k.input + [k.log[k.read]], line := r.line)
    ensures QueueInv(r) && NothingToRemove(r) && AckIdKnown(r)
  {
    if k.ackId != ZERO {
      var j :| 0 <= j < k.read && k.ackId == MessageId(k.log[j]);
      MessageOrder(k.log[k.read], k.log[j]);
    }
  }

  lemma PickClient(k: Client, l: Line, start: nat, sent: seq<nat>)
    requires Ordered(k.log) && QueueInv(k) && NothingToRemove(k) && AckIdKnown(k)
    requires k.line == Some(l) && LineInv(k, l, start, sent) && Busy(l) == 0
    ensures var r := PickNext(k);
      && QueueInv(r) && NothingToRemove(r) && AckIdKnown(r)
      && r == k.(read := r.read, input := r.input, line := r.line) && k.read <= r.read
      && r.line.Some? && r.line.value.cx == l.cx && LineInv(r, r.line.value, start, sent)
  {
    var r := PickNext(k);
    if r.read > k.read {
      ReadOneMore(k, r);
    }
  }

  lemma PickKeeps(s: Session)
    requires Inv(s) && Enabled(s, Pick)
    ensures Inv(Apply(s, Pick))
  {
    var t, l := Apply(s, Pick), s.client.line.value;
    PickClient(s.client, l, s.starts[l.cx], s.sent[l.cx]);
    SameAcked(s, t);
    RunsKept(s, t);
  }

  lemma SendEndKeeps(s: Session)
    requires Inv(s) && Enabled(s, SendEnd)
    ensures Inv(Apply(s, SendEnd))
  {
    var t := Apply(s, SendEnd);
    SameAcked(s, t);
    var l := s.client.line.value;
    var h, m := s.starts[l.cx], |s.sent[l.cx]|;
    assert CarriesRun(s.client, h, s.sent[l.cx], s.server.received[l.cx]);
    assert s.client.log[h..h + m + 1] == s.client.log[h..h + m] + [s.client.log[h + m]];
    assert CarriesRun(t.client, h, t.sent[l.cx], t.server.received[l.cx]);
  }

  lemma ConnectKeeps(s: Session, i: nat)
    requires Inv(s) && Enabled(s, Connect(i))
    ensures Inv(Apply(s, Connect(i)))
  {
    var t := Apply(s, Connect(i));
    S.AcceptKeeps(s.server, i);
    SameAcked(s, t);
  }

  lemma OtherClientKeeps(s: Session, i: nat)
    requires Inv(s) && Enabled(s, OtherClient(i))
    ensures Inv(Apply(s, OtherClient(i)))
  {
    var t := Apply(s, OtherClient(i));
    S.AcceptKeeps(s.server, i);
    SameAcked(s, t);
  }

  lemma ServerGrows(s: S.Server, step: S.Step, c: nat)
    requires S.Enabled(s, step)
    ensures S.From(s.taken, c) <= S.From(S.Apply(s, step).taken, c)
  {
    if step.Take? {
      S.TakeFrom(s, c);
    }
  }

  lemma ServerRuns(s: Session, step: S.Step)
    requires RunsInv(s) && Enabled(s, ServerDoes(step))
    ensures RunsInv(Apply(s, ServerDoes(step)))
  {
    var t := Apply(s, ServerDoes(step));
    forall c | 0 <= c < |t.starts| && t.starts[c] >= 0
      ensures CarriesRun(t.client, t.starts[c], t.sent[c], t.server.received[c])
    {
      assert CarriesRun(s.client, s.starts[c], s.sent[c], s.server.received[c]);
    }
  }

  lemma ServerDoesKeeps(s: Session, step: S.Step)
    requires Inv(s) && Enabled(s, ServerDoes(step))
    ensures Inv(Apply(s, ServerDoes(step)))
  {
    var t := Apply(s, ServerDoes(step));
    S.StepKeeps(s.server, step);
    forall c: nat ensures S.From(s.server.taken, c) <= S.From(t.server.taken, c) {
      ServerGrows(s.server, step, c);
    }
    SameAcked(s, t);
    ServerRuns(s, step);
  }

  lemma StepKeeps(s: Session, step: Step)
    requires Inv(s) && Enabled(s, step)
    ensures Inv(Apply(s, step))
  {
    match step
    case WriteItem(id) => WriteItemKeeps(s, id);
    case Connect(i) => ConnectKeeps(s, i);
    case Disconnect => SameAcked(s, Apply(s, Disconnect));
    case ReadAcks(n) => ReadAcksKeeps(s, n);
    case Pick => PickKeeps(s);
    case FinishData => SameAcked(s, Apply(s, FinishData));
    case SendEnd => SendEndKeeps(s);
    case OtherClient(i) => OtherClientKeeps(s, i);
    case ServerDoes(t) => ServerDoesKeeps(s, t);
  }

  // ---------------------------------------------------------------- whole runs

  ghost predicate Execution(ss: seq<Session>, steps: seq<Step>) {
    && |ss| == |steps| + 1
    && Init(ss[0])
    && forall i :: 0 <= i < |steps| ==> Enabled(ss[i], steps[i]) && ss[i + 1] == Apply(ss[i], steps[i])
  }

  lemma {:induction false} ExecutionInv(ss: seq<Session>, steps: seq<Step>, n: nat)
    requires Execution(ss, steps) && n < |ss|
    ensures Inv(ss[n])
  {
    if n > 0 {
      ExecutionInv(ss, steps, n - 1);
      StepKeeps(ss[n - 1], steps[n - 1]);
    }
  }

  /**
    At-least-once delivery without gaps, over every run: what the permanent FIFO was told to
    forget is a prefix of what was written and was taken by the application; and the items taken
    are always a prefix of the items written.
   */
  lemma Delivery(ss: seq<Session>, steps: seq<Step>, n: nat)
    requires Execution(ss, steps) && n < |ss|
    ensures var s := ss[n];
      && Ordered(s.client.log) && s.client.acked <= s.client.log && |s.client.acked| <= s.client.read
      && (forall id :: id in s.client.acked ==> Taken(s, id))
      && (forall i, j :: 0 <= i <= j < |s.client.log| && Taken(s, s.client.log[j]) ==> Taken(s, s.client.log[i]))
  {
    ExecutionInv(ss, steps, n);
    var s := ss[n];
    forall i, j | 0 <= i <= j < |s.client.log| && Taken(s, s.client.log[j]) ensures Taken(s, s.client.log[i]) {
      TakenIsPrefix(s, i, j);
    }
    forall id | id in s.client.acked ensures Taken(s, id) {
      var j :| 0 <= j < |s.client.acked| && s.client.acked[j] == id;
      assert s.client.log[j] == id;
    }
  }

  // ---------------------------------------------------------------- files are picked, sent and forgotten

  /**
    Something is picked exactly when the queue has an entry at the index, or has room and the permanent
    FIFO an item to read; the queue never outgrows its capacity.
   */
  lemma PickIff(k: Client)
    requires k.line.Some? && k.line.value.current.None? && k.read <= |k.log|
    ensures var r, l := PickNext(k), k.line.value;
      && r.line.Some? && r.log == k.log && r.acked == k.acked && r.ackId == k.ackId
      && (r.line.value.current.Some? <==> l.index < |k.input| || (|k.input| < k.capacity && k.read < |k.log|))
      && (r.line.value.current.None? ==> r == k)
      && (r.line.value.current.Some? ==> r.line.value.index == l.index + 1)
      && (l.index < |k.input| ==> r.input == k.input && r.read == k.read && r.line.value.current == Some(k.input[l.index]))
      && (l.index >= |k.input| && r.line.value.current.Some? ==>
            r.read == k.read + 1 && r.input == k.input + [k.log[k.read]] && r.line.value.current == Some(k.log[k.read]))
      && (|k.input| <= k.capacity ==> |r.input| <= r.capacity == k.capacity)
  {
  }

  /** In a session the item picked is the one behind those sent on the connection. */
  lemma PickedIsNext(s: Session)
    requires Inv(s) && Enabled(s, Pick)
    ensures var t, c := Apply(s, Pick), s.client.line.value.cx;
      && t.server == s.server && t.sent == s.sent
      && t.client.line.Some? && c < |s.sent|
      && (t.client.line.value.current.Some? ==>
            s.starts[c] + |s.sent[c]| < |s.client.log| && t.client.line.value.current == Some(s.client.log[s.starts[c] + |s.sent[c]|]))
  {
    var l := s.client.line.value;
    PickClient(s.client, l, s.starts[l.cx], s.sent[l.cx]);
  }

  lemma StepCapacity(s: Session, step: Step)
    requires Enabled(s, step) && |s.client.input| <= s.client.capacity
    ensures Apply(s, step).client.capacity == s.client.capacity && |Apply(s, step).client.input| <= s.client.capacity
  {
  }

  lemma {:induction false} ExecutionCapacity(ss: seq<Session>, steps: seq<Step>, n: nat)
    requires Execution(ss, steps) && n < |ss|
    ensures |ss[n].client.input| <= ss[n].client.capacity == ss[0].client.capacity
  {
    if n > 0 {
      ExecutionCapacity(ss, steps, n - 1);
      StepCapacity(ss[n - 1], steps[n - 1]);
    }
  }

  /** All is quiet on the connection `c` of the client, in slot `i`: what was sent was acknowledged and read; one more item waits. */
  ghost predicate Waiting(s: Session, c: nat, i: nat) {
    && c < |s.server.acks|
    && Inv(s) && s.client.line == Some(Line(c, 0, None, None, |s.server.acks[c]|))
    && c < |s.starts| && i < |s.server.slots| && s.server.slots[i].cxId == c && s.server.slots[i].nonAcknowledged == 0
    && s.client.input == [] && 0 < s.client.capacity && s.client.read < |s.client.log|
    && s.server.queue == [] && |s.server.received[c]| == |s.sent[c]|
  }

  /** The client's part: pick the item, send its data, send its END. */
  lemma ClientSends(s: Session, c: nat, i: nat)
    requires Waiting(s, c, i)
    ensures var id := s.client.log[s.client.read];
      Enabled(s, Pick) && var a := Apply(s, Pick);
      Enabled(a, FinishData) && var b := Apply(a, FinishData);
      Enabled(b, SendEnd) && var r := Apply(b, SendEnd);
      && Inv(r) && r.server == s.server && r.starts == s.starts && r.sent == s.sent[c := s.sent[c] + [id]]
      && r.client.log == s.client.log && r.client.read == s.client.read + 1 && r.client.input == [id]
      && r.client.acked == s.client.acked && r.client.line == Some(Line(c, 1, None, None, |s.server.acks[c]|))
  {
    var a := Apply(s, Pick);
    StepKeeps(s, Pick);
    PickIff(s.client);
    var b := Apply(a, FinishData);
    StepKeeps(a, FinishData);
    StepKeeps(b, SendEnd);
  }

  /** The newest file marked on a connection is older than the next item. */
  lemma NextIsNewer(s: Session, c: nat, i: nat, j: nat)
    requires Inv(s) && c < |s.starts| && s.starts[c] >= 0 && i < |s.server.slots| && s.server.slots[i].cxId == c
    requires s.starts[c] + |s.sent[c]| <= j < |s.client.log|
    ensures Newer(MessageId(s.client.log[j]), s.server.slots[i].ackFile)
  {
    var x := s.server.slots[i].ackFile;
    assert S.SlotInv(s.server.slots[i], S.From(s.server.taken, c), s.server.acks[c]);
    if x in S.From(s.server.taken, c) {
      var p := AckNamesTaken(s, c, x);
      MessageOrder(s.client.log[j], s.client.log[p]);
    } else {
      assert MessageId(s.client.log[j]).maj == 1;
    }
  }

  /** The server's part: complete the file, hand it to the application, and when that acknowledges it, write the line. */
  lemma ServerAnswers(s: S.Server, i: nat, id: FileId)
    requires S.Inv(s) && i < |s.slots| && s.slots[i].cxId >= 0 && s.queue == []
    requires Newer(id, s.slots[i].ackFile)
    ensures var c := s.slots[i].cxId;
      S.Enabled(s, S.Complete(i, id)) && var a := S.Apply(s, S.Complete(i, id));
      S.Enabled(a, S.Take) && var b := S.Apply(a, S.Take);
      S.Enabled(b, S.AckFile(|s.taken|)) && var d := S.Apply(b, S.AckFile(|s.taken|));
      S.Enabled(d, S.SendAck(i, 0, true)) && var r := S.Apply(d, S.SendAck(i, 0, true));
      c < |s.acks| == |r.acks| && r.acks[c] == s.acks[c] + [id] && r.taken == s.taken + [S.Tagged(id, i, c)]
  {
    var a := S.Apply(s, S.Complete(i, id));
    S.CompleteKeeps(s, i, id);
    S.CompleteAndTake(s, i, id);
    var b := S.Apply(a, S.Take);
    S.TakeKeeps(a);
    assert b.taken == s.taken + [S.Tagged(id, i, s.slots[i].cxId)];
    S.AckFileMarksIff(b, |s.taken|);
    S.AckFileKeeps(b, |s.taken|);
    S.SendAckWritesIff(S.Apply(b, S.AckFile(|s.taken|)), i, 0, true);
  }

  /** The client's part again: reading the line makes the permanent FIFO forget everything up to the item. */
  lemma ClientForgets(s: Session, j: nat)
    requires Inv(s) && Enabled(s, ReadAcks(1)) && s.client.line.value.current.None?
    requires j + 1 == s.client.read <= |s.client.log|
    requires s.server.acks[s.client.line.value.cx][s.client.line.value.parsed] == MessageId(s.client.log[j])
    ensures var r := Apply(s, ReadAcks(1)); r.client.input == [] && r.client.acked == r.client.log[..s.client.read] && r.client.log == s.client.log
  {
    var k, l := s.client, s.client.line.value;
    ReadAcksIs(s, 1);
    RemovedExactly(k.log, |k.acked|, k.read, None, j);
    if j < |k.acked| { assert |k.acked| == k.read; }
    assert k.log[..|k.acked|] + k.log[|k.acked|..k.read] == k.log[..k.read];
  }

  /** These steps, each of them possible, lead from one session to another. */
  ghost predicate Leads(s: Session, steps: seq<Step>, r: Session)
    decreases |steps|
  {
    if steps == [] then s == r
    else Enabled(s, steps[0]) && Leads(Apply(s, steps[0]), steps[1..], r)
  }

  lemma LeadsFirst(s: Session, step: Step, steps: seq<Step>, r: Session)
    requires Enabled(s, step) && Leads(Apply(s, step), steps, r)
    ensures Leads(s, [step] + steps, r)
  {
    assert ([step] + steps)[1..] == steps;
  }

  lemma {:induction false} LeadsKeeps(s: Session, steps: seq<Step>, r: Session)
    requires Inv(s) && Leads(s, steps, r)
    ensures Inv(r)
    decreases |steps|
  {
    if steps != [] {
      StepKeeps(s, steps[0]);
      LeadsKeeps(Apply(s, steps[0]), steps[1..], r);
    }
  }

  /** The client's steps for one file. */
  const SEND := [Pick] + ([FinishData] + ([SendEnd] + []))

  lemma ClientLeads(s: Session, c: nat, i: nat) returns (q: Session)
    requires Waiting(s, c, i)
    ensures Leads(s, SEND, q) && Inv(q) && q.server == s.server && q.starts == s.starts && q.client.log == s.client.log
    ensures q.sent == s.sent[c := s.sent[c] + [s.client.log[s.client.read]]] && q.client.read == s.client.read + 1
    ensures q.client.line == Some(Line(c, 1, None, None, |s.server.acks[c]|))
  {
    ClientSends(s, c, i);
    var a := Apply(s, Pick);
    var b := Apply(a, FinishData);
    q := Apply(b, SendEnd);
    LeadsFirst(b, SendEnd, [], q);
    LeadsFirst(a, FinishData, [SendEnd] + [], q);
    LeadsFirst(s, Pick, [FinishData] + ([SendEnd] + []), q);
  }

  /** The server's steps between the END of a file and its acknowledgement. */
  function Answer(taken: nat, i: nat, id: FileId): seq<Step> {
    [ServerDoes(S.Complete(i, id))]
    + ([ServerDoes(S.Take)] + ([ServerDoes(S.AckFile(taken))] + ([ServerDoes(S.SendAck(i, 0, true))] + [])))
  }

  lemma ServerStep(s: Session, t: S.Step, steps: seq<Step>, r: Session)
    requires !t.Accept? && !t.Complete? && S.Enabled(s.server, t) && Leads(s.(server := S.Apply(s.server, t)), steps, r)
    ensures Leads(s, [ServerDoes(t)] + steps, r)
  {
    LeadsFirst(s, ServerDoes(t), steps, r);
  }

  lemma ServerLeads(s: Session, c: nat, i: nat, id: FileId) returns (r: S.Server)
    requires S.Inv(s.server) && i < |s.server.slots| && s.server.slots[i].cxId == c && s.server.queue == []
    requires c < |s.starts| == |s.sent| && c < |s.server.received| && s.starts[c] >= 0 && |s.server.received[c]| < |s.sent[c]|
    requires id == MessageId(s.sent[c][|s.server.received[c]|]) && Newer(id, s.server.slots[i].ackFile)
    ensures Leads(s, Answer(|s.server.taken|, i, id), s.(server := r))
    ensures c < |s.server.acks| == |r.acks| && r.acks[c] == s.server.acks[c] + [id]
  {
    ServerAnswers(s.server, i, id);
    var n := |s.server.taken|;
    var a := S.Apply(s.server, S.Complete(i, id));
    var b := S.Apply(a, S.Take);
    var d := S.Apply(b, S.AckFile(n));
    r := S.Apply(d, S.SendAck(i, 0, true));
    var e := s.(server := r);
    ServerStep(s.(server := d), S.SendAck(i, 0, true), [], e);
    ServerStep(s.(server := b), S.AckFile(n), [ServerDoes(S.SendAck(i, 0, true))] + [], e);
    ServerStep(s.(server := a), S.Take, [ServerDoes(S.AckFile(n))] + ([ServerDoes(S.SendAck(i, 0, true))] + []), e);
    LeadsFirst(s, ServerDoes(S.Complete(i, id)),
               [ServerDoes(S.Take)] + ([ServerDoes(S.AckFile(n))] + ([ServerDoes(S.SendAck(i, 0, true))] + [])), e);
  }

  /** What remains to be shown of a session in which the END has been handed to the socket. */
  lemma SentIsAnswered(q: Session, c: nat, i: nat, id: nat) returns (e: Session)
    requires Inv(q) && c < |q.starts| && q.starts[c] >= 0 && i < |q.server.slots| && q.server.slots[i].cxId == c
    requires q.server.queue == [] && c < |q.server.received| && |q.server.received[c]| + 1 == |q.sent[c]| && q.sent[c][|q.sent[c]| - 1] == id
    requires Newer(MessageId(id), q.server.slots[i].ackFile)
    ensures Leads(q, Answer(|q.server.taken|, i, MessageId(id)), e) && Inv(e) && e == q.(server := e.server)
    ensures c < |q.server.acks| == |e.server.acks| && e.server.acks[c] == q.server.acks[c] + [MessageId(id)]
  {
    var r := ServerLeads(q, c, i, MessageId(id));
    e := q.(server := r);
    LeadsKeeps(q, Answer(|q.server.taken|, i, MessageId(id)), e);
  }

  /** What remains to be shown when the line has been written. */
  lemma LineIsRead(e: Session, c: nat, n: nat)
    requires Inv(e) && c < |e.server.acks| && |e.server.acks[c]| > 0 && n + 1 == e.client.read <= |e.client.log|
    requires e.client.line == Some(Line(c, 1, None, None, |e.server.acks[c]| - 1))
    requires e.server.acks[c][|e.server.acks[c]| - 1] == MessageId(e.client.log[n])
    ensures Enabled(e, ReadAcks(1)) && var r := Apply(e, ReadAcks(1)).client;
      r.input == [] && r.acked == e.client.log[..n + 1]
  {
    ClientForgets(e, n);
  }

  /**
    An item goes all the way: from any quiet state with an item waiting, the client sends it, the server
    completes, hands over and acknowledges it, and reading that line makes the permanent FIFO forget it.
   */
  lemma ItemGoesThrough(s: Session, c: nat, i: nat) returns (q: Session, e: Session, r: Session)
    requires Waiting(s, c, i)
    ensures Leads(s, SEND, q) && q.server == s.server
    ensures Leads(q, Answer(|s.server.taken|, i, MessageId(s.client.log[s.client.read])), e)
    ensures Enabled(e, ReadAcks(1)) && r == Apply(e, ReadAcks(1))
    ensures r.client.acked == s.client.log[..s.client.read + 1] && r.client.input == [] && r.client.log == s.client.log
  {
    NextItemNewer(s, c, i);
    q := ClientLeads(s, c, i);
    e := SentIsAnswered(q, c, i, s.client.log[s.client.read]);
    LineIsRead(e, c, s.client.read);
    r := Apply(e, ReadAcks(1));
  }

  /**
    After a break the client can connect again to any free slot, and the first item it picks there is
    the oldest one not acknowledged, if there is one.
   */
  lemma ReturnsAfterBreak(s: Session, i: nat)
    requires Inv(s) && Enabled(s, Disconnect) && S.Enabled(s.server, S.Accept(i)) && s.client.capacity > 0
    ensures var r := Apply(s, Disconnect);
      Enabled(r, Connect(i)) && var q := Apply(r, Connect(i));
      Enabled(q, Pick) && var t := Apply(q, Pick).client; var n := |s.client.acked|;
      t.line.Some? && t.line.value.current == if n < |s.client.log| then Some(s.client.log[n]) else None
  {
    var k := s.client;
    if k.input != [] {
      assert k.input[0] == k.log[|k.acked|];
    }
  }

  lemma NextItemNewer(s: Session, c: nat, i: nat)
    requires Waiting(s, c, i)
    ensures s.starts[c] >= 0 && Newer(MessageId(s.client.log[s.client.read]), s.server.slots[i].ackFile)
  {
    NextIsNewer(s, c, i, s.client.read);
  }

  // ---------------------------------------------------------------- beyond the limit on ids

  /**
    The exact limit: the removal loop, run with the acknowledgement of an earlier item, removes a
    later item from the queue if and only if the id of that item does not fit an `int`.
   */
  lemma StaleAckRemovesIff(a: nat, b: nat)
    requires 0 < a < INT32_LIMIT && a < b < 0x1_0000_0000
    ensures Removed([b], None, MessageId(a)) == 1 <==> b >= INT32_LIMIT
    ensures Removed([b], None, MessageId(a)) == 0 <==> b < INT32_LIMIT
  {
    assert [b][1..] == [];
    if b >= INT32_LIMIT {
      assert ToInt32(b) < 0;
      assert Removed([], None, MessageId(a)) == 0;
    }
  }

  /** A client that has item 2^31 in its queue tells the permanent FIFO to forget it on account of item 2^31 - 1. */
  lemma ForgottenUnsent()
    ensures var k := Client([INT32_LIMIT - 1, INT32_LIMIT], 2, [INT32_LIMIT - 1], [INT32_LIMIT], 9,
                            MessageId(INT32_LIMIT - 1), Some(Line(0, 0, None, None, 1)));
      QueueInv(k) && RemoveAcked(k).acked == [INT32_LIMIT - 1, INT32_LIMIT] && RemoveAcked(k).input == []
  {
    var k := Client([INT32_LIMIT - 1, INT32_LIMIT], 2, [INT32_LIMIT - 1], [INT32_LIMIT], 9,
                    MessageId(INT32_LIMIT - 1), Some(Line(0, 0, None, None, 1)));
    StaleAckRemovesIff(INT32_LIMIT - 1, INT32_LIMIT);
    assert k.log[..1] == k.acked && k.log[1..2] == k.input;
    assert k.acked + k.input[..1] == [INT32_LIMIT - 1, INT32_LIMIT];
  }
}
