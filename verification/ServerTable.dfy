/** The server's table of connections in place; every method is one step of the server. */
module ServerTable {
  import opened FileIds
  import S = TransportServer

  class Table {
    const slots: array<S.Slot>
    var counter: nat  // connections accepted so far
    var queue: seq<S.Tagged>
    ghost var server: S.Server  // the same server with its history

    ghost predicate Valid()
      reads this, slots
    {
      server.slots == slots[..] && server.queue == queue && counter == |server.received| && S.Inv(server)
    }

    constructor (size: nat)
      ensures Valid() && fresh(slots) && slots.Length == size && S.Init(server)
    {
      slots := new S.Slot[size](_ => S.Slot(-1, ZERO, 0));
      counter, queue := 0, [];
      server := S.Server(seq(size, _ => S.Slot(-1, ZERO, 0)), [], [], [], []);
      new;
      assert slots[..] == server.slots;
    }

    /** A new connection takes the first free slot; -1 when there is none. */
    method Accept() returns (i: int)
      requires Valid()
      modifies this, slots
      ensures Valid()
      ensures i == -1 <==> forall k :: 0 <= k < slots.Length ==> old(slots[k]).cxId != -1
      ensures i == -1 ==> server == old(server)
      ensures i >= 0 ==> S.Enabled(old(server), S.Accept(i)) && server == S.Apply(old(server), S.Accept(i))
      ensures i >= 0 ==> forall k :: 0 <= k < i < slots.Length ==> old(slots[k]).cxId != -1
    {
      i := 0;
      while i < slots.Length && slots[i].cxId != -1
        invariant 0 <= i <= slots.Length
        invariant forall k :: 0 <= k < i ==> slots[k].cxId != -1
      {
        i := i + 1;
      }
      if i == slots.Length { return -1; }
      S.StepKeeps(server, S.Accept(i));
      server := S.Apply(server, S.Accept(i));
      slots[i] := S.Slot(counter, ZERO, 0);
      counter := counter + 1;
    }

    /** A file is complete: it goes to the output queue under the connection's number. */
    method Complete(i: nat, id: FileId)
      requires Valid() && i < slots.Length && slots[i].cxId >= 0
      modifies this
      ensures Valid() && S.Enabled(old(server), S.Complete(i, id)) && server == S.Apply(old(server), S.Complete(i, id))
    {
      S.StepKeeps(server, S.Complete(i, id));
      server := S.Apply(server, S.Complete(i, id));
      queue := queue + [S.Tagged(id, i, slots[i].cxId)];
    }

    /** `TR_server_connection_close` */
    method Close(i: nat)
      requires Valid() && i < slots.Length
      modifies this`server, slots
      ensures Valid() && server == S.Apply(old(server), S.Close(i))
    {
      S.StepKeeps(server, S.Close(i));
      server := S.Apply(server, S.Close(i));
      slots[i] := slots[i].(cxId := -1);
    }

    /** The critical section of `TR_server_ack_file`; `k` tells which of the files taken it is. */
    method MarkFile(t: S.Tagged, ghost k: nat)
      requires Valid() && k < |server.taken| && server.taken[k] == t
      modifies this`server, slots
      ensures Valid() && S.Enabled(old(server), S.AckFile(k)) && server == S.Apply(old(server), S.AckFile(k))
    {
      assert S.FilesInv(server);
      S.StepKeeps(server, S.AckFile(k));
      server := S.Apply(server, S.AckFile(k));
      var x := slots[t.slot];
      if x.cxId == t.sender && Newer(t.id, x.ackFile) {
        slots[t.slot] := x.(ackFile := t.id, nonAcknowledged := x.nonAcknowledged + 1);
      }
    }

    /** `TR_server_acknowledge_files`; `sent` tells whether the socket took the line. */
    method Acknowledge(i: nat, minNumber: nat, sent: bool)
      requires Valid() && i < slots.Length
      modifies this`server, slots
      ensures Valid() && S.Enabled(old(server), S.SendAck(i, minNumber, sent))
      ensures server == S.Apply(old(server), S.SendAck(i, minNumber, sent))
    {
      assert S.SlotsInv(server);
      S.StepKeeps(server, S.SendAck(i, minNumber, sent));
      server := S.Apply(server, S.SendAck(i, minNumber, sent));
      var x := slots[i];
      if x.cxId >= 0 && x.nonAcknowledged > minNumber && sent {
        slots[i] := x.(nonAcknowledged := 0);
      }
    }

    /** `TR_server_ack_file`: mark the file, then acknowledge if many are waiting. */
    method AckFile(t: S.Tagged, sent: bool, ghost k: nat)
      requires Valid() && k < |server.taken| && server.taken[k] == t
      modifies this`server, slots
      ensures Valid() && S.Enabled(old(server), S.AckFile(k))
      ensures var marked, send := S.Apply(old(server), S.AckFile(k)), S.SendAck(t.slot, S.ACK_MAX_FILES, sent);
        S.Enabled(marked, send) && server == S.Apply(marked, send)
    {
      MarkFile(t, k);
      assert S.FilesInv(server);
      Acknowledge(t.slot, S.ACK_MAX_FILES, sent);
    }

    /** Once a second every connection acknowledges what it can. */
    method AcknowledgeAll(sent: seq<bool>)
      requires Valid() && |sent| == slots.Length
      modifies this`server, slots
      ensures Valid() && server == AckAll(old(server), sent, |sent|)
    {
      for i := 0 to slots.Length
        modifies this`server, slots
        invariant Valid() && server == AckAll(old(server), sent, i)
      {
        Acknowledge(i, 0, sent[i]);
      }
    }
  }

  function SendOne(s: S.Server, i: nat, sent: bool): S.Server {
    if S.Enabled(s, S.SendAck(i, 0, sent)) then S.Apply(s, S.SendAck(i, 0, sent)) else s
  }

  /** The first `n` connections have sent what they had to acknowledge, if their sockets took it. */
  function AckAll(s: S.Server, sent: seq<bool>, n: nat): S.Server
    requires n <= |sent|
  {
    if n == 0 then s else SendOne(AckAll(s, sent, n - 1), n - 1, sent[n - 1])
  }

  /** Only the slot and the acknowledgement lines of one connection change. */
  lemma SendOneShape(s: S.Server, i: nat, sent: bool)
    requires i < |s.slots|
    ensures var t := SendOne(s, i, sent);
      && t.taken == s.taken && t.received == s.received && t.queue == s.queue && |t.slots| == |s.slots|
      && (forall j :: 0 <= j < |s.slots| && j != i ==> t.slots[j] == s.slots[j])
      && t.slots[i].cxId == s.slots[i].cxId && t.slots[i].ackFile == s.slots[i].ackFile
  {
  }

  lemma SendOneInv(s: S.Server, i: nat, sent: bool)
    requires S.Inv(s) && i < |s.slots|
    ensures S.Inv(SendOne(s, i, sent)) && s.slots[i].cxId < |s.acks|
  {
    if S.Enabled(s, S.SendAck(i, 0, sent)) {
      S.StepKeeps(s, S.SendAck(i, 0, sent));
    }
  }

  lemma SendOneClears(s: S.Server, i: nat)
    requires i < |s.slots| && 0 <= s.slots[i].cxId < |s.acks|
    ensures |SendOne(s, i, true).slots| == |s.slots| && SendOne(s, i, true).slots[i].nonAcknowledged == 0
  {
  }

  /** Slots not reached yet are as they were. */
  lemma {:induction false} AckAllShape(s: S.Server, sent: seq<bool>, n: nat)
    requires S.Inv(s) && n <= |sent| == |s.slots|
    ensures var t := AckAll(s, sent, n);
      && S.Inv(t) && t.taken == s.taken && t.received == s.received && t.queue == s.queue && |t.slots| == |s.slots|
      && forall i :: n <= i < |s.slots| ==> t.slots[i] == s.slots[i]
  {
    if n > 0 {
      AckAllShape(s, sent, n - 1);
      SendOneShape(AckAll(s, sent, n - 1), n - 1, sent[n - 1]);
      SendOneInv(AckAll(s, sent, n - 1), n - 1, sent[n - 1]);
    }
  }

  /** Afterwards no connection that could send has anything left to acknowledge; its mark has not moved. */
  lemma {:induction false} NothingLeft(s: S.Server, sent: seq<bool>, n: nat, i: nat)
    requires S.Inv(s) && i < n <= |sent| == |s.slots|
    ensures var t := AckAll(s, sent, n);
      && |t.slots| == |s.slots| && t.slots[i].cxId == s.slots[i].cxId && t.slots[i].ackFile == s.slots[i].ackFile
      && (s.slots[i].cxId >= 0 && sent[i] ==> t.slots[i].nonAcknowledged == 0)
  {
    AckAllShape(s, sent, n - 1);
    SendOneShape(AckAll(s, sent, n - 1), n - 1, sent[n - 1]);
    if i < n - 1 {
      NothingLeft(s, sent, n - 1, i);
    } else {
      SendOneInv(AckAll(s, sent, i), i, sent[i]);
      if s.slots[i].cxId >= 0 && sent[i] { SendOneClears(AckAll(s, sent, i), i); }
    }
  }

  /** The last line on every open connection whose socket took it then is its mark, the newest file acknowledged. */
  lemma LastLineIsMark(s: S.Server, sent: seq<bool>, i: nat)
    requires S.Inv(s) && i < |sent| == |s.slots| && s.slots[i].cxId >= 0 && sent[i]
    ensures var t, c := AckAll(s, sent, |sent|), s.slots[i].cxId;
      c < |t.acks| && S.LastAck(t.acks[c]) == s.slots[i].ackFile
  {
    var t := AckAll(s, sent, |sent|);
    AckAllShape(s, sent, |sent|);
    NothingLeft(s, sent, |sent|, i);
    assert S.SlotInv(t.slots[i], S.From(t.taken, t.slots[i].cxId), t.acks[t.slots[i].cxId]);
  }
}
