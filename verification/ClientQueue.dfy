/** The transmit queue of a client in message mode, as its connected loop updates it. */
module ClientQueue {
  import opened Options
  import opened FileIds
  import opened TransportSession

  class Transmitter {
    var log: seq<nat>     // ids in the permanent FIFO, oldest first
    var read: nat         // how many of them have been read
    var acked: seq<nat>   // ids acknowledged in the permanent FIFO
    var input: seq<nat>   // the transmit queue
    const capacity: nat
    var ackId: FileId
    var cx: nat
    var index: int
    var current: Option<nat>
    var ending: Option<nat>
    var parsed: nat

    ghost predicate Valid()
      reads this
    {
      read <= |log| && index >= 0
    }

    ghost function View(): Client
      reads this
      requires index >= 0
    {
      Client(log, read, acked, input, capacity, ackId, Some(Line(cx, index, current, ending, parsed)))
    }

    constructor (log: seq<nat>, capacity: nat)
      ensures Valid() && this.log == log && this.capacity == capacity
      ensures read == 0 && acked == [] && input == [] && ackId == ZERO
      ensures current == None && ending == None && index == 0 && parsed == 0 && cx == 0
    {
      this.log, this.capacity := log, capacity;
      read, acked, input, ackId := 0, [], [], ZERO;
      cx, index, current, ending, parsed := 0, 0, None, None, 0;
    }

    /** Start of the connected state on a new connection: everything in the queue is sent again. */
    method Start(connection: nat)
      requires Valid()
      modifies this`cx, this`index, this`current, this`ending, this`parsed
      ensures Valid() && View() == old(View()).(line := Some(Line(connection, 0, None, None, 0)))
    {
      cx, index, current, ending, parsed := connection, 0, None, None, 0;
    }

    /** The removal loop: acknowledged files leave the queue, but never the file in transfer. */
    method RemoveAcknowledged()
      requires Valid()
      modifies this`input, this`acked, this`index
      ensures Valid() && View() == RemoveAcked(old(View()))
    {
      ghost var n, all := 0, Removed(input, current, ackId);
      while input != [] && current != Some(input[0]) && !Newer(MessageId(input[0]), ackId)
        invariant n <= |old(input)| && input == old(input)[n..] && acked == old(acked) + old(input)[..n]
        invariant index == old(index) - n && all == n + Removed(input, current, ackId)
        decreases |input|
      {
        acked := acked + [input[0]];
        input := input[1..];
        index := index - 1;
        n := n + 1;
      }
      if index < 0 { index := 0; }
    }

    /** The replies read: the last acknowledgement counts, then the queue is cleared up to it. */
    method ProcessReplies(acks: seq<FileId>)
      requires Valid()
      modifies this`parsed, this`ackId, this`input, this`acked, this`index
      ensures Valid()
      ensures var k := old(View());
        View() == RemoveAcked(k.(ackId := if acks == [] then k.ackId else acks[|acks| - 1],
                                 line := Some(k.line.value.(parsed := k.line.value.parsed + |acks|))))
    {
      for i := 0 to |acks|
        modifies this`ackId, this`parsed
        invariant ackId == if i == 0 then old(ackId) else acks[i - 1]
        invariant parsed == old(parsed) + i
      {
        ackId := acks[i];
        parsed := parsed + 1;
      }
      RemoveAcknowledged();
    }

    /** The next file to transmit: from the queue, or one more item of the permanent FIFO. */
    method Pick()
      requires Valid() && current == None && ending == None
      modifies this`read, this`input, this`index, this`current
      ensures Valid() && View() == PickNext(old(View()))
    {
      if index < |input| {
        current := Some(input[index]);
      } else if |input| < capacity && read < |log| {
        var id := log[read];
        read := read + 1;
        input := input + [id];
        current := Some(id);
      }
      if current != None {
        index := index + 1;
      }
    }
  }
}
