/** One connection of the server as it runs: a fixed buffer parsed in place by the read loop. */
module ServerConnection {
  import opened Options
  import opened Wire
  import opened Receiver

  class Connection {
    const buffer: array<char>
    var bufferStart: nat
    var phase: Phase
    var head: Head
    var data: string
    var files: seq<ServerFile>

    ghost predicate Valid()
      reads this
    {
      buffer.Length == SERVER_BUFFER && bufferStart < SERVER_BUFFER
    }

    ghost function View(): Conn
      requires Valid()
      reads this, buffer
    {
      Conn(phase, buffer[..bufferStart], head, data, files)
    }

    /** The state without the buffer, as the parsing loop carries it along. */
    ghost function Core(): Conn
      reads this
    {
      Conn(phase, "", head, data, files)
    }

    constructor ()
      ensures Valid() && View() == FRESH && fresh(buffer)
    {
      buffer := new char[SERVER_BUFFER](_ => '\0');
      bufferStart := 0;
      phase, head, data, files := Greeting, Head("", 0, 0, 0), "", [];
    }

    /** `strchr` from position `from`, on a text that ends at `end`. */
    method FindLineEnd(from: nat, end: nat) returns (r: Option<nat>)
      requires from <= end <= buffer.Length
      ensures r.Some? ==> from <= r.value < end && LineEnd(buffer[from..end]) == Some(r.value - from)
      ensures r.None? ==> LineEnd(buffer[from..end]) == None
    {
      var i := from;
      while i < end
        invariant from <= i <= end
        invariant LineEnd(buffer[from..end]) ==
          match LineEnd(buffer[i..end]) case None => None case Some(n) => Some(n + (i - from))
      {
        assert buffer[i..end][0] == buffer[i] && buffer[i..end][1..] == buffer[i + 1..end];
        if buffer[i] == '\0' {
          return None;
        }
        if buffer[i] == '\n' {
          return Some(i);
        }
        i := i + 1;
      }
      return None;
    }

    /** Append what the socket gave, and terminate it. */
    method Fill(chunk: string)
      requires Valid() && bufferStart + |chunk| < SERVER_BUFFER
      modifies buffer, `bufferStart
      ensures Valid() && buffer[..bufferStart] == old(buffer[..bufferStart]) + chunk
      ensures bufferStart == old(bufferStart) + |chunk|
    {
      var start := bufferStart;
      for i := 0 to |chunk|
        invariant buffer[..start] == old(buffer[..bufferStart])
        invariant buffer[start..start + i] == chunk[..i]
      {
        buffer[start + i] := chunk[i];
        assert buffer[start..start + i + 1] == buffer[start..start + i] + [chunk[i]];
      }
      bufferStart := start + |chunk|;
      buffer[bufferStart] := '\0';
      assert buffer[..bufferStart] == buffer[..start] + buffer[start..bufferStart];
    }

    /** `memmove` of the unparsed bytes to the beginning of the buffer. */
    method Keep(from: nat)
      requires Valid() && from <= bufferStart
      modifies buffer, `bufferStart
      ensures Valid() && buffer[..bufferStart] == old(buffer[from..bufferStart])
    {
      var n := bufferStart - from;
      for i := 0 to n
        invariant buffer[..i] == old(buffer[from..bufferStart])[..i]
        invariant forall j :: from + i <= j < from + n ==> buffer[j] == old(buffer[j])
      {
        buffer[i] := buffer[from + i];
      }
      bufferStart := n;
    }

    method Close()
      modifies `phase, `bufferStart
      ensures phase == Closed && bufferStart == 0
    {
      phase, bufferStart := Closed, 0;
    }

    /** A header was read: take the bytes of the file that are already in the buffer. */
    method OpenHere(h: Head, from: nat, end: nat) returns (next: nat)
      requires from <= end <= buffer.Length && h.size > 0
      modifies `phase, `head, `data
      ensures from <= next <= end
      ensures OpenFile(old(Core()), h, buffer[from..end]) == (Core(), buffer[next..end])
    {
      head := h;
      var n := end - from;
      if n >= h.size {
        n := h.size;
        phase := Ending;
      } else {
        phase := Receiving;
      }
      data := buffer[from..from + n];
      next := from + n;
      assert buffer[from..end][..n] == data && buffer[from..end][n..] == buffer[next..end];
    }

    /** One complete line; `next` is where the following unparsed byte is. */
    method Line(line: string, from: nat, end: nat, o: Outside) returns (next: nat, o': Outside)
      requires from <= end <= buffer.Length
      modifies `phase, `head, `data, `files
      ensures from <= next <= end
      ensures Took(old(Core()), line, buffer[from..end], o, Core(), buffer[next..end], o')
    {
      next, o' := from, o;
      match phase {
        case Greeting =>
          phase := if o.ready then Begin else Closed;
        case Begin =>
          var h := ScanHeader(line);
          if h.None? || h.value.size <= 0 {
            phase := Closed;
          } else {
            next := OpenHere(h.value, from, end);
          }
        case Ending =>
          if |line| < 3 || line[..3] != "END" || o.room == 0 {
            phase := Closed;
          } else {
            files := files + [ServerFile(head.source, head.min, head.maj, data)];
            phase := Begin;
            o' := o.(room := o.room - 1);
          }
        case _ =>
      }
    }

    /** No complete line from `ptr` on: keep the bytes for later, or give up on a full buffer. */
    method Wait(ptr: nat, ghost o: Outside)
      requires Valid() && phase != Closed && ptr <= bufferStart && LineEnd(buffer[ptr..bufferStart]) == None
      modifies buffer, `bufferStart, `phase
      ensures Valid() && View() == Parse(old(Core()), old(buffer[ptr..bufferStart]), ptr == 0, o)
    {
      if ptr != 0 {
        Keep(ptr);
      } else {
        assert buffer[0..bufferStart] == buffer[..bufferStart];
        if bufferStart >= SERVER_BUFFER - 1 {
          Close();
        }
      }
    }

    /** Take the line that ends at `q`; what remains to be done is parsing from `next` on. */
    method Next(ptr: nat, q: nat, o: Outside) returns (next: nat, o': Outside)
      requires Valid() && phase != Closed && ptr <= q < bufferStart
      requires LineEnd(buffer[ptr..bufferStart]) == Some(q - ptr)
      modifies `phase, `head, `data, `files
      ensures ptr < next <= bufferStart
      ensures Parse(old(Core()), buffer[ptr..bufferStart], ptr == 0, o) ==
        if phase == Closed then Core() else Parse(Core(), buffer[next..bufferStart], false, o')
    {
      var line := buffer[ptr..q];
      ghost var before, l, rest := Core(), buffer[ptr..bufferStart], buffer[q + 1..bufferStart];
      LineParts(buffer[..], ptr, q, bufferStart);
      next, o' := Line(line, q + 1, bufferStart, o);
      ParseLine(before, l, line, rest, ptr == 0, o, Core(), buffer[next..bufferStart], o');
    }

    /** The parsing loop over the buffer. */
    method ParseBuffer(o: Outside)
      requires Valid() && phase != Closed
      modifies this, buffer
      ensures Valid() && View() == Parse(old(Core()), old(buffer[..bufferStart]), true, o)
    {
      var ptr: nat, out := 0, o;
      assert buffer[0..bufferStart] == buffer[..bufferStart];
      while true
        invariant Valid() && ptr <= bufferStart && phase != Closed
        invariant Parse(Core(), buffer[ptr..bufferStart], ptr == 0, out)
               == Parse(old(Core()), old(buffer[..bufferStart]), true, o)
        decreases bufferStart - ptr
      {
        var e := FindLineEnd(ptr, bufferStart);
        if e.None? {
          Wait(ptr, out);
          return;
        }
        ptr, out := Next(ptr, e.value, out);
        if phase == Closed {
          bufferStart := 0;
          return;
        }
      }
    }

    /** `TR_server_connection_read`: in step with the stream however it is cut. */
    method Read(chunk: string, o: Outside)
      requires Valid() && (phase != Closed ==> |chunk| <= Room(View()))
      modifies this, buffer
      ensures Valid() && View() == Receiver.Read(old(View()), chunk, o)
    {
      if phase == Closed {
        return;
      }
      if chunk == "" {
        Close();
      } else if phase == Receiving {
        data := data + chunk;
        if |data| == head.size {
          phase := Ending;
        }
      } else {
        Fill(chunk);
        ParseBuffer(o);
      }
    }
  }

  lemma LineParts(text: string, ptr: nat, q: nat, end: nat)
    requires ptr <= q < end <= |text|
    ensures text[ptr..end][..q - ptr] == text[ptr..q] && text[ptr..end][q - ptr + 1..] == text[q + 1..end]
  {
  }
}
