/**
  The receiving half of a connection: bytes arrive in pieces of any size and are parsed by a small
  state machine with a bounded buffer. However the stream is cut, the files it rebuilds are exactly
  those whose bytes have all arrived.
 */
module Receiver {
  import opened Options
  import opened Wire

  datatype Phase = Greeting | Begin | Receiving | Ending | Closed

  /** `buffer` is the unparsed text kept for the next read; `data` what arrived of the current file. */
  datatype Conn = Conn(phase: Phase, buffer: string, head: Head, data: string, files: seq<ServerFile>)

  const FRESH := Conn(Greeting, "", Head("", 0, 0, 0), "", [])

  /** What may go wrong outside: the READY reply, and the number of files the output queue takes. */
  datatype Outside = Outside(ready: bool, room: nat)

  /** A header line: open a file and take the bytes that already came with it. Returns what is left to parse. */
  function OpenFile(c: Conn, h: Head, rest: string): (Conn, string)
    requires h.size > 0
  {
    if |rest| >= h.size then (c.(phase := Ending, head := h, data := rest[..h.size]), rest[h.size..])
    else (c.(phase := Receiving, head := h, data := rest), "")
  }

  /** One complete line. Returns the connection, what is left to parse, and the room left outside. */
  function TakeLine(c: Conn, line: string, rest: string, o: Outside): (Conn, string, Outside) {
    match c.phase
    case Greeting => (c.(phase := if o.ready then Begin else Closed), rest, o)
    case Begin =>
      var h := ScanHeader(line);
      if h.None? || h.value.size <= 0 then (c.(phase := Closed), rest, o)
      else var (d, left) := OpenFile(c, h.value, rest); (d, left, o)
    case Ending =>
      if |line| < 3 || line[..3] != "END" || o.room == 0 then (c.(phase := Closed), rest, o)
      else
        var f := ServerFile(c.head.source, c.head.min, c.head.maj, c.data);
        (c.(phase := Begin, files := c.files + [f]), rest, o.(room := o.room - 1))
    case _ => (c, rest, o)
  }

  lemma TakeLineShrinks(c: Conn, line: string, rest: string, o: Outside)
    ensures |TakeLine(c, line, rest, o).1| <= |rest|
  {
  }

  /** The parsing loop over the bytes `l`; `whole` tells that nothing of the buffer was parsed yet. */
  function Parse(c: Conn, l: string, whole: bool, o: Outside): Conn
    decreases |l|
  {
    if c.phase == Closed then c.(buffer := "")
    else
      match LineEnd(l)
      case None => if whole && |l| >= SERVER_BUFFER - 1 then c.(phase := Closed, buffer := "") else c.(buffer := l)
      case Some(n) =>
        TakeLineShrinks(c, l[..n], l[n + 1..], o);
        var (d, left, o') := TakeLine(c, l[..n], l[n + 1..], o);
        Parse(d, left, false, o')
  }

  /** The result of taking a line, up to the unparsed bytes of a closed connection. */
  ghost predicate Took(c: Conn, line: string, rest: string, o: Outside, d: Conn, left: string, o': Outside) {
    var t := TakeLine(c, line, rest, o);
    d == t.0 && o' == t.2 && (d.phase != Closed ==> left == t.1)
  }

  /** The loop goes on behind the line just taken. */
  lemma ParseLine(
    c: Conn, l: string, line: string, rest: string, whole: bool, o: Outside, d: Conn, left: string, o': Outside)
    requires c.phase != Closed && LineEnd(l) == Some(|line|) && l[..|line|] == line && l[|line| + 1..] == rest
    requires c.buffer == "" && Took(c, line, rest, o, d, left, o')
    ensures Parse(c, l, whole, o) == if d.phase == Closed then d else Parse(d, left, false, o')
  {
    TakeLineShrinks(c, line, rest, o);
  }

  /** How many bytes the next read may bring. */
  function Room(c: Conn): int {
    if c.phase == Receiving then c.head.size - |c.data| else SERVER_BUFFER - |c.buffer| - 1
  }

  /** `TR_server_connection_read` when the socket gave the bytes `chunk`. */
  function Read(c: Conn, chunk: string, o: Outside): Conn {
    if c.phase == Closed then c
    else if chunk == "" then c.(phase := Closed, buffer := "")
    else if c.phase == Receiving then
      var d := c.(data := c.data + chunk);
      if |d.data| == c.head.size then d.(phase := Ending) else d
    else Parse(c.(buffer := ""), c.buffer + chunk, true, o)
  }

  /** A line closes the connection exactly if it is not what the phase asks for, or the outside fails; only an END that is taken completes a file. */
  lemma LineClosesIff(c: Conn, line: string, rest: string, o: Outside)
    requires c.phase == Greeting || c.phase == Begin || c.phase == Ending
    ensures var (d, left, o') := TakeLine(c, line, rest, o);
      && (d.phase == Closed <==>
            || (c.phase == Greeting && !o.ready)
            || (c.phase == Begin && forall h :: ScanHeader(line) == Some(h) ==> h.size <= 0)
            || (c.phase == Ending && !("END" <= line && o.room > 0)))
      && (if c.phase == Ending && d.phase != Closed then |d.files| == |c.files| + 1 && o'.room == o.room - 1
          else d.files == c.files && o' == o)
  {
    assert |line| >= 3 ==> ("END" <= line <==> line[..3] == "END");
  }

  /** A read of nothing closes; one that leaves no complete line closes exactly when the buffer is then full, and otherwise keeps all of it. */
  lemma ReadClosesIff(c: Conn, chunk: string, o: Outside)
    requires c.phase != Closed && c.phase != Receiving && (chunk == "" || LineEnd(c.buffer + chunk) == None)
    ensures var d := Read(c, chunk, o);
      && (d.phase == Closed <==> chunk == "" || |c.buffer + chunk| >= SERVER_BUFFER - 1)
      && (d.phase != Closed ==> d == c.(buffer := c.buffer + chunk))
      && d.files == c.files
  {
  }

  /** A closed connection completes nothing any more. */
  lemma {:induction false} ClosedStays(c: Conn, ps: seq<Piece>)
    requires c.phase == Closed
    ensures ReadAll(c, ps) == c
  {
    if ps != [] { ClosedStays(c, ps[..|ps| - 1]); }
  }

  // ---------------------------------------------------------------- what the state says about the stream

  ghost predicate Stream(greeting: string, all: seq<ClientFile>) {
    && Plain(greeting) && |greeting| + 1 < CLIENT_BUFFER
    && forall i :: 0 <= i < |all| ==> Sendable(all[i])
  }

  function Rebuilt(fs: seq<ClientFile>): (r: seq<ServerFile>)
    ensures |r| == |fs|
    ensures forall i :: 0 <= i < |fs| ==> r[i] == Received(fs[i])
  {
    seq(|fs|, i requires 0 <= i < |fs| => Received(fs[i]))
  }

  /** `r` is all of the stream that is not parsed yet. */
  ghost predicate Position(c: Conn, greeting: string, all: seq<ClientFile>, r: string) {
    var k := |c.files|;
    && k <= |all|
    && c.files == Rebuilt(all[..k])
    && match c.phase
       case Greeting => k == 0 && r == greeting + ("\n" + Frames(all))
       case Begin => r == Frames(all[k..])
       case Receiving =>
         && k < |all| && c.head == HeadOf(all[k]) && |c.data| < |Payload(all[k])|
         && c.data + r == Payload(all[k]) + FromEnd(all[k..])
       case Ending =>
         && k < |all| && c.head == HeadOf(all[k]) && c.data == Payload(all[k])
         && r == FromEnd(all[k..])
       case Closed => true
  }

  /** Between reads: no complete line waits in the buffer; while a file is received it is empty. */
  ghost predicate Inv(c: Conn, greeting: string, all: seq<ClientFile>, unread: string) {
    && Position(c, greeting, all, c.buffer + unread)
    && (c.phase == Receiving ==> c.buffer == "")
    && (c.phase != Closed ==> LineEnd(c.buffer) == None && |c.buffer| < CLIENT_BUFFER)
  }

  // ---------------------------------------------------------------- each step of the parser

  /** The outside does not fail: the reply goes out and the output queue has room for what is to come. */
  predicate Generous(c: Conn, all: seq<ClientFile>, o: Outside) {
    o.ready && o.room + |c.files| >= |all|
  }

  /**
    What parsing the unparsed bytes `l` must do, with the bytes `u` still to come: wait when no line
    is complete (and then they are few), or take one line and be further on in the stream.
   */
  ghost predicate MovesOn(c: Conn, greeting: string, all: seq<ClientFile>, l: string, u: string, o: Outside) {
    match LineEnd(l)
    case None => |l| < CLIENT_BUFFER
    case Some(n) =>
      var (d, left, o') := TakeLine(c, l[..n], l[n + 1..], o);
      && Position(d, greeting, all, left + u)
      && (d.phase == Receiving ==> left == "")
      && (Generous(c, all, o) ==> d.phase != Closed && Generous(d, all, o'))
  }

  lemma GreetingLine(c: Conn, greeting: string, all: seq<ClientFile>, l: string, u: string, o: Outside)
    requires Stream(greeting, all) && Position(c, greeting, all, l + u) && c.phase == Greeting
    ensures MovesOn(c, greeting, all, l, u, o)
  {
    FirstLine(l, u, greeting, Frames(all));
    assert all[0..] == all;
  }

  lemma EndLine(c: Conn, greeting: string, all: seq<ClientFile>, l: string, u: string, o: Outside)
    requires Stream(greeting, all) && Position(c, greeting, all, l + u) && c.phase == Ending
    ensures MovesOn(c, greeting, all, l, u, o)
  {
    assert all[|c.files|..][1..] == all[|c.files| + 1..];
    FirstLine(l, u, "END", Frames(all[|c.files| + 1..]));
  }

  lemma HeaderComesNext(all: seq<ClientFile>, k: nat)
    requires k < |all| && Sendable(all[k])
    ensures Plain(HeaderText(HeadOf(all[k]))) && |HeaderText(HeadOf(all[k]))| + 1 < CLIENT_BUFFER
    ensures Frames(all[k..]) == HeaderText(HeadOf(all[k])) + ("\n" + (Payload(all[k]) + FromEnd(all[k..])))
  {
    HeaderPlain(all[k]);
    Assoc(HeaderText(HeadOf(all[k])), "\n", Payload(all[k]) + FromEnd(all[k..]));
  }

  /** Cutting the payload off: either all of it has been read, or only a part. */
  lemma CutPayload(rest: string, u: string, p: string, tail: string)
    requires rest + u == p + tail
    ensures |rest| >= |p| ==> rest[..|p|] == p && rest[|p|..] + u == tail
  {
    if |rest| >= |p| {
      assert rest[..|p|] == (rest + u)[..|p|] == (p + tail)[..|p|];
      assert rest[|p|..] + u == (rest + u)[|p|..] == (p + tail)[|p|..];
    }
  }

  lemma OpenKeeps(c: Conn, greeting: string, all: seq<ClientFile>, rest: string, u: string)
    requires c.phase == Begin && |c.files| < |all| && c.files == Rebuilt(all[..|c.files|])
    requires Payload(all[|c.files|]) != ""
    requires rest + u == Payload(all[|c.files|]) + FromEnd(all[|c.files|..])
    ensures var (d, left) := OpenFile(c, HeadOf(all[|c.files|]), rest);
      Position(d, greeting, all, left + u) && (d.phase == Receiving ==> left == "")
  {
    var k := |c.files|;
    CutPayload(rest, u, Payload(all[k]), FromEnd(all[k..]));
    assert "" + u == u;
  }

  lemma HeaderTaken(c: Conn, h: Head, line: string, rest: string, o: Outside)
    requires c.phase == Begin && ScanHeader(line) == Some(h) && h.size > 0
    ensures TakeLine(c, line, rest, o) == (OpenFile(c, h, rest).0, OpenFile(c, h, rest).1, o)
  {
  }

  lemma HeaderLine(c: Conn, greeting: string, all: seq<ClientFile>, l: string, u: string, o: Outside)
    requires Stream(greeting, all) && Position(c, greeting, all, l + u) && c.phase == Begin
    ensures MovesOn(c, greeting, all, l, u, o)
  {
    var k := |c.files|;
    if k == |all| {
      assert all[k..] == [];
      assert l == "";
    } else {
      HeaderComesNext(all, k);
      HeaderRoundTrip(HeadOf(all[k]));
      HeaderRead(c, greeting, all, l, u, o, HeaderText(HeadOf(all[k])));
    }
  }

  lemma HeaderRead(c: Conn, greeting: string, all: seq<ClientFile>, l: string, u: string, o: Outside, text: string)
    requires c.phase == Begin && |c.files| < |all| && c.files == Rebuilt(all[..|c.files|])
    requires Payload(all[|c.files|]) != ""
    requires Plain(text) && |text| + 1 < CLIENT_BUFFER && ScanHeader(text) == Some(HeadOf(all[|c.files|]))
    requires l + u == text + ("\n" + (Payload(all[|c.files|]) + FromEnd(all[|c.files|..])))
    ensures MovesOn(c, greeting, all, l, u, o)
  {
    var k := |c.files|;
    var p, e := Payload(all[k]), FromEnd(all[k..]);
    FirstLine(l, u, text, p + e);
    if |l| > |text| {
      HeaderComplete(c, greeting, all, l, u, o, text, l[|text| + 1..]);
    }
  }

  lemma HeaderComplete(
    c: Conn, greeting: string, all: seq<ClientFile>, l: string, u: string, o: Outside, text: string, rest: string)
    requires c.phase == Begin && |c.files| < |all| && c.files == Rebuilt(all[..|c.files|])
    requires Payload(all[|c.files|]) != "" && ScanHeader(text) == Some(HeadOf(all[|c.files|]))
    requires LineEnd(l) == Some(|text|) && l[..|text|] == text && l[|text| + 1..] == rest
    requires rest + u == Payload(all[|c.files|]) + FromEnd(all[|c.files|..])
    ensures MovesOn(c, greeting, all, l, u, o)
  {
    HeaderTaken(c, HeadOf(all[|c.files|]), text, rest, o);
    OpenKeeps(c, greeting, all, rest, u);
    var (d, left) := OpenFile(c, HeadOf(all[|c.files|]), rest);
    MovedOn(c, greeting, all, l, u, o, |text|, d, left, o);
  }

  lemma MovedOn(
    c: Conn, greeting: string, all: seq<ClientFile>, l: string, u: string, o: Outside, n: nat, d: Conn, left: string, o': Outside)
    requires LineEnd(l) == Some(n) && TakeLine(c, l[..n], l[n + 1..], o) == (d, left, o')
    requires Position(d, greeting, all, left + u) && (d.phase == Receiving ==> left == "")
    requires Generous(c, all, o) ==> d.phase != Closed && Generous(d, all, o')
    ensures MovesOn(c, greeting, all, l, u, o)
  {
  }

  lemma LineMovesOn(c: Conn, greeting: string, all: seq<ClientFile>, l: string, u: string, o: Outside)
    requires Stream(greeting, all) && Position(c, greeting, all, l + u) && (c.phase == Receiving ==> l == "")
    requires c.phase != Closed
    ensures MovesOn(c, greeting, all, l, u, o)
  {
    match c.phase
    case Greeting => GreetingLine(c, greeting, all, l, u, o);
    case Begin => HeaderLine(c, greeting, all, l, u, o);
    case Ending => EndLine(c, greeting, all, l, u, o);
    case Receiving => assert LineEnd(l) == None;
  }

  /** The whole parsing loop keeps the position in the stream. */
  lemma {:induction false} ParseKeeps(
    c: Conn, greeting: string, all: seq<ClientFile>, l: string, u: string, whole: bool, o: Outside)
    requires Stream(greeting, all) && Position(c, greeting, all, l + u) && (c.phase == Receiving ==> l == "")
    ensures Inv(Parse(c, l, whole, o), greeting, all, u)
    ensures c.phase != Closed && Generous(c, all, o) && (whole ==> |l| < SERVER_BUFFER) ==>
      Parse(c, l, whole, o).phase != Closed
    decreases |l|
  {
    if c.phase != Closed {
      LineMovesOn(c, greeting, all, l, u, o);
      if LineEnd(l).Some? {
        var n := LineEnd(l).value;
        TakeLineShrinks(c, l[..n], l[n + 1..], o);
        var (d, left, o') := TakeLine(c, l[..n], l[n + 1..], o);
        ParseKeeps(d, greeting, all, left, u, false, o');
      }
    }
  }

  lemma ReceiveKeeps(c: Conn, greeting: string, all: seq<ClientFile>, chunk: string, u: string)
    requires Stream(greeting, all) && Inv(c, greeting, all, chunk + u) && c.phase == Receiving
    requires |chunk| <= Room(c)
    ensures Inv(Read(c, chunk, Outside(true, 0)), greeting, all, u) || chunk == ""
  {
    var k := |c.files|;
    var data := c.data + chunk;
    Assoc(c.data, chunk, u);
    assert c.buffer + (chunk + u) == chunk + u && c.buffer + u == u;
    CutPayload(data, u, Payload(all[k]), FromEnd(all[k..]));
  }

  /** A read of any part of what is to come keeps the connection in step with the stream. */
  lemma ReadKeeps(c: Conn, greeting: string, all: seq<ClientFile>, chunk: string, u: string, o: Outside)
    requires Stream(greeting, all) && Inv(c, greeting, all, chunk + u)
    requires c.phase != Closed ==> |chunk| <= Room(c)
    ensures Inv(Read(c, chunk, o), greeting, all, u)
    ensures c.phase != Closed && Generous(c, all, o) && chunk != "" ==> Read(c, chunk, o).phase != Closed
  {
    if c.phase != Closed && chunk != "" {
      if c.phase == Receiving {
        ReceiveKeeps(c, greeting, all, chunk, u);
      } else {
        Assoc(c.buffer, chunk, u);
        ParseKeeps(c.(buffer := ""), greeting, all, c.buffer + chunk, u, true, o);
      }
    }
  }

  // ---------------------------------------------------------------- any fragmentation

  /** A read: the bytes the socket gave, and what the outside did meanwhile. */
  datatype Piece = Piece(chunk: string, outside: Outside)

  function ReadAll(c: Conn, ps: seq<Piece>): Conn {
    if ps == [] then c
    else var d := ReadAll(c, ps[..|ps| - 1]); Read(d, ps[|ps| - 1].chunk, ps[|ps| - 1].outside)
  }

  /** No read brings more than there was room for. */
  predicate Fits(c: Conn, ps: seq<Piece>) {
    ps == [] ||
    (Fits(c, ps[..|ps| - 1]) &&
     var d := ReadAll(c, ps[..|ps| - 1]);
     d.phase != Closed ==> |ps[|ps| - 1].chunk| <= Room(d))
  }

  /** The reads, one after the other, give the stream up to `unread`. */
  ghost predicate Cut(stream: string, ps: seq<Piece>, unread: string) {
    if ps == [] then unread == stream
    else Cut(stream, ps[..|ps| - 1], ps[|ps| - 1].chunk + unread)
  }

  /** No read came back empty and nothing failed outside. */
  predicate Smooth(ps: seq<Piece>, files: nat) {
    forall i :: 0 <= i < |ps| ==> ps[i].chunk != "" && ps[i].outside.ready && ps[i].outside.room >= files
  }

  lemma {:induction false} RunInv(greeting: string, all: seq<ClientFile>, ps: seq<Piece>, unread: string)
    requires Stream(greeting, all) && Fits(FRESH, ps)
    requires Cut(greeting + ("\n" + Frames(all)), ps, unread)
    ensures Inv(ReadAll(FRESH, ps), greeting, all, unread)
    ensures Smooth(ps, |all|) ==> ReadAll(FRESH, ps).phase != Closed
  {
    if ps == [] {
      assert "" + unread == unread;
    } else {
      var n := |ps| - 1;
      RunInv(greeting, all, ps[..n], ps[n].chunk + unread);
      ReadKeeps(ReadAll(FRESH, ps[..n]), greeting, all, ps[n].chunk, unread, ps[n].outside);
    }
  }

  lemma {:induction false} FramesShrink(all: seq<ClientFile>, i: nat, j: nat)
    requires i <= j <= |all|
    ensures |Frames(all[i..])| >= |Frames(all[j..])|
    decreases j - i
  {
    if i < j {
      FramesShrink(all, i + 1, j);
      assert all[i..][1..] == all[i + 1..];
    }
  }

  /** The bytes not yet read reach back into frame `k`, the first one not rebuilt, and no further. */
  lemma UnreadBounds(c: Conn, greeting: string, all: seq<ClientFile>, unread: string)
    requires Stream(greeting, all) && Inv(c, greeting, all, unread) && c.phase != Closed
    ensures var k := |c.files|;
      && (k > 0 ==> |unread| <= |Frames(all[k..])|)
      && (k < |all| ==> |unread| > |Frames(all[k + 1..])|)
  {
    var k := |c.files|;
    match c.phase
    case Greeting =>
      FirstLine(c.buffer, unread, greeting, Frames(all));
      if k < |all| { assert all[0..] == all; FramesShrink(all, 0, 1); }
    case Begin =>
      if k < |all| {
        HeaderComesNext(all, k);
        FirstLine(c.buffer, unread, HeaderText(HeadOf(all[k])), Payload(all[k]) + FromEnd(all[k..]));
        assert all[k..][1..] == all[k + 1..];
      }
    case Receiving =>
      assert all[k..][1..] == all[k + 1..];
    case Ending =>
      assert all[k..][1..] == all[k + 1..];
      FirstLine(c.buffer, unread, "END", Frames(all[k + 1..]));
  }

  /** How many bytes of the stream follow the frame of file `i`. */
  function BytesAfter(all: seq<ClientFile>, i: nat): nat
    requires i < |all|
  {
    |Frames(all[i + 1..])|
  }

  lemma RebuiltIff(all: seq<ClientFile>, k: nat, unread: nat)
    requires k <= |all|
    requires k > 0 ==> unread <= |Frames(all[k..])|
    requires k < |all| ==> unread > |Frames(all[k + 1..])|
    ensures forall i :: 0 <= i < |all| ==> (i < k <==> unread <= BytesAfter(all, i))
  {
    forall i | 0 <= i < |all| ensures i < k <==> unread <= BytesAfter(all, i) {
      if i < k {
        FramesShrink(all, i + 1, k);
      } else {
        FramesShrink(all, k + 1, i + 1);
      }
    }
  }

  /** What is not parsed yet reaches back at most to the frame of the first file not rebuilt. */
  lemma PositionBound(c: Conn, greeting: string, all: seq<ClientFile>, r: string)
    requires Position(c, greeting, all, r) && c.phase != Closed && |c.files| > 0
    ensures |r| <= |Frames(all[|c.files|..])|
  {
  }

  /** A file is rebuilt only when its whole frame has been read, also by a parse that ends up closing the connection. */
  lemma {:induction false} ParseBound(
    c: Conn, greeting: string, all: seq<ClientFile>, l: string, u: string, whole: bool, o: Outside)
    requires Stream(greeting, all) && Position(c, greeting, all, l + u) && (c.phase == Receiving ==> l == "")
    requires c.phase != Closed
    ensures var k := |Parse(c, l, whole, o).files|; 0 < k <= |all| ==> |u| <= |Frames(all[k..])|
    decreases |l|
  {
    if |c.files| > 0 { PositionBound(c, greeting, all, l + u); }
    LineMovesOn(c, greeting, all, l, u, o);
    if LineEnd(l).Some? {
      var n := LineEnd(l).value;
      var (d, left, o') := TakeLine(c, l[..n], l[n + 1..], o);
      ParseOn(c, l, whole, o, n, d, left, o');
      if d.phase != Closed {
        ParseBound(d, greeting, all, left, u, false, o');
      }
    }
  }

  /** A line is taken and the loop goes on; a line that closes the connection completes no file. */
  lemma ParseOn(c: Conn, l: string, whole: bool, o: Outside, n: nat, d: Conn, left: string, o': Outside)
    requires c.phase != Closed && LineEnd(l) == Some(n) && TakeLine(c, l[..n], l[n + 1..], o) == (d, left, o')
    ensures |left| < |l| && Parse(c, l, whole, o) == Parse(d, left, false, o')
    ensures d.phase == Closed ==> Parse(d, left, false, o').files == c.files
  {
    TakeLineShrinks(c, l[..n], l[n + 1..], o);
  }

  lemma ReadBound(c: Conn, greeting: string, all: seq<ClientFile>, chunk: string, u: string, o: Outside)
    requires Stream(greeting, all) && Inv(c, greeting, all, chunk + u) && (c.phase != Closed ==> |chunk| <= Room(c))
    requires 0 < |c.files| <= |all| ==> |chunk + u| <= |Frames(all[|c.files|..])|
    ensures var k := |Read(c, chunk, o).files|; 0 < k <= |all| ==> |u| <= |Frames(all[k..])|
  {
    if c.phase != Closed && chunk != "" && c.phase != Receiving {
      Assoc(c.buffer, chunk, u);
      ParseBound(c.(buffer := ""), greeting, all, c.buffer + chunk, u, true, o);
    }
  }

  lemma {:induction false} RunBound(greeting: string, all: seq<ClientFile>, ps: seq<Piece>, unread: string)
    requires Stream(greeting, all) && Fits(FRESH, ps)
    requires Cut(greeting + ("\n" + Frames(all)), ps, unread)
    ensures var k := |ReadAll(FRESH, ps).files|; 0 < k <= |all| ==> |unread| <= |Frames(all[k..])|
  {
    if ps != [] {
      var n := |ps| - 1;
      RunBound(greeting, all, ps[..n], ps[n].chunk + unread);
      RunInv(greeting, all, ps[..n], ps[n].chunk + unread);
      ReadBound(ReadAll(FRESH, ps[..n]), greeting, all, ps[n].chunk, unread, ps[n].outside);
    }
  }

  lemma AllRead(all: seq<ClientFile>, k: nat, unread: nat, i: nat)
    requires i < k <= |all| && unread <= |Frames(all[k..])|
    ensures unread <= BytesAfter(all, i)
  {
    FramesShrink(all, i + 1, k);
  }

  /** While the connection is open a file is rebuilt exactly when the last byte of its frame has been read. */
  lemma OpenRebuilds(c: Conn, greeting: string, all: seq<ClientFile>, unread: string)
    requires Stream(greeting, all) && Inv(c, greeting, all, unread) && c.phase != Closed
    ensures forall i :: 0 <= i < |all| ==> (i < |c.files| <==> |unread| <= BytesAfter(all, i))
  {
    UnreadBounds(c, greeting, all, unread);
    RebuiltIff(all, |c.files|, |unread|);
  }

  lemma RebuiltWasRead(greeting: string, all: seq<ClientFile>, ps: seq<Piece>, unread: string)
    requires Stream(greeting, all) && Fits(FRESH, ps) && Cut(greeting + ("\n" + Frames(all)), ps, unread)
    requires |ReadAll(FRESH, ps).files| <= |all|
    ensures forall i :: 0 <= i < |ReadAll(FRESH, ps).files| ==> |unread| <= BytesAfter(all, i)
  {
    RunBound(greeting, all, ps, unread);
    var k := |ReadAll(FRESH, ps).files|;
    forall i | 0 <= i < k ensures |unread| <= BytesAfter(all, i) { AllRead(all, k, |unread|, i); }
  }

  /**
    However the reads cut the stream: the files rebuilt are the first ones sent, unchanged and in
    order, each with the last byte of its frame read; and while the connection is open every such
    file is rebuilt. The connection stays open unless a read fails or the outside does.
   */
  lemma AnyFragmentation(greeting: string, all: seq<ClientFile>, ps: seq<Piece>, unread: string)
    requires Stream(greeting, all) && Fits(FRESH, ps)
    requires Cut(greeting + ("\n" + Frames(all)), ps, unread)
    ensures var c := ReadAll(FRESH, ps);
      && |c.files| <= |all| && c.files == Rebuilt(all[..|c.files|])
      && (forall i :: 0 <= i < |c.files| ==> |unread| <= BytesAfter(all, i))
      && (c.phase != Closed ==>
            forall i :: 0 <= i < |all| ==> (i < |c.files| <==> |unread| <= BytesAfter(all, i)))
      && (Smooth(ps, |all|) ==> c.phase != Closed)
  {
    var c := ReadAll(FRESH, ps);
    RunInv(greeting, all, ps, unread);
    RebuiltWasRead(greeting, all, ps, unread);
    if c.phase != Closed {
      OpenRebuilds(c, greeting, all, unread);
    }
  }
}
