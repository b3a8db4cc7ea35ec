/**
  The sending half of the client's connected state: a small buffer refilled with a header, then
  the blobs of a file, then its END, and flushed as far as the socket takes it.
 */
module Sender {
  import opened Options
  import opened Wire

  /** `snprintf` into the client's buffer: what does not fit is cut. */
  function Clip(s: string): string {
    if |s| < CLIENT_BUFFER then s else s[..CLIENT_BUFFER - 1]
  }

  /** The pieces a file is sent in. */
  function Pieces(f: ClientFile): seq<string> { [Clip(Header(f))] + f.blobs + ["END\n"] }

  function AllPieces(fs: seq<ClientFile>): seq<string> {
    if fs == [] then [] else AllPieces(fs[..|fs| - 1]) + Pieces(fs[|fs| - 1])
  }

  lemma AllPiecesSnoc(fs: seq<ClientFile>, f: ClientFile)
    ensures Join(AllPieces(fs + [f])) == Join(AllPieces(fs)) + Join(Pieces(f))
  {
    assert (fs + [f])[..|fs|] == fs;
    JoinConcat(AllPieces(fs), Pieces(f));
  }

  lemma FirstPiece(f: ClientFile)
    ensures Pieces(f) == [Clip(Header(f))] + (f.blobs[0..] + ["END\n"])
  {
  }

  lemma NextBlob(blobs: seq<string>, i: nat)
    requires i < |blobs|
    ensures blobs[i..] + ["END\n"] == [blobs[i]] + (blobs[i + 1..] + ["END\n"])
  {
    assert blobs[i..] == [blobs[i]] + blobs[i + 1..];
  }

  lemma JoinPieces(f: ClientFile)
    ensures Join(Pieces(f)) == Clip(Header(f)) + (Payload(f) + "END\n")
  {
    var h, e := Clip(Header(f)), "END\n";
    JoinConcat(f.blobs, [e]);
    assert Pieces(f) == [h] + (f.blobs + [e]);
    assert [e] + [] == [e] && Join([e]) == e;
  }

  /** The bytes of a file on the wire are the format's frame exactly when the header fits the buffer. */
  lemma FrameSentIff(f: ClientFile)
    ensures Join(Pieces(f)) == Frame(f) <==> |Header(f)| < CLIENT_BUFFER
  {
    JoinPieces(f);
    if |Header(f)| >= CLIENT_BUFFER {
      assert |Join(Pieces(f))| < |Frame(f)|;
    }
  }

  /** A source name as long as the client's buffer: the line end of the header is cut off. */
  lemma LongSourceCutsHeader(f: ClientFile)
    requires f == ClientFile(seq(CLIENT_BUFFER, _ => 'a'), 1, 1, ["x"])
    ensures Join(Pieces(f)) != Frame(f)
  {
    SpacedAtLeast(["File", f.source] + Shown([1, 1, |Payload(f)|]), 1);
    FrameSentIff(f);
  }

  lemma {:induction false} SpacedAtLeast(words: seq<string>, i: nat)
    requires i < |words|
    ensures |Spaced(words)| >= |words[i]|
  {
    if i > 0 { SpacedAtLeast(words[1..], i - 1); }
  }

  lemma {:induction false} SentIsFrames(fs: seq<ClientFile>)
    requires forall i :: 0 <= i < |fs| ==> |Header(fs[i])| < CLIENT_BUFFER
    ensures Join(AllPieces(fs)) == Frames(fs)
  {
    if fs != [] {
      var n := |fs| - 1;
      SentIsFrames(fs[..n]);
      FrameSentIff(fs[n]);
      FramesSnoc(fs[..n], fs[n]);
      AllPiecesSnoc(fs[..n], fs[n]);
      assert fs[..n] + [fs[n]] == fs;
    }
  }

  lemma JoinTwo(a: string, b: string, ps: seq<string>)
    ensures Join([a, b] + ps) == a + (b + Join(ps))
  {
    assert [a] + ([b] + ps) == [a, b] + ps;
  }

  /** Sent, buffered and owed bytes together are the bytes of the files picked. */
  ghost predicate Balanced(wire: string, buffered: string, owed: seq<string>, picked: seq<ClientFile>) {
    Join([wire, buffered] + owed) == Join(AllPieces(picked))
  }

  lemma LoadKeeps(wire: string, piece: string, rest: seq<string>, picked: seq<ClientFile>)
    requires Balanced(wire, "", [piece] + rest, picked)
    ensures Balanced(wire, piece, rest, picked)
  {
    JoinTwo(wire, "", [piece] + rest);
    JoinTwo(wire, piece, rest);
    assert "" + Join([piece] + rest) == piece + Join(rest);
  }

  lemma PickKeeps(wire: string, f: ClientFile, picked: seq<ClientFile>)
    requires Balanced(wire, "", [], picked)
    ensures Balanced(wire, "", Pieces(f), picked + [f])
  {
    JoinTwo(wire, "", []);
    JoinTwo(wire, "", Pieces(f));
    AllPiecesSnoc(picked, f);
    assert "" + Join(Pieces(f)) == Join(Pieces(f)) && wire + ("" + "") == wire;
  }

  lemma SendKeeps(wire: string, a: string, b: string, owed: seq<string>, picked: seq<ClientFile>)
    requires Balanced(wire, a + b, owed, picked)
    ensures Balanced(wire + a, b, owed, picked)
  {
    JoinTwo(wire, a + b, owed);
    JoinTwo(wire + a, b, owed);
    assert wire + ((a + b) + Join(owed)) == (wire + a) + (b + Join(owed));
  }

  /** The send buffer and the transfer flags of the connected loop. */
  datatype State = State(
    value: string, start: nat, stop: nat,
    current: Option<ClientFile>, blob: nat, transferInit: bool, transferDeinit: bool)

  const IDLE := State("", 0, 0, None, 0, false, false)

  function Load(s: State, piece: string): State { s.(value := piece, start := 0, stop := |piece|) }

  /** Between two buffers with no file in transfer: pick the next file, or end the last one. */
  function Advance(s: State, next: Option<ClientFile>): State {
    if s.current.Some? || s.start != s.stop then s
    else if s.transferDeinit then Load(s, "END\n").(transferDeinit := false)
    else if next.Some? then s.(current := next, transferInit := false, transferDeinit := true)
    else s
  }

  /** The buffer is empty and a file is in transfer: put its header or its next blob there. */
  function Refill(s: State): State {
    if s.current.None? || s.start != s.stop then s
    else if !s.transferInit then Load(s, Clip(Header(s.current.value))).(blob := 0, transferInit := true)
    else if s.blob < |s.current.value.blobs| then Load(s, s.current.value.blobs[s.blob]).(blob := s.blob + 1)
    else s.(current := None)
  }

  /** `TR_buffer_send`: how much a socket with the given room takes. */
  function Taken(s: State, room: nat): nat
    requires s.start <= s.stop
  {
    if s.stop - s.start < room then s.stop - s.start else room
  }

  ghost predicate Shape(s: State) {
    && s.start <= s.stop <= |s.value|
    && (s.current.Some? ==> s.transferDeinit && (s.transferInit ==> s.blob <= |s.current.value.blobs|))
  }

  /** The pieces of the file in transfer that have not reached the buffer yet. */
  ghost function Owed(s: State): seq<string>
    requires Shape(s)
  {
    if s.current.None? then (if s.transferDeinit then ["END\n"] else [])
    else if !s.transferInit then Pieces(s.current.value)
    else s.current.value.blobs[s.blob..] + ["END\n"]
  }

  /** `wire` is what the socket has taken, `picked` the files taken from the queue. */
  ghost predicate Inv(s: State, wire: string, picked: seq<ClientFile>) {
    Shape(s) && Balanced(wire, s.value[s.start..s.stop], Owed(s), picked)
  }

  function Picked(s: State, next: Option<ClientFile>): seq<ClientFile> {
    if s.current.None? && s.start == s.stop && !s.transferDeinit && next.Some? then [next.value] else []
  }

  lemma LoadedBuffer(s: State, piece: string)
    ensures Load(s, piece).value[Load(s, piece).start..Load(s, piece).stop] == piece
  {
  }

  lemma AdvanceKeeps(s: State, wire: string, picked: seq<ClientFile>, next: Option<ClientFile>)
    requires Inv(s, wire, picked)
    ensures Inv(Advance(s, next), wire, picked + Picked(s, next))
  {
    assert picked + [] == picked;
    if s.current.None? && s.start == s.stop {
      assert s.value[s.start..s.stop] == "";
      if s.transferDeinit {
        assert ["END\n"] + [] == ["END\n"];
        LoadKeeps(wire, "END\n", [], picked);
        LoadedBuffer(s, "END\n");
      } else if next.Some? {
        PickKeeps(wire, next.value, picked);
      }
    }
  }

  lemma RefillHeader(s: State, wire: string, picked: seq<ClientFile>)
    requires Inv(s, wire, picked) && s.current.Some? && s.start == s.stop && !s.transferInit
    ensures Inv(Refill(s), wire, picked)
  {
    var f := s.current.value;
    assert s.value[s.start..s.stop] == "";
    FirstPiece(f);
    LoadKeeps(wire, Clip(Header(f)), f.blobs[0..] + ["END\n"], picked);
    LoadedBuffer(s, Clip(Header(f)));
  }

  lemma RefillBlob(s: State, wire: string, picked: seq<ClientFile>)
    requires Inv(s, wire, picked) && s.current.Some? && s.start == s.stop && s.transferInit && s.blob < |s.current.value.blobs|
    ensures Inv(Refill(s), wire, picked)
  {
    var f := s.current.value;
    assert s.value[s.start..s.stop] == "";
    NextBlob(f.blobs, s.blob);
    LoadKeeps(wire, f.blobs[s.blob], f.blobs[s.blob + 1..] + ["END\n"], picked);
    LoadedBuffer(s, f.blobs[s.blob]);
  }

  lemma RefillKeeps(s: State, wire: string, picked: seq<ClientFile>)
    requires Inv(s, wire, picked)
    ensures Inv(Refill(s), wire, picked)
  {
    if s.current.Some? && s.start == s.stop {
      if !s.transferInit {
        RefillHeader(s, wire, picked);
      } else if s.blob < |s.current.value.blobs| {
        RefillBlob(s, wire, picked);
      } else {
        assert s.current.value.blobs[s.blob..] + ["END\n"] == ["END\n"];
      }
    }
  }

  lemma FlushKeeps(s: State, wire: string, picked: seq<ClientFile>, n: nat)
    requires Inv(s, wire, picked) && s.start + n <= s.stop
    ensures Inv(s.(start := s.start + n), wire + s.value[s.start..s.start + n], picked)
  {
    var a, b := s.value[s.start..s.start + n], s.value[s.start + n..s.stop];
    assert s.value[s.start..s.stop] == a + b;
    SendKeeps(wire, a, b, Owed(s), picked);
  }

  /** One turn of the connected loop: a file that may be waiting, and the room the socket has. */
  datatype Turn = Turn(next: Option<ClientFile>, room: nat)

  /** The buffer before the flush of a turn. */
  function Loaded(s: State, next: Option<ClientFile>): State { Refill(Advance(s, next)) }

  /** The state after a turn. */
  function After(s: State, t: Turn): State
    requires Shape(s)
  {
    var b := Loaded(s, t.next);
    LoadedShape(s, t.next);
    b.(start := b.start + Taken(b, t.room))
  }

  lemma LoadedShape(s: State, next: Option<ClientFile>)
    requires Shape(s)
    ensures Shape(Loaded(s, next))
  {
  }

  function AfterAll(s: State, turns: seq<Turn>): (r: State)
    requires Shape(s)
    ensures Shape(r)
  {
    if turns == [] then s else After(AfterAll(s, turns[..|turns| - 1]), turns[|turns| - 1])
  }

  // ---------------------------------------------------------------- progress

  /** Nothing is in transfer, buffered or left to end. */
  predicate Idle(s: State) { s.current.None? && s.start == s.stop && !s.transferDeinit }

  /** Turns that pieces take at most: one per byte, and one to load each. */
  function Effort(ps: seq<string>): nat {
    if ps == [] then 0 else |ps[0]| + 1 + Effort(ps[1..])
  }

  /** How many turns are left at most, as long as the socket takes something in each. */
  ghost function Work(s: State): nat
    requires Shape(s)
  {
    (s.stop - s.start) + Effort(Owed(s)) + (if s.current.Some? then 1 else 0)
  }

  lemma EffortOf(p: string, ps: seq<string>)
    ensures Effort([p] + ps) == |p| + 1 + Effort(ps)
  {
    assert ([p] + ps)[1..] == ps;
  }

  lemma NoWorkIsIdle(s: State)
    requires Shape(s)
    ensures Work(s) == 0 ==> Idle(s)
    ensures Idle(s) ==> Work(s) == 0
  {
    if s.current.None? && s.transferDeinit {
      EffortOf("END\n", []);
      assert ["END\n"] + [] == ["END\n"];
    }
  }

  /** An idle loop picks the file that is offered; no other loop picks any. */
  lemma PicksIff(s: State, next: Option<ClientFile>)
    requires Shape(s)
    ensures Picked(s, next) == if Idle(s) && next.Some? then [next.value] else []
    ensures Idle(s) && next.Some? ==> Advance(s, next).current == next
    ensures Idle(s) && next.None? ==> Advance(s, next) == s
  {
  }

  lemma AdvanceWork(s: State, next: Option<ClientFile>)
    requires Shape(s) && !Idle(s)
    ensures Shape(Advance(s, next))
    ensures if s.current.None? && s.start == s.stop then Work(Advance(s, next)) < Work(s) else Advance(s, next) == s
  {
    if s.current.None? && s.start == s.stop {
      EffortOf("END\n", []);
      assert ["END\n"] + [] == ["END\n"];
    }
  }

  /** Refilling an empty buffer takes work off; a buffer that is not empty is left alone. */
  lemma RefillWork(s: State)
    requires Shape(s)
    ensures Shape(Refill(s))
    ensures if s.current.Some? && s.start == s.stop then Work(Refill(s)) < Work(s) else Refill(s) == s
  {
    if s.current.Some? && s.start == s.stop {
      var f := s.current.value;
      if !s.transferInit {
        FirstPiece(f);
        EffortOf(Clip(Header(f)), f.blobs[0..] + ["END\n"]);
      } else if s.blob < |f.blobs| {
        NextBlob(f.blobs, s.blob);
        EffortOf(f.blobs[s.blob], f.blobs[s.blob + 1..] + ["END\n"]);
      } else {
        assert f.blobs[s.blob..] + ["END\n"] == ["END\n"];
      }
    }
  }

  lemma FlushWork(s: State, room: nat)
    requires Shape(s) && room > 0
    ensures var t := s.(start := s.start + Taken(s, room));
      Shape(t) && (if s.start < s.stop then Work(t) < Work(s) else t == s)
  {
  }

  /** Every turn in which the socket takes something brings a busy loop nearer to being idle, whatever is offered. */
  lemma TurnFalls(s: State, t: Turn)
    requires Shape(s) && !Idle(s) && t.room > 0
    ensures Picked(s, t.next) == [] && Shape(After(s, t)) && Work(After(s, t)) < Work(s)
  {
    var a := Advance(s, t.next);
    AdvanceWork(s, t.next);
    RefillWork(a);
    FlushWork(Refill(a), t.room);
  }

  /** An idle loop that is offered nothing stays idle. */
  lemma IdleStays(s: State, t: Turn)
    requires Shape(s) && Idle(s) && t.next.None?
    ensures Picked(s, t.next) == [] && After(s, t) == s
  {
  }

  /** Turns in which nothing is offered and the socket takes something. */
  predicate Quiet(turns: seq<Turn>) {
    forall i :: 0 <= i < |turns| ==> turns[i].next.None? && turns[i].room > 0
  }

  lemma {:induction false} QuietDrains(s: State, quiet: seq<Turn>)
    requires Shape(s) && Quiet(quiet)
    ensures Work(AfterAll(s, quiet)) + |quiet| <= Work(s) || Idle(AfterAll(s, quiet))
  {
    if quiet != [] {
      var n := |quiet| - 1;
      QuietDrains(s, quiet[..n]);
      var r := AfterAll(s, quiet[..n]);
      if Idle(r) { IdleStays(r, quiet[n]); } else { TurnFalls(r, quiet[n]); }
    }
  }

  lemma SplitLast(a: seq<Turn>, b: seq<Turn>)
    requires b != []
    ensures (a + b)[..|a + b| - 1] == a + b[..|b| - 1] && (a + b)[|a + b| - 1] == b[|b| - 1]
  {
  }

  lemma {:induction false} AfterMore(s: State, a: seq<Turn>, b: seq<Turn>)
    requires Shape(s)
    ensures AfterAll(s, a + b) == AfterAll(AfterAll(s, a), b)
  {
    if b == [] {
      assert a + b == a;
    } else {
      var n := |b| - 1;
      AfterMore(s, a, b[..n]);
      SplitLast(a, b);
    }
  }

  /** With as many quiet turns as there is work, the loop becomes idle, whatever it was doing. */
  lemma BecomesIdle(turns: seq<Turn>, quiet: seq<Turn>)
    requires Quiet(quiet) && |quiet| > Work(AfterAll(IDLE, turns))
    ensures Idle(AfterAll(IDLE, turns + quiet))
  {
    AfterMore(IDLE, turns, quiet);
    QuietDrains(AfterAll(IDLE, turns), quiet);
  }

  lemma IdleSentAll(s: State, wire: string, picked: seq<ClientFile>)
    requires Inv(s, wire, picked) && Idle(s)
    ensures wire == Join(AllPieces(picked))
  {
    JoinTwo(wire, "", []);
    assert s.value[s.start..s.stop] == "" && wire + ("" + "") == wire;
  }

  /** The files offered to an idle loop, in order: those that are picked. */
  ghost function PickedIn(turns: seq<Turn>): seq<ClientFile> {
    if turns == [] then []
    else
      var n := |turns| - 1;
      PickedIn(turns[..n]) + (if Idle(AfterAll(IDLE, turns[..n])) && turns[n].next.Some? then [turns[n].next.value] else [])
  }

  lemma {:induction false} PickedWereOffered(turns: seq<Turn>)
    ensures |PickedIn(turns)| <= |turns|
    ensures forall f :: f in PickedIn(turns) ==> exists t :: t in turns && t.next == Some(f)
  {
    if turns != [] {
      var n := |turns| - 1;
      PickedWereOffered(turns[..n]);
      assert turns[n] in turns && forall t :: t in turns[..n] ==> t in turns;
    }
  }

  /** What the socket takes in a turn. */
  function SentIn(s: State, t: Turn): string
    requires Shape(s)
  {
    LoadedShape(s, t.next);
    var b := Loaded(s, t.next);
    b.value[b.start..b.start + Taken(b, t.room)]
  }

  lemma TurnKeeps(s: State, t: Turn, wire: string, picked: seq<ClientFile>)
    requires Inv(s, wire, picked)
    ensures Inv(After(s, t), wire + SentIn(s, t), picked + Picked(s, t.next))
  {
    var a := Advance(s, t.next);
    AdvanceKeeps(s, wire, picked, t.next);
    RefillKeeps(a, wire, picked + Picked(s, t.next));
    FlushKeeps(Refill(a), wire, picked + Picked(s, t.next), Taken(Refill(a), t.room));
  }

  /** One turn: the next file if there is none, the next piece if the buffer is empty, and as many bytes as the socket takes. */
  method TakeTurn(s: State, t: Turn, ghost wire: string, ghost picked: seq<ClientFile>)
    returns (r: State, file: Option<ClientFile>, sent: string)
    requires Inv(s, wire, picked)
    ensures r == After(s, t) && file == (if Idle(s) then t.next else None)
    ensures Inv(r, wire + sent, picked + (if file.Some? then [file.value] else []))
  {
    TurnKeeps(s, t, wire, picked);
    PicksIff(s, t.next);
    LoadedShape(s, t.next);
    file := if s.current.None? && s.start == s.stop && !s.transferDeinit then t.next else None;
    r := Refill(Advance(s, t.next));
    var n := Taken(r, t.room);
    sent := r.value[r.start..r.start + n];
    r := r.(start := r.start + n);
  }

  lemma SentSoFar(s: State, wire: string, picked: seq<ClientFile>)
    requires Inv(s, wire, picked)
    ensures wire <= Join(AllPieces(picked)) && (Idle(s) ==> wire == Join(AllPieces(picked)))
  {
    JoinTwo(wire, s.value[s.start..s.stop], Owed(s));
    if Idle(s) { IdleSentAll(s, wire, picked); }
  }

  /**
    The sending part of the connected loop, for any files offered and any partial sends: what the
    socket took is a prefix of the frames of the files picked, in order, and is all of them when the
    loop is idle again, which it becomes when the socket goes on taking bytes.
   */
  method ConnectedLoop(turns: seq<Turn>) returns (wire: string, picked: seq<ClientFile>, idle: bool)
    ensures wire <= Join(AllPieces(picked)) && (idle ==> wire == Join(AllPieces(picked)))
    ensures (forall i :: 0 <= i < |picked| ==> |Header(picked[i])| < CLIENT_BUFFER) ==>
      wire <= Frames(picked) && (idle ==> wire == Frames(picked))
    ensures |picked| <= |turns| && forall f :: f in picked ==> exists t :: t in turns && t.next == Some(f)
    ensures idle == Idle(AfterAll(IDLE, turns)) && picked == PickedIn(turns)
  {
    var s := IDLE;
    wire, picked := "", [];
    for i := 0 to |turns|
      invariant Inv(s, wire, picked) && s == AfterAll(IDLE, turns[..i]) && picked == PickedIn(turns[..i])
    {
      assert turns[..i + 1][..i] == turns[..i];
      var r, file, sent := TakeTurn(s, turns[i], wire, picked);
      picked := picked + if file.Some? then [file.value] else [];
      s, wire := r, wire + sent;
    }
    assert turns[..|turns|] == turns;
    PickedWereOffered(turns);
    SentSoFar(s, wire, picked);
    idle := s.current.None? && s.start == s.stop && !s.transferDeinit;
    if forall i :: 0 <= i < |picked| ==> |Header(picked[i])| < CLIENT_BUFFER {
      SentIsFrames(picked);
    }
  }

  /** Quiet turns pick nothing. */
  lemma {:induction false} QuietPicksNothing(turns: seq<Turn>, quiet: seq<Turn>)
    requires Quiet(quiet)
    ensures PickedIn(turns + quiet) == PickedIn(turns)
  {
    if quiet == [] {
      assert turns + quiet == turns;
    } else {
      var n := |quiet| - 1;
      QuietPicksNothing(turns, quiet[..n]);
      SplitLast(turns, quiet);
    }
  }
}
