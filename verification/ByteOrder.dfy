/**
  The two ends of a connection together: what the client's loop handed to the socket, cut into reads
  in any way, makes the server complete the files in the order of their ENDs. This is what the
  session takes for granted of a connection.
 */
module ByteOrder {
  import opened Wire
  import opened Receiver
  import opened FileIds

  lemma {:induction false} FramesConcat(a: seq<ClientFile>, b: seq<ClientFile>)
    ensures Frames(a + b) == Frames(a) + Frames(b)
  {
    if b == [] {
      assert a + b == a;
    } else {
      var n := |b| - 1;
      FramesConcat(a, b[..n]);
      FramesSnoc(a + b[..n], b[n]);
      FramesSnoc(b[..n], b[n]);
      Assoc(Frames(a), Frames(b[..n]), Frame(b[n]));
      assert a + b == (a + b[..n]) + [b[n]] && b == b[..n] + [b[n]];
    }
  }

  lemma FramesSplit(fs: seq<ClientFile>, i: nat)
    requires i <= |fs|
    ensures |Frames(fs)| == |Frames(fs[..i])| + |Frames(fs[i..])|
  {
    FramesConcat(fs[..i], fs[i..]);
    assert fs == fs[..i] + fs[i..];
  }

  /** Bytes that follow the stream do not change how its beginning was cut. */
  lemma {:induction false} CutExtends(stream: string, ps: seq<Piece>, rest: string, x: string)
    requires Cut(stream, ps, rest)
    ensures Cut(stream + x, ps, rest + x)
  {
    if ps != [] {
      var n := |ps| - 1;
      CutExtends(stream, ps[..n], ps[n].chunk + rest, x);
      Assoc(ps[n].chunk, rest, x);
    }
  }

  /** The ids of the files whose frames, END included, have been handed to the socket. */
  function Sent(picked: seq<ClientFile>, ids: seq<nat>, wire: string): (r: seq<nat>)
    requires |ids| == |picked|
    ensures r <= ids
  {
    if |Frames(picked)| <= |wire| || picked == [] then ids
    else Sent(picked[..|picked| - 1], ids[..|ids| - 1], wire)
  }

  /** Where a file's frame ends does not depend on the files behind it. */
  lemma EndsWithin(picked: seq<ClientFile>, n: nat)
    requires n < |picked|
    ensures |Frames(picked[..n + 1])| <= |Frames(picked)|
    ensures n < |picked| - 1 ==> picked[..|picked| - 1][..n + 1] == picked[..n + 1]
    ensures n == |picked| - 1 ==> picked[..n + 1] == picked
  {
    FramesSplit(picked, n + 1);
  }

  /** An id is among them if and only if the whole frame of its file was handed over. */
  lemma {:induction false} SentIff(picked: seq<ClientFile>, ids: seq<nat>, wire: string, n: nat)
    requires |ids| == |picked| && n < |picked|
    ensures n < |Sent(picked, ids, wire)| <==> |Frames(picked[..n + 1])| <= |wire|
    ensures n < |Sent(picked, ids, wire)| ==> Sent(picked, ids, wire)[n] == ids[n]
  {
    EndsWithin(picked, n);
    if |Frames(picked)| > |wire| && n < |picked| - 1 {
      SentIff(picked[..|picked| - 1], ids[..|picked| - 1], wire, n);
    }
  }

  /** What the client has not handed to the socket yet. */
  lemma Remaining(greeting: string, wire: string, all: string) returns (tail: string)
    requires wire <= all
    ensures |wire| + |tail| == |all| && (greeting + ("\n" + wire)) + tail == greeting + ("\n" + all)
  {
    tail := all[|wire|..];
    assert all == wire + tail;
  }

  /** A file completed by the server is one whose whole frame the client had sent. */
  lemma CompletedWasSent(
    greeting: string, picked: seq<ClientFile>, wire: string, ps: seq<Piece>, rest: string, n: nat)
    requires Stream(greeting, picked) && wire <= Frames(picked) && Fits(FRESH, ps)
    requires Cut(greeting + ("\n" + wire), ps, rest) && n < |ReadAll(FRESH, ps).files|
    ensures n < |picked| && ReadAll(FRESH, ps).files[n] == Received(picked[n])
    ensures |Frames(picked[..n + 1])| <= |wire|
  {
    var tail := Remaining(greeting, wire, Frames(picked));
    CutExtends(greeting + ("\n" + wire), ps, rest, tail);
    AnyFragmentation(greeting, picked, ps, rest + tail);
    assert |rest + tail| <= BytesAfter(picked, n);
    FramesSplit(picked, n + 1);
  }

  /**
    The order of completion on a connection: the `n`-th file the server completes carries the id of the
    `n`-th file whose END the client had handed to the socket, whatever the partial sends and reads.
   */
  lemma CompletionOrder(
    greeting: string, picked: seq<ClientFile>, ids: seq<nat>, wire: string, ps: seq<Piece>, rest: string, n: nat)
    requires Stream(greeting, picked) && wire <= Frames(picked) && Fits(FRESH, ps) && |ids| == |picked|
    requires forall i :: 0 <= i < |ids| ==> FileId(picked[i].maj, picked[i].min) == MessageId(ids[i])
    requires Cut(greeting + ("\n" + wire), ps, rest) && n < |ReadAll(FRESH, ps).files|
    ensures var f, sent := ReadAll(FRESH, ps).files[n], Sent(picked, ids, wire);
      n < |sent| && FileId(f.maj, f.min) == MessageId(sent[n])
  {
    CompletedWasSent(greeting, picked, wire, ps, rest, n);
    SentIff(picked, ids, wire, n);
  }
}
