/** Two line buffers, one in C and one in C++: both cut a stream into the same lines, however it is read. */
module LineBuffers {
  import opened Options
  import opened Messages

  // ---------------------------------------------------------------- lines of a stream

  ghost predicate OneLiners(ls: seq<string>) {
    forall i :: 0 <= i < |ls| ==> OneLine(ls[i])
  }

  /** Every line followed by a line end. */
  function Joined(ls: seq<string>): string {
    if ls == [] then "" else Joined(ls[..|ls| - 1]) + (ls[|ls| - 1] + "\n")
  }

  /** A stream is its complete lines, then what is pending. */
  ghost predicate Cut(stream: string, ls: seq<string>, pending: string) {
    OneLiners(ls) && OneLine(pending) && stream == Joined(ls) + pending
  }

  /** Text without line ends cannot reach back over one. */
  lemma NotLonger(a: string, p: string, b: string, q: string)
    requires a + p == b + q && OneLine(p) && (b == "" || b[|b| - 1] == '\n')
    ensures |b| <= |a|
  {
    CharOf(a, p, |b| - 1);
    CharOf(b, q, |b| - 1);
  }

  lemma CharOf(a: string, p: string, k: int)
    ensures 0 <= k < |a| ==> (a + p)[k] == a[k]
    ensures |a| <= k < |a| + |p| ==> (a + p)[k] == p[k - |a|]
  {
  }

  lemma PendingLength(a: string, p: string, b: string, q: string)
    requires a + p == b + q && OneLine(p) && OneLine(q)
    requires (a == "" || a[|a| - 1] == '\n') && (b == "" || b[|b| - 1] == '\n')
    ensures a == b && p == q
  {
    NotLonger(a, p, b, q);
    NotLonger(b, q, a, p);
    assert a == (a + p)[..|a|] && b == (b + q)[..|b|];
    assert p == (a + p)[|a|..] && q == (b + q)[|b|..];
  }

  lemma JoinedEnds(ls: seq<string>)
    ensures Joined(ls) == "" || Joined(ls)[|Joined(ls)| - 1] == '\n'
    ensures Joined(ls) == "" <==> ls == []
  {
  }

  /** There is only one way to cut a stream. */
  lemma {:induction false} CutUnique(stream: string, ls: seq<string>, p: string, ms: seq<string>, q: string)
    requires Cut(stream, ls, p) && Cut(stream, ms, q)
    ensures ls == ms && p == q
    decreases |ls|
  {
    JoinedEnds(ls);
    JoinedEnds(ms);
    PendingLength(Joined(ls), p, Joined(ms), q);
    if ls != [] {
      var i, j := |ls| - 1, |ms| - 1;
      DropLineEnd(Joined(ls[..i]), ls[i], Joined(ms[..j]), ms[j]);
      CutUnique(Joined(ls[..i]) + ls[i], ls[..i], ls[i], ms[..j], ms[j]);
      assert ls == ls[..i] + [ls[i]] && ms == ms[..j] + [ms[j]];
    }
  }

  lemma DropLineEnd(a: string, x: string, b: string, y: string)
    requires a + (x + "\n") == b + (y + "\n")
    ensures a + x == b + y
  {
    var s, t := a + (x + "\n"), b + (y + "\n");
    assert a + x == s[..|s| - 1] && b + y == t[..|t| - 1];
  }

  // ---------------------------------------------------------------- the C++ buffer

  class LineBuffer {
    var pendingLine: string
    var completeLines: seq<string>
    ghost var returned: seq<string>
    ghost var stream: string

    ghost predicate Valid()
      reads this
    {
      Cut(stream, returned + completeLines, pendingLine)
    }

    constructor ()
      ensures Valid() && stream == "" && returned == []
    {
      pendingLine, completeLines, returned, stream := "", [], [], "";
    }

    /** What the loop over a chunk does with one more piece of it. */
    method Keep(x: string)
      requires Valid() && OneLine(x)
      modifies this`pendingLine, this`stream
      ensures Valid() && stream == old(stream) + x
    {
      pendingLine, stream := pendingLine + x, stream + x;
    }

    method EndLine()
      requires Valid()
      modifies this`pendingLine, this`completeLines, this`stream
      ensures Valid() && stream == old(stream) + "\n"
    {
      assert (returned + completeLines) + [pendingLine] == returned + (completeLines + [pendingLine]);
      completeLines, pendingLine, stream := completeLines + [pendingLine], "", stream + "\n";
    }

    /** A chunk as it was read. */
    method Append(chunk: string)
      requires Valid() && CString(chunk)
      modifies this`pendingLine, this`completeLines, this`stream
      ensures Valid() && stream == old(stream) + chunk
    {
      var rest := chunk;
      ghost var done := "";
      while rest != ""
        invariant Valid() && done + rest == chunk && stream == old(stream) + done
        decreases |rest|
      {
        var n := LineBreak(rest);
        FirstBreak(rest);
        if n.None? {
          Keep(rest);
          return;
        }
        Keep(rest[..n.value]);
        EndLine();
        OneLineDone(done, rest, n.value);
        done := done + (rest[..n.value] + "\n");
        rest := rest[n.value + 1..];
      }
    }

    /** The next line, unless no complete line has arrived. */
    method GetNextLine() returns (line: Option<string>)
      requires Valid()
      modifies this`completeLines, this`returned
      ensures Valid()
      ensures returned == old(returned) + match line case None => [] case Some(l) => [l]
      ensures line.None? ==> Cut(stream, returned, pendingLine)
    {
      if completeLines == [] {
        assert returned + completeLines == returned;
        return None;
      }
      line := Some(completeLines[0]);
      assert (returned + [completeLines[0]]) + completeLines[1..] == returned + completeLines;
      returned, completeLines := returned + [completeLines[0]], completeLines[1..];
    }
  }

  lemma OneLineDone(done: string, rest: string, n: nat)
    requires n < |rest| && rest[n] == '\n'
    ensures done + rest == (done + (rest[..n] + "\n")) + rest[n + 1..]
    ensures forall x: string :: (x + done) + rest[..n] + "\n" == x + (done + (rest[..n] + "\n"))
  {
    assert rest == (rest[..n] + "\n") + rest[n + 1..];
  }

  lemma {:induction false} FirstBreak(s: string)
    ensures match LineBreak(s) case None => OneLine(s) case Some(n) => OneLine(s[..n])
  {
    if s != "" && s[0] != '\n' {
      FirstBreak(s[1..]);
      match LineBreak(s[1..])
      case None =>
      case Some(n) => assert s[..n + 1] == [s[0]] + s[1..][..n];
    }
  }

  // ---------------------------------------------------------------- the C buffer

  const CHUNK: nat := 100
  const MAX_SIZE: nat := 200000

  class CharBuffer {
    var content: array<char>
    var used: nat
    ghost var returned: seq<string>
    ghost var stream: string

    /** Room for a NUL behind the text, which is all that was read and not returned. */
    ghost predicate Valid()
      reads this, content
    {
      && content.Length <= MAX_SIZE
      && (if content.Length == 0 then used == 0 else used < content.Length)
      && (used > 0 ==> content[used] == '\0')
      && CString(content[..used])
      && OneLiners(returned) && stream == Joined(returned) + content[..used]
    }

    constructor ()
      ensures Valid() && stream == "" && returned == [] && fresh(content)
    {
      content, used, returned, stream := new char[0], 0, [], "";
    }

    /** `lineBuffer_allocate`: refused exactly when the buffer would get too large. */
    method Allocate(size: nat) returns (ok: bool)
      requires Valid() && size > 0
      modifies this`content
      ensures Valid() && ok == (old(content.Length) + size <= MAX_SIZE)
      ensures ok ==> content.Length == old(content.Length) + size && content[..used] == old(content[..used]) && fresh(content)
      ensures !ok ==> content == old(content)
    {
      if size + content.Length > MAX_SIZE { return false; }
      var bigger := new char[size + content.Length](_ => '\0');
      for i := 0 to content.Length
        modifies bigger
        invariant forall k :: 0 <= k < i ==> bigger[k] == content[k]
      {
        bigger[i] := content[i];
      }
      assert bigger[..used] == content[..used];
      content := bigger;
      ok := true;
    }

    /** One turn of the reading loop: as much of the input as was read, at most what fits. */
    method Read(input: string, limit: nat) returns (n: nat)
      requires Valid() && CString(input)
      modifies this, content
      ensures Valid() && n <= |input| && n <= limit && returned == old(returned)
      ensures stream == old(stream) + input[..n]
      ensures n == 0 ==> input == "" || limit == 0 || old(content.Length) + CHUNK > MAX_SIZE
      ensures n == |input| || n == limit || used + 1 == content.Length || (n == 0 && old(content.Length) + CHUNK > MAX_SIZE)
    {
      if content.Length - used < CHUNK {
        var ok := Allocate(CHUNK);
        if !ok { return 0; }
      }
      n := content.Length - used - 1;
      if |input| < n { n := |input|; }
      if limit < n { n := limit; }
      Copy(input[..n]);
    }

    /** Copy characters behind the text. */
    method CopyChars(x: string)
      requires Valid() && used + |x| < content.Length
      modifies content
      ensures content[..used + |x|] == old(content[..used]) + x
    {
      ghost var text := content[..used];
      for i := 0 to |x|
        invariant content[..used + i] == text + x[..i]
      {
        content[used + i] := x[i];
      }
      assert x[..|x|] == x;
    }

    /** Copy characters behind the text, and a NUL behind them. */
    method Copy(x: string)
      requires Valid() && CString(x) && used + |x| < content.Length
      modifies this`used, this`stream, content
      ensures Valid() && stream == old(stream) + x && used == old(used) + |x|
    {
      ghost var text, before := content[..used], Joined(returned);
      CopyChars(x);
      ghost var longer := content[..used + |x|];
      content[used + |x|] := '\0';
      used := used + |x|;
      assert content[..used] == longer;
      LongerText(before, text, x);
      stream := stream + x;
    }

    /** Where the first line ends, or how long the text is. */
    method FindEnd() returns (n: nat)
      requires Valid()
      ensures n <= used && OneLine(content[..n]) && (n < used ==> content[n] == '\n')
    {
      n := 0;
      while n < used && content[n] != '\n'
        invariant 0 <= n <= used && OneLine(content[..n])
      {
        assert content[..n + 1] == content[..n] + [content[n]];
        n := n + 1;
      }
    }

    /** Split the buffer behind the first line. */
    method Split(n: nat) returns (first: string)
      requires Valid() && n < used && content[n] == '\n' && OneLine(content[..n])
      modifies this
      ensures Valid() && stream == old(stream) && returned == old(returned) + [first]
    {
      ghost var text, ls := content[..used], returned;
      first := content[..n];
      assert first == text[..n];
      var rest := CopyFrom(content, n + 1, used);
      assert text[n + 1..] == content[n + 1..used];
      content, used, returned := rest, used - (n + 1), returned + [first];
    }

    /** `lineBuffer_getLine`: the first line of the text; none exactly when it has no line end. */
    method GetLine() returns (line: Option<string>)
      requires Valid()
      modifies this
      ensures Valid() && stream == old(stream)
      ensures returned == old(returned) + match line case None => [] case Some(l) => [l]
      ensures line.None? <==> OneLine(old(content[..used]))
      ensures line.None? ==> Cut(stream, returned, content[..used])
    {
      var n := FindEnd();
      if n == used { return None; }
      assert content[..used][n] == '\n';
      var first := Split(n);
      line := Some(first);
    }
  }

  lemma LongerText(before: string, text: string, x: string)
    ensures (before + text) + x == before + (text + x)
    ensures CString(text) && CString(x) ==> CString(text + x)
  {
  }

  /** What is behind the first line, in a buffer of its own; none if nothing is. */
  method CopyFrom(content: array<char>, from: nat, used: nat) returns (rest: array<char>)
    requires 0 < from <= used < content.Length
    ensures fresh(rest) && rest.Length == if from == used then 0 else content.Length - from
    ensures rest[..used - from] == content[from..used] && (from < used ==> rest[used - from] == content[used])
  {
    if from == used {
      rest := new char[0];
      return;
    }
    var size := content.Length - from;
    rest := new char[size](_ => '\0');
    for i := 0 to size
      modifies rest
      invariant forall k :: 0 <= k < i ==> rest[k] == content[from + k]
    {
      rest[i] := content[from + i];
    }
  }

  /** Given the same stream, once neither has another line to give, both have given the same lines and keep the same text. */
  lemma BothCutAlike(stream: string, cppLines: seq<string>, cppPending: string, cLines: seq<string>, cPending: string)
    requires Cut(stream, cppLines, cppPending) && Cut(stream, cLines, cPending)
    ensures cppLines == cLines && cppPending == cPending
  {
    CutUnique(stream, cppLines, cppPending, cLines, cPending);
  }
}
