/** The byte format of one connection, client to server: a greeting line, then one frame per file. */
module Wire {
  import opened Options
  import opened Decimals

  /** Size of the client's text buffer and of the server's receive buffer. */
  const CLIENT_BUFFER: nat := 2500
  const SERVER_BUFFER: nat := 5000

  /** A file as the client holds it: a list of blobs. */
  datatype ClientFile = ClientFile(source: string, min: int, maj: int, blobs: seq<string>)

  /** A file as the server rebuilds it: one block of bytes. */
  datatype ServerFile = ServerFile(source: string, min: int, maj: int, data: string)

  datatype Head = Head(source: string, min: int, maj: int, size: int)

  function Join(blobs: seq<string>): string {
    if blobs == [] then "" else blobs[0] + Join(blobs[1..])
  }

  function Payload(f: ClientFile): string { Join(f.blobs) }

  function Received(f: ClientFile): ServerFile { ServerFile(f.source, f.min, f.maj, Payload(f)) }

  /** Words separated by single spaces. */
  function Spaced(words: seq<string>): string
    requires words != []
  {
    if |words| == 1 then words[0] else words[0] + " " + Spaced(words[1..])
  }

  function Shown(vs: seq<int>): (r: seq<string>)
    ensures |r| == |vs|
    ensures forall i :: 0 <= i < |vs| ==> r[i] == Show(vs[i])
  {
    seq(|vs|, i requires 0 <= i < |vs| => Show(vs[i]))
  }

  /** `File <source> <min> <maj> <size>`, without the line end. */
  function HeaderText(h: Head): string {
    Spaced(["File", h.source] + Shown([h.min, h.maj, h.size]))
  }

  function HeadOf(f: ClientFile): Head { Head(f.source, f.min, f.maj, |Payload(f)|) }

  function Header(f: ClientFile): string { HeaderText(HeadOf(f)) + "\n" }

  function Frame(f: ClientFile): string { Header(f) + (Payload(f) + "END\n") }

  /** The frames of several files: header, payload and END of each. */
  function Frames(fs: seq<ClientFile>): string
    decreases |fs|, 1
  {
    if fs == [] then "" else Header(fs[0]) + (Payload(fs[0]) + FromEnd(fs))
  }

  /** The frames of several files without the header and the payload of the first. */
  function FromEnd(fs: seq<ClientFile>): string
    requires fs != []
    decreases |fs|, 0
  {
    "END" + ("\n" + Frames(fs[1..]))
  }

  ghost predicate Plain(s: string) {
    forall i :: 0 <= i < |s| ==> s[i] != '\n' && s[i] != '\0'
  }

  /** What the protocol asks of a file: a name that is one word, some bytes, a header that fits. */
  ghost predicate Sendable(f: ClientFile) {
    && f.source != []
    && (forall i :: 0 <= i < |f.source| ==> !IsSpace(f.source[i]) && f.source[i] != '\0')
    && Payload(f) != []
    && |Header(f)| < CLIENT_BUFFER
  }

  /** Length of the word at the start. */
  function WordRun(s: string): (n: nat)
    ensures n <= |s|
  {
    if s == [] || IsSpace(s[0]) then 0 else 1 + WordRun(s[1..])
  }

  /** `sscanf(line, "File %s %d %d %d", ...)` */
  function ScanHeader(line: string): Option<Head> {
    if |line| < 4 || line[..4] != "File" then None
    else
      var t := SkipSpaces(line[4..]);
      var n := WordRun(t);
      var numbers := ScanInts(t[n..], 3);
      if n == 0 || numbers.None? then None
      else Some(Head(t[..n], numbers.value[0], numbers.value[1], numbers.value[2]))
  }

  /** `n` numbers one after the other. */
  function ScanInts(t: string, n: nat): (r: Option<seq<int>>)
    ensures r.Some? ==> |r.value| == n
    decreases n
  {
    if n == 0 then Some([])
    else
      match ScanInt(t)
      case None => None
      case Some((v, rest)) =>
        match ScanInts(rest, n - 1)
        case None => None
        case Some(vs) => Some([v] + vs)
  }

  lemma {:induction false} WordRunOf(w: string, rest: string)
    requires forall i :: 0 <= i < |w| ==> !IsSpace(w[i])
    requires rest == [] || IsSpace(rest[0])
    ensures WordRun(w + rest) == |w|
  {
    if w == [] {
      assert w + rest == rest;
    } else {
      WordRunOf(w[1..], rest);
      assert (w + rest)[1..] == w[1..] + rest;
    }
  }

  lemma SpacedStep(w: string, words: seq<string>)
    requires words != []
    ensures Spaced([w] + words) == w + (" " + Spaced(words))
  {
    assert ([w] + words)[1..] == words;
  }

  lemma SkipOneSpace(t: string)
    requires t == [] || !IsSpace(t[0])
    ensures SkipSpaces(" " + t) == t
  {
    assert (" " + t)[1..] == t;
  }

  lemma ScanAfterSpace(n: int, rest: string)
    requires rest == [] || !IsDigit(rest[0])
    ensures ScanInt(" " + (Show(n) + rest)) == Some((n, rest))
  {
    var t := Show(n) + rest;
    ScanShown(n, rest);
    assert t[0] == Show(n)[0];
    SkipOneSpace(t);
    assert SkipSpaces(t) == t;
  }

  lemma ScanIntsStep(v: int, rest: string, vs: seq<int>)
    requires (rest == [] || !IsDigit(rest[0])) && ScanInts(rest, |vs|) == Some(vs)
    ensures ScanInts(" " + (Show(v) + rest), |vs| + 1) == Some([v] + vs)
  {
    ScanAfterSpace(v, rest);
  }

  lemma SpacedShown(v: int, vs: seq<int>)
    requires vs != []
    ensures Spaced(Shown([v] + vs)) == Show(v) + (" " + Spaced(Shown(vs)))
  {
    assert Shown([v] + vs) == [Show(v)] + Shown(vs);
    SpacedStep(Show(v), Shown(vs));
  }

  /** Numbers separated by spaces, behind a space, are scanned back. */
  ghost predicate ScansBack(vs: seq<int>) {
    vs != [] && ScanInts(" " + Spaced(Shown(vs)), |vs|) == Some(vs)
  }

  lemma ScanLast(v: int)
    ensures ScansBack([v])
  {
    ScanIntsStep(v, "", []);
    assert Show(v) + "" == Show(v) && [v] + [] == [v];
    assert Spaced(Shown([v])) == Show(v);
  }

  lemma ScanIntsCons(v: int, vs: seq<int>)
    requires ScansBack(vs)
    ensures ScansBack([v] + vs)
  {
    SpacedShown(v, vs);
    ScanIntsStep(v, " " + Spaced(Shown(vs)), vs);
  }

  lemma {:induction false} ScanIntsSpaced(vs: seq<int>)
    requires vs != []
    ensures ScansBack(vs)
  {
    if |vs| == 1 {
      ScanLast(vs[0]);
      assert vs == [vs[0]];
    } else {
      ScanIntsSpaced(vs[1..]);
      ScanIntsCons(vs[0], vs[1..]);
      assert [vs[0]] + vs[1..] == vs;
    }
  }

  lemma ScanWord(w: string, rest: string, min: int, maj: int, size: int)
    requires w != [] && forall i :: 0 <= i < |w| ==> !IsSpace(w[i])
    requires rest != [] && IsSpace(rest[0]) && ScanInts(rest, 3) == Some([min, maj, size])
    ensures ScanHeader("File" + (" " + (w + rest))) == Some(Head(w, min, maj, size))
  {
    var t := w + rest;
    var line := "File" + (" " + t);
    assert line[..4] == "File" && line[4..] == " " + t;
    assert t[0] == w[0];
    SkipOneSpace(t);
    WordRunOf(w, rest);
    assert t[..|w|] == w && t[|w|..] == rest;
  }

  /** The server reads back the header the client wrote. */
  lemma HeaderRoundTrip(h: Head)
    requires h.source != [] && forall i :: 0 <= i < |h.source| ==> !IsSpace(h.source[i])
    ensures ScanHeader(HeaderText(h)) == Some(h)
  {
    var words := Shown([h.min, h.maj, h.size]);
    SpacedStep(h.source, words);
    SpacedStep("File", [h.source] + words);
    assert ["File"] + ([h.source] + words) == ["File", h.source] + words;
    ScanIntsSpaced([h.min, h.maj, h.size]);
    ScanWord(h.source, " " + Spaced(words), h.min, h.maj, h.size);
  }

  lemma {:induction false} SpacedPlain(words: seq<string>)
    requires words != [] && forall i :: 0 <= i < |words| ==> Plain(words[i])
    ensures Plain(Spaced(words))
  {
    if |words| > 1 {
      SpacedPlain(words[1..]);
    }
  }

  lemma HeaderPlain(f: ClientFile)
    requires Sendable(f)
    ensures Plain(HeaderText(HeadOf(f)))
  {
    var h := HeadOf(f);
    ShownChars(h.min);
    ShownChars(h.maj);
    ShownChars(h.size);
    SpacedPlain(["File", h.source] + Shown([h.min, h.maj, h.size]));
  }

  lemma Assoc(a: string, b: string, c: string)
    ensures (a + b) + c == a + (b + c)
  {
  }

  lemma {:induction false} JoinConcat(a: seq<string>, b: seq<string>)
    ensures Join(a + b) == Join(a) + Join(b)
  {
    if a == [] {
      assert a + b == b;
    } else {
      JoinConcat(a[1..], b);
      assert (a + b)[0] == a[0] && (a + b)[1..] == a[1..] + b;
      Assoc(a[0], Join(a[1..]), Join(b));
    }
  }

  lemma FramesSnoc(fs: seq<ClientFile>, f: ClientFile)
    ensures Frames(fs + [f]) == Frames(fs) + Frame(f)
    decreases |fs|
  {
    if fs == [] {
      assert [f][1..] == [] && FromEnd([f]) == "END\n";
    } else {
      var rest := fs[1..];
      FramesSnoc(rest, f);
      assert (fs + [f])[0] == fs[0] && (fs + [f])[1..] == rest + [f];
      Shift(Header(fs[0]), Payload(fs[0]), Frames(rest), Frame(f));
    }
  }

  lemma Shift(h: string, p: string, r: string, x: string)
    ensures h + (p + ("END" + ("\n" + (r + x)))) == (h + (p + ("END" + ("\n" + r)))) + x
  {
    Assoc("\n", r, x);
    Assoc("END", "\n" + r, x);
    Assoc(p, "END" + ("\n" + r), x);
    Assoc(h, p + ("END" + ("\n" + r)), x);
  }

  /** `strchr(l, '\n')` on a NUL-terminated text: the first line end, unless a NUL comes before it. */
  function LineEnd(l: string): (r: Option<nat>)
    ensures r.Some? ==> r.value < |l| && l[r.value] == '\n'
  {
    if l == [] || l[0] == '\0' then None
    else if l[0] == '\n' then Some(0)
    else
      match LineEnd(l[1..])
      case None => None
      case Some(n) => Some(n + 1)
  }

  lemma {:induction false} LineEndOf(text: string, rest: string)
    requires Plain(text)
    ensures LineEnd(text + "\n" + rest) == Some(|text|)
  {
    if text != [] {
      LineEndOf(text[1..], rest);
      assert (text + "\n" + rest)[1..] == text[1..] + "\n" + rest;
    }
  }

  lemma {:induction false} LineEndNone(l: string)
    requires Plain(l)
    ensures LineEnd(l) == None
  {
    if l != [] {
      LineEndNone(l[1..]);
    }
  }

  /**
    When the bytes read (`l`) and the bytes to come (`u`) together begin with a line, that line is
    found exactly when all of it has been read.
   */
  lemma FirstLine(l: string, u: string, text: string, tail: string)
    requires Plain(text) && l + u == text + ("\n" + tail)
    ensures |l| <= |text| ==> LineEnd(l) == None
    ensures |l| > |text| ==> LineEnd(l) == Some(|text|) && l[..|text|] == text && l[|text| + 1..] + u == tail
  {
    var s := text + ("\n" + tail);
    assert forall i :: 0 <= i < |l| ==> l[i] == s[i];
    if |l| <= |text| {
      assert forall i :: 0 <= i < |l| ==> l[i] == text[i];
      LineEndNone(l);
    } else {
      assert l[..|text|] == text;
      assert l == text + "\n" + l[|text| + 1..];
      LineEndOf(text, l[|text| + 1..]);
      SuffixOf(l, u, text, tail);
    }
  }

  lemma SuffixOf(l: string, u: string, text: string, tail: string)
    requires l + u == text + ("\n" + tail) && |l| > |text|
    ensures l[|text| + 1..] + u == tail
  {
    var n := |text| + 1;
    assert (l + u)[n..] == l[n..] + u;
    assert (text + ("\n" + tail))[n..] == tail;
  }
}
