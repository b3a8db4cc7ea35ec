/** The encoder as it works on the buffer: a text followed by a NUL in a fixed array of characters. */
module Encoder {
  import opened Options
  import opened Decimals
  import opened Messages
  import opened Encoding

  /** The text is what precedes the NUL. */
  class TextBuffer {
    const chars: array<char>
    var len: nat
    var isError: bool

    ghost predicate Valid()
      reads this, chars
    {
      && len < chars.Length && chars[len] == '\0'
      && (isError ==> len == chars.Length - 1)
      && CString(chars[..len])
    }

    ghost function View(): Buf
      reads this, chars
      requires Valid()
    {
      Buf(chars[..len], isError)
    }

    constructor (chars: array<char>)
      requires chars.Length > 0
      modifies chars
      ensures this.chars == chars && Valid() && View() == Buf("", false)
    {
      this.chars, len, isError := chars, 0, false;
      new;
      chars[0] := '\0';
    }

    /** `vsnprintf` into what is left of the buffer. */
    method Print(x: string)
      requires Valid() && CString(x)
      modifies this, chars
      ensures Valid() && View() == Put(old(View()), x, chars.Length)
    {
      if isError { return; }
      ghost var text := chars[..len];
      var n := if len + |x| < chars.Length then |x| else chars.Length - 1 - len;
      for i := 0 to n
        modifies chars
        invariant chars[..len + i] == text + x[..i]
      {
        chars[len + i] := x[i];
      }
      chars[len + n] := '\0';
      isError := n < |x| || len + |x| >= chars.Length;
      len := len + n;
      assert chars[..len] == text + x[..n];
      assert isError ==> (text + x)[..chars.Length - 1] == text + x[..n];
    }

    /** Shorten the text, forgetting the error. */
    method CutTo(n: nat)
      requires Valid() && n <= len
      modifies this, chars
      ensures Valid() && View() == Buf(old(View()).text[..n], false)
    {
      ghost var text := chars[..len];
      len, isError := n, false;
      chars[n] := '\0';
      assert chars[..n] == text[..n];
    }

    /** Replace the characters that have a meaning, from `from` up to the NUL. */
    method Replace(from: nat)
      requires Valid() && from <= len
      modifies chars
      ensures Valid() && View() == Buf(old(View()).text[..from] + Sanitize(old(View()).text[from..]), isError)
    {
      ghost var text := chars[..len];
      var k := from;
      while chars[k] != '\0'
        modifies chars
        invariant from <= k <= len && chars[len] == '\0'
        invariant forall i :: 0 <= i < len ==> chars[i] == if from <= i < k then Replaced(text[i]) else text[i]
        decreases len - k
      {
        if Special(chars[k]) { chars[k] := '?'; }
        k := k + 1;
      }
      ReplacedIsSanitized(text, from, chars[..len]);
    }

    /** A string field. */
    method PrintString(str: string, eol: Option<nat>)
      requires Valid() && CString(str) && (eol.Some? ==> eol.value <= |str|)
      modifies this, chars
      ensures Valid() && View() == PutString(old(View()), str, eol, chars.Length)
    {
      var ix := len;
      Print(str);
      if eol.Some? {
        var newl := ix + eol.value;
        if newl < chars.Length {
          CutTo(newl);
        }
      }
      Replace(ix);
    }

    /** One field; also the position of its value when it is a string, or -1. */
    method PrintField(m: Message, split: int, rest: string, i: nat) returns (ix: int)
      requires Valid() && Typed(m) && i < |m.values| && CString(rest)
      modifies this, chars
      ensures Valid() && (View(), ix) == PutField(old(View()), RowOf(m), split, rest, i, chars.Length)
    {
      Print("#");
      ix := -1;
      CellOfGood(m.values[i], m.protocol.fields[i].typ);
      match m.values[i] {
        case Undefined =>
        case NullString => ix := len;
        case StringValue(s) =>
          ix := len;
          if i == split {
            PrintString(rest, LineBreak(rest));
          } else {
            PrintString(s, None);
          }
        case IntValue(n) => Print(Show(n));
        case DoubleValue(x) => Print(ShowDouble(x));
      }
    }

    /** The loop over the fields. */
    method PrintFields(m: Message, split: int, rest: string) returns (ix: int, i: nat)
      requires Valid() && Typed(m) && CString(rest)
      modifies this, chars
      ensures Valid() && Stop(View(), ix, i) == PutFields(old(View()), RowOf(m), split, rest, -1, 0, chars.Length)
    {
      ix, i := -1, 0;
      ghost var all := PutFields(View(), RowOf(m), split, rest, -1, 0, chars.Length);
      while i < |m.values|
        modifies this, chars
        invariant Valid() && i <= |m.values|
        invariant all == PutFields(View(), RowOf(m), split, rest, ix, i, chars.Length)
        decreases |m.values| - i
      {
        ghost var before, ix0 := View(), ix;
        ix := PrintField(m, split, rest, i);
        if isError { return; }
        i := i + 1;
      }
    }

    /** One record. */
    method PrintRecord(m: Message, split: int, rest: string) returns (ix: int, i: nat)
      requires Valid() && Typed(m) && CString(rest)
      modifies this, chars
      ensures Valid() && Stop(View(), ix, i) == PutRecord(old(View()), RowOf(m), split, rest, chars.Length)
    {
      Print("*" + m.protocol.version);
      ix, i := PrintFields(m, split, rest);
      Print("\n");
    }
  }

  /** Every value has the type of its field, and strings are C strings. */
  ghost predicate Typed(m: Message) {
    && |m.values| == |m.protocol.fields| && CString(m.protocol.version)
    && forall i :: 0 <= i < |m.values| ==> ValueFits(m.values[i], m.protocol.fields[i].typ)
  }

  const BAD_ARGUMENT := 2

  /** The split field, if any, is a string field of the protocol. */
  predicate GoodSplit(p: Protocol, split: int) {
    -1 <= split < |p.fields| && (split >= 0 ==> p.fields[split].typ == StringType)
  }

  /** The array holds the text and a NUL behind it. */
  ghost predicate Holds(chars: array<char>, text: string)
    reads chars
  {
    |text| < chars.Length && chars[..|text|] == text && chars[|text|] == '\0'
  }

  /** Where the truncation mark goes. */
  method PlaceMark(ix: int, i: nat, n: nat, lastGood: int, size: nat) returns (at: int)
    ensures forall b, r: Row :: |r.cells| == n ==> at == MarkAt(Stop(b, ix, i), r, lastGood, size)
  {
    at := -1;
    if ix >= 0 && i + 1 >= n {
      at := size - 8;
      if at < ix { at := -1; }
    }
    if at < 0 && lastGood >= 0 { at := lastGood - 1; }
  }

  /** The loop over the lines. */
  method EncodeLines(m: Message, s: TextBuffer, split: int, text: string) returns (code: int)
    requires s.Valid() && s.View() == Buf("", false) && Typed(m) && m.values != [] && CString(text)
    modifies s, s.chars
    ensures s.Valid() && Outcome(code, s.View().text) == EncodeFrom(Buf("", false), RowOf(m), split, text, -1, s.chars.Length)
  {
    var rest, lastGood := text, -1;
    ghost var r, size := RowOf(m), s.chars.Length;
    var splits := 0 <= split < |m.values| && m.values[split].StringValue?;
    assert splits == Splits(r, split);
    ghost var all := EncodeFrom(Buf("", false), r, split, text, -1, size);
    while true
      modifies s, s.chars
      invariant s.Valid() && !s.isError && CString(rest)
      invariant -1 <= lastGood <= s.len
      invariant all == EncodeFrom(s.View(), r, split, rest, lastGood, size)
      decreases |rest|
    {
      ghost var before := s.View();
      var eol := if splits then LineBreak(rest) else None;
      var ix, i := s.PrintRecord(m, split, rest);
      ghost var f := Stop(s.View(), ix, i);
      RecordGrows(before, r, split, rest, size);
      if s.isError || (eol.Some? && s.len + 8 > s.chars.Length) {
        var at := PlaceMark(ix, i, |m.values|, lastGood, s.chars.Length);
        assert at == MarkAt(f, r, lastGood, size);
        if at < 0 || at + 8 > s.chars.Length { return 1; }
        s.CutTo(at);
        s.Print(TRUNCATED);
        return -1;
      }
      if eol.None? { return 0; }
      rest := rest[eol.value + 1..];
      lastGood := s.len;
    }
  }

  /** `infoLog_msg_encode` */
  method EncodeMessage(m: Message, chars: array<char>, split: int) returns (code: int)
    requires Typed(m) && m.values != []
    modifies chars
    ensures code == BAD_ARGUMENT <==> chars.Length == 0 || !GoodSplit(m.protocol, split)
    ensures code == BAD_ARGUMENT ==> chars[..] == old(chars[..])
    ensures code != BAD_ARGUMENT ==>
      var o := Encode(RowOf(m), split, chars.Length); code == o.code && Holds(chars, o.text)
  {
    if chars.Length <= 0 || !GoodSplit(m.protocol, split) { return BAD_ARGUMENT; }
    var text := "";
    if split >= 0 && m.values[split].StringValue? { text := m.values[split].text; }
    var s := new TextBuffer(chars);
    code := EncodeLines(m, s, split, text);
    EncodeCode(RowOf(m), split, text, chars.Length);
  }

  lemma EncodeCode(r: Row, split: int, text: string, size: nat)
    requires size > 0 && r.cells != [] && text == if Splits(r, split) then r.cells[split].text else ""
    ensures Encode(r, split, size) == EncodeFrom(Buf("", false), r, split, text, -1, size)
    ensures Encode(r, split, size).code != BAD_ARGUMENT
  {
    EncodeIs(r, split, size);
  }

  lemma RecordGrows(b: Buf, r: Row, split: int, rest: string, size: nat)
    requires size > 0 && r.cells != [] && Room(b, size) && !b.isError
    ensures |PutRecord(b, r, split, rest, size).buf.text| >= |b.text|
  {
    RecordIs(b, r, split, rest, size);
  }

  function Replaced(c: char): char { if Special(c) then '?' else c }

  lemma {:induction false} SanitizeAt(s: string, i: nat)
    requires i < |s|
    ensures |Sanitize(s)| == |s| && Sanitize(s)[i] == Replaced(s[i])
  {
    SanitizeLength(s);
    if i > 0 { SanitizeAt(s[1..], i - 1); }
  }

  /** Replacing character by character from a position on is sanitizing the rest. */
  lemma ReplacedIsSanitized(text: string, from: nat, now: string)
    requires from <= |text| == |now| && CString(text)
    requires forall i :: 0 <= i < |text| ==> now[i] == if from <= i then Replaced(text[i]) else text[i]
    ensures now == text[..from] + Sanitize(text[from..]) && CString(now)
  {
    var rest := text[from..];
    SanitizeLength(rest);
    forall i | 0 <= i < |rest| ensures Sanitize(rest)[i] == now[from + i] { SanitizeAt(rest, i); }
  }
}
