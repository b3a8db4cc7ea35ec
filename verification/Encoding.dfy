/**
  Encoding a message into a bounded buffer: one record per line of the split field, cut and marked
  when the buffer is too small. Everything is stated about the text in the buffer; a NUL always
  follows it.
 */
module Encoding {
  import opened Options
  import opened Messages

  /** The text printed so far, and whether something did not fit. */
  datatype Buf = Buf(text: string, isError: bool)

  const TRUNCATED := " [...]\n"

  /** `mysprintf`: append, or fill the buffer up and remember the error. */
  function Put(b: Buf, x: string, size: nat): Buf
    requires size > 0
  {
    if b.isError then b
    else if |b.text| + |x| < size then Buf(b.text + x, false)
    else Buf((b.text + x)[..size - 1], true)
  }

  ghost predicate Room(b: Buf, size: nat) {
    |b.text| < size && (b.isError ==> |b.text| == size - 1)
  }

  /** Print a string; when it is split, keep the first line only, forgetting the error if that fits. */
  function PutString(b: Buf, str: string, eol: Option<nat>, size: nat): Buf
    requires size > 0
  {
    var ix := |b.text|;
    var p := Put(b, str, size);
    var c := if eol.Some? && ix + eol.value < size && ix + eol.value <= |p.text|
             then Buf(p.text[..ix + eol.value], false) else p;
    if ix <= |c.text| then Buf(c.text[..ix] + Sanitize(c.text[ix..]), c.isError) else c
  }

  /** One field; also the position of its value when it is a string, or -1. */
  function PutField(b: Buf, r: Row, split: int, rest: string, i: nat, size: nat): (Buf, int)
    requires size > 0 && i < |r.cells|
  {
    var p := Put(b, "#", size);
    match r.cells[i]
    case Empty => (p, -1)
    case Null => (p, |p.text|)
    case Text(s) =>
      if i == split then (PutString(p, rest, LineBreak(rest), size), |p.text|)
      else (PutString(p, s, None, size), |p.text|)
    case Number(s) => (Put(p, s, size), -1)
  }

  /** Where the field loop stopped: the buffer, the last position remembered, the field index. */
  datatype Stop = Stop(buf: Buf, ix: int, i: nat)

  function PutFields(b: Buf, r: Row, split: int, rest: string, ix: int, i: nat, size: nat): Stop
    requires size > 0 && i <= |r.cells|
    decreases |r.cells| - i
  {
    if i == |r.cells| then Stop(b, ix, i)
    else
      var (p, jx) := PutField(b, r, split, rest, i, size);
      if p.isError then Stop(p, jx, i) else PutFields(p, r, split, rest, jx, i + 1, size)
  }

  /** One record, with its line end. */
  function PutRecord(b: Buf, r: Row, split: int, rest: string, size: nat): Stop
    requires size > 0
  {
    var f := PutFields(Put(b, "*" + r.version, size), r, split, rest, -1, 0, size);
    f.(buf := Put(f.buf, "\n", size))
  }

  /** Where the truncation mark goes, or -1. */
  function MarkAt(f: Stop, r: Row, lastGood: int, size: nat): int {
    if f.ix >= 0 && f.i + 1 >= |r.cells| && size - 8 >= f.ix then size - 8
    else if lastGood >= 0 then lastGood - 1
    else -1
  }

  datatype Outcome = Outcome(code: int, text: string)

  /** Put the mark there, or give up. */
  function Finish(text: string, at: int, size: nat): Outcome
    requires size > 0
  {
    if at < 0 || at + 8 > size || at > |text| then Outcome(1, text)
    else Outcome(-1, Put(Buf(text[..at], false), TRUNCATED, size).text)
  }

  /** Is there something to split, and where does its first line end? */
  function SplitEol(r: Row, split: int, rest: string): Option<nat> {
    if Splits(r, split) then LineBreak(rest) else None
  }

  /** The loop over lines; `rest` is the text from the current line on. */
  function EncodeFrom(b: Buf, r: Row, split: int, rest: string, lastGood: int, size: nat): Outcome
    requires size > 0
    decreases |rest|
  {
    var f := PutRecord(b, r, split, rest, size);
    var eol := SplitEol(r, split, rest);
    if f.buf.isError || (eol.Some? && |f.buf.text| + 8 > size) then
      Finish(f.buf.text, MarkAt(f, r, lastGood, size), size)
    else if eol.None? then Outcome(0, f.buf.text)
    else EncodeFrom(f.buf, r, split, rest[eol.value + 1..], |f.buf.text|, size)
  }

  /** `infoLog_msg_encode`, once its arguments are checked. */
  function Encode(r: Row, split: int, size: nat): Outcome
    requires size > 0
  {
    EncodeFrom(Buf("", false), r, split,
               if Splits(r, split) then r.cells[split].text else "", -1, size)
  }

  // ---------------------------------------------------------------- printing piece by piece is printing the whole

  lemma PutPut(b: Buf, x: string, y: string, size: nat)
    requires size > 0 && Room(b, size)
    ensures Put(Put(b, x, size), y, size) == Put(b, x + y, size)
  {
    if !b.isError {
      assert (b.text + x) + y == b.text + (x + y);
      if |b.text| + |x| >= size {
        assert (b.text + (x + y))[..size - 1] == (b.text + x)[..size - 1];
      }
    }
  }

  /** As the whole would be, except that a full buffer may have its error forgotten until the next print. */
  ghost predicate Near(b: Buf, ideal: Buf, size: nat) {
    b == ideal || (b.text == ideal.text && |b.text| == size - 1 && ideal.isError && !b.isError)
  }

  /** A split string prints its first line; a whole string prints itself. */
  function FirstLine(str: string, eol: Option<nat>): string {
    if eol.Some? && eol.value <= |str| then str[..eol.value] else str
  }

  lemma PutStringFits(b: Buf, str: string, eol: Option<nat>, size: nat)
    requires size > 0 && Room(b, size) && !b.isError
    requires eol.Some? ==> eol.value <= |str|
    requires |b.text| + |FirstLine(str, eol)| < size
    ensures PutString(b, str, eol, size) == Put(b, Sanitize(FirstLine(str, eol)), size)
  {
    var ix, line := |b.text|, FirstLine(str, eol);
    SanitizeLength(line);
    var p := Put(b, str, size);
    assert p.text[..ix + |line|] == b.text + line by {
      assert (b.text + str)[..ix + |line|] == b.text + line;
    }
    var c := Buf(b.text + line, false);
    assert c.text[..ix] == b.text && c.text[ix..] == line;
    if eol.None? {
      assert p == c;
    }
  }

  lemma PutStringOverflows(b: Buf, str: string, eol: Option<nat>, size: nat)
    requires size > 0 && Room(b, size) && !b.isError
    requires eol.Some? ==> eol.value <= |str|
    requires |b.text| + |FirstLine(str, eol)| >= size
    ensures PutString(b, str, eol, size) == Put(b, Sanitize(FirstLine(str, eol)), size)
  {
    var ix, line := |b.text|, FirstLine(str, eol);
    var n := size - 1 - ix;
    SanitizePrefix(line, n);
    var p := Put(b, str, size);
    assert p.isError && p.text == b.text + line[..n] by {
      assert (b.text + str)[..size - 1] == b.text + str[..n];
      assert str[..n] == line[..n];
    }
    assert p.text[..ix] == b.text && p.text[ix..] == line[..n];
    assert (b.text + Sanitize(line))[..size - 1] == b.text + Sanitize(line)[..n];
  }

  /** Printing a string is printing its sanitized first line, however much of it overflows. */
  lemma PutStringIs(b: Buf, str: string, eol: Option<nat>, size: nat)
    requires size > 0 && Room(b, size) && (eol.Some? ==> eol.value <= |str|)
    ensures Near(PutString(b, str, eol, size), Put(b, Sanitize(FirstLine(str, eol)), size), size)
    ensures Room(PutString(b, str, eol, size), size)
  {
    var line := FirstLine(str, eol);
    if b.isError {
      assert b.text[..|b.text|] + Sanitize(b.text[|b.text|..]) == b.text;
    } else if |b.text| + |line| < size {
      PutStringFits(b, str, eol, size);
    } else {
      PutStringOverflows(b, str, eol, size);
    }
  }

  /** A defined string field. */
  predicate IsString(c: Cell) { c.Text? || c.Null? }

  /** The line the current record is made for. */
  function CurrentLine(rest: string): string { FirstLine(rest, LineBreak(rest)) }

  lemma FieldIs(b: Buf, ideal: Buf, r: Row, split: int, rest: string, i: nat, size: nat)
    requires size > 0 && i < |r.cells| && Near(b, ideal, size) && Room(ideal, size)
    ensures var p := PutField(b, r, split, rest, i, size);
      && Near(p.0, Put(ideal, "#" + FieldText(r, split, CurrentLine(rest), i), size), size)
      && Room(p.0, size)
      && p.1 == if IsString(r.cells[i]) then |Put(ideal, "#", size).text| else -1
  {
    var h := Put(b, "#", size);
    var text := FieldText(r, split, CurrentLine(rest), i);
    PutPut(ideal, "#", text, size);
    match r.cells[i]
    case Text(s) =>
      if i == split {
        PutStringIs(h, rest, LineBreak(rest), size);
      } else {
        PutStringIs(h, s, None, size);
      }
    case _ =>
      assert h.text + "" == h.text;
  }

  /** The text of a record up to field `i`. */
  function Upto(r: Row, split: int, line: string, i: nat): string
    requires i <= |r.cells|
  {
    ("*" + r.version) + FieldsText(r, split, line, i)
  }

  lemma UptoNext(r: Row, split: int, line: string, i: nat)
    requires i < |r.cells|
    ensures Upto(r, split, line, i + 1) == Upto(r, split, line, i) + ("#" + FieldText(r, split, line, i))
  {
    var v, f, x := "*" + r.version, FieldsText(r, split, line, i), "#" + FieldText(r, split, line, i);
    assert v + (f + x) == (v + f) + x;
  }

  /** The buffer after a record up to field `i`, printed without the detours. */
  function Ideal(b: Buf, r: Row, split: int, line: string, i: nat, size: nat): Buf
    requires size > 0 && i <= |r.cells|
  {
    if i == 0 then Put(b, "*" + r.version, size)
    else Put(Ideal(b, r, split, line, i - 1, size), "#" + FieldText(r, split, line, i - 1), size)
  }

  lemma {:induction false} IdealIs(b: Buf, r: Row, split: int, line: string, i: nat, size: nat)
    requires size > 0 && i <= |r.cells| && Room(b, size)
    ensures Ideal(b, r, split, line, i, size) == Put(b, Upto(r, split, line, i), size)
    ensures Room(Ideal(b, r, split, line, i, size), size)
  {
    if i == 0 {
      assert Upto(r, split, line, 0) == "*" + r.version;
    } else {
      IdealIs(b, r, split, line, i - 1, size);
      UptoNext(r, split, line, i - 1);
      PutPut(b, Upto(r, split, line, i - 1), "#" + FieldText(r, split, line, i - 1), size);
    }
  }

  /** Once the buffer is full, the rest of the record changes nothing. */
  lemma {:induction false} FullStaysFull(b: Buf, r: Row, split: int, line: string, i: nat, n: nat, size: nat)
    requires size > 0 && i <= n <= |r.cells| && Ideal(b, r, split, line, i, size).isError
    ensures Ideal(b, r, split, line, n, size) == Ideal(b, r, split, line, i, size)
    decreases n
  {
    if i < n {
      FullStaysFull(b, r, split, line, i, n - 1, size);
    }
  }

  /** After printing the record up to field `i`, the position a string value of that field gets. */
  ghost function ValuePosition(b: Buf, r: Row, split: int, line: string, i: nat, size: nat): nat
    requires size > 0 && i <= |r.cells|
  {
    |Put(Ideal(b, r, split, line, i, size), "#", size).text|
  }

  /** A position kept from the last field is that of its string, and it is kept unless the buffer is full there. */
  ghost predicate LastPosition(f: Stop, r: Row, at: nat, size: nat)
    requires r.cells != []
  {
    && (f.ix >= 0 && f.i + 1 >= |r.cells| ==> f.ix == at && IsString(r.cells[|r.cells| - 1]))
    && (IsString(r.cells[|r.cells| - 1]) && at < size - 1 ==> f.ix >= 0 && f.i + 1 >= |r.cells|)
  }

  /** The record body is printed, and the position of the last value is known if the loop got there. */
  ghost predicate BodyPrinted(b: Buf, f: Stop, r: Row, split: int, line: string, size: nat)
    requires size > 0 && r.cells != []
  {
    && Near(f.buf, Ideal(b, r, split, line, |r.cells|, size), size)
    && LastPosition(f, r, ValuePosition(b, r, split, line, |r.cells| - 1, size), size)
  }

  lemma FieldStep(b: Buf, p: Buf, r: Row, split: int, rest: string, i: nat, size: nat)
    requires size > 0 && i < |r.cells| && Room(b, size)
    requires Near(p, Ideal(b, r, split, CurrentLine(rest), i, size), size)
    ensures var q := PutField(p, r, split, rest, i, size);
      && Near(q.0, Ideal(b, r, split, CurrentLine(rest), i + 1, size), size)
      && q.1 == if IsString(r.cells[i]) then ValuePosition(b, r, split, CurrentLine(rest), i, size) else -1
  {
    IdealIs(b, r, split, CurrentLine(rest), i, size);
    FieldIs(p, Ideal(b, r, split, CurrentLine(rest), i, size), r, split, rest, i, size);
  }

  lemma NoRoomForLast(b: Buf, r: Row, split: int, line: string, i: nat, size: nat)
    requires size > 0 && i < |r.cells| && Room(b, size) && Ideal(b, r, split, line, i, size).isError
    ensures ValuePosition(b, r, split, line, |r.cells| - 1, size) == size - 1
  {
    FullStaysFull(b, r, split, line, i, |r.cells| - 1, size);
    IdealIs(b, r, split, line, |r.cells| - 1, size);
  }

  lemma StoppedFull(b: Buf, q: Buf, jx: int, r: Row, split: int, line: string, i: nat, size: nat)
    requires size > 0 && i < |r.cells| && q.isError && Near(q, Ideal(b, r, split, line, i + 1, size), size)
    requires Room(b, size)
    requires jx == if IsString(r.cells[i]) then ValuePosition(b, r, split, line, i, size) else -1
    ensures BodyPrinted(b, Stop(q, jx, i), r, split, line, size)
  {
    FullStaysFull(b, r, split, line, i + 1, |r.cells|, size);
    if i + 1 < |r.cells| {
      NoRoomForLast(b, r, split, line, i + 1, size);
    }
  }

  /** The field loop prints the record body. */
  lemma {:induction false} FieldsAre(
    b: Buf, p: Buf, r: Row, split: int, rest: string, ix: int, i: nat, size: nat)
    requires size > 0 && i <= |r.cells| && r.cells != [] && Room(b, size)
    requires Near(p, Ideal(b, r, split, CurrentLine(rest), i, size), size)
    requires i == |r.cells| ==>
      ix == if IsString(r.cells[i - 1]) then ValuePosition(b, r, split, CurrentLine(rest), i - 1, size) else -1
    ensures BodyPrinted(b, PutFields(p, r, split, rest, ix, i, size), r, split, CurrentLine(rest), size)
    decreases |r.cells| - i
  {
    if i < |r.cells| {
      FieldStep(b, p, r, split, rest, i, size);
      var (q, jx) := PutField(p, r, split, rest, i, size);
      if q.isError {
        StoppedFull(b, q, jx, r, split, CurrentLine(rest), i, size);
      } else {
        FieldsAre(b, q, r, split, rest, jx, i + 1, size);
      }
    }
  }

  /** Where the value of the last field starts within a record. */
  function ValueStart(r: Row, split: int, line: string): nat
    requires r.cells != []
  {
    |Upto(r, split, line, |r.cells| - 1)| + 1
  }

  function Capped(at: nat, size: nat): nat
    requires size > 0
  {
    if at < size then at else size - 1
  }

  lemma LastValuePosition(b: Buf, r: Row, split: int, line: string, size: nat)
    requires size > 0 && r.cells != [] && Room(b, size) && !b.isError
    ensures ValuePosition(b, r, split, line, |r.cells| - 1, size) == Capped(|b.text| + ValueStart(r, split, line), size)
  {
    IdealIs(b, r, split, line, |r.cells| - 1, size);
  }

  lemma WholeRecord(b: Buf, p: Buf, r: Row, split: int, line: string, size: nat)
    requires size > 0 && Room(b, size) && Near(p, Ideal(b, r, split, line, |r.cells|, size), size)
    ensures Put(p, "\n", size) == Put(b, Record(r, split, line), size)
  {
    IdealIs(b, r, split, line, |r.cells|, size);
    PutPut(b, RecordBody(r, split, line), "\n", size);
  }

  /** Printing a record field by field is printing its text at once. */
  lemma RecordIs(b: Buf, r: Row, split: int, rest: string, size: nat)
    requires size > 0 && r.cells != [] && Room(b, size) && !b.isError
    ensures var f, line := PutRecord(b, r, split, rest, size), CurrentLine(rest);
      && f.buf == Put(b, Record(r, split, line), size)
      && LastPosition(f, r, Capped(|b.text| + ValueStart(r, split, line), size), size)
  {
    var start := Put(b, "*" + r.version, size);
    FieldsAre(b, start, r, split, rest, -1, 0, size);
    WholeRecord(b, PutFields(start, r, split, rest, -1, 0, size).buf, r, split, CurrentLine(rest), size);
    LastValuePosition(b, r, split, CurrentLine(rest), size);
  }

  // ---------------------------------------------------------------- what ends up in the buffer

  /** The records of the first `j` lines. */
  function Upon(r: Row, split: int, lines: seq<string>, j: nat): string
    requires j <= |lines|
  {
    Records(r, split, lines[..j])
  }

  /** The record of line `j` does not fit, or leaves no room to mark that the next one is missing. */
  ghost predicate Fails(r: Row, split: int, lines: seq<string>, j: nat, size: nat)
    requires j < |lines|
  {
    || |Upon(r, split, lines, j + 1)| >= size
    || (j + 1 < |lines| && |Upon(r, split, lines, j + 1)| + 8 > size)
  }

  /** Every record from line `k` on fits. */
  ghost predicate FitFrom(r: Row, split: int, lines: seq<string>, k: nat, size: nat) {
    forall j :: k <= j < |lines| ==> !Fails(r, split, lines, j, size)
  }

  /** The last field is a string, and the mark still fits behind its start. */
  ghost predicate RoomInLast(r: Row, split: int, line: string, start: nat, size: nat)
    requires r.cells != []
  {
    IsString(r.cells[|r.cells| - 1]) && start + ValueStart(r, split, line) + 8 <= size
  }

  /** What is done when the record of line `j` fails: mark its last field, or the record before, or give up. */
  ghost predicate Stopped(o: Outcome, r: Row, split: int, lines: seq<string>, j: nat, size: nat)
    requires r.cells != [] && j < |lines|
  {
    if RoomInLast(r, split, lines[j], |Upon(r, split, lines, j)|, size) then
      && 8 <= size <= |Upon(r, split, lines, j + 1)| + 7
      && o == Outcome(-1, Upon(r, split, lines, j + 1)[..size - 8] + TRUNCATED)
    else if j > 0 then
      && 0 < |Upon(r, split, lines, j)|
      && o == Outcome(-1, Upon(r, split, lines, j)[..|Upon(r, split, lines, j)| - 1] + TRUNCATED)
    else o.code == 1 && |o.text| < size
  }

  /** All that the encoder promises, from line `k` on. */
  ghost predicate Encoded(o: Outcome, r: Row, split: int, lines: seq<string>, k: nat, size: nat)
    requires r.cells != []
  {
    || (FitFrom(r, split, lines, k, size) && o == Outcome(0, Records(r, split, lines)))
    || (exists j :: k <= j < |lines| && FirstFailure(r, split, lines, k, j, size) && Stopped(o, r, split, lines, j, size))
  }

  ghost predicate FirstFailure(r: Row, split: int, lines: seq<string>, k: nat, j: nat, size: nat)
    requires j < |lines|
  {
    && Fails(r, split, lines, j, size)
    && forall i :: k <= i < j ==> !Fails(r, split, lines, i, size)
  }

  /** The loop is about to print the record of line `k`. */
  ghost predicate AtLine(b: Buf, r: Row, split: int, rest: string, lastGood: int, lines: seq<string>, k: nat, size: nat) {
    && k < |lines|
    && b == Buf(Upon(r, split, lines, k), false) && |b.text| < size
    && lastGood == (if k == 0 then -1 else |b.text|)
    && (k > 0 ==> |b.text| + 8 <= size)
    && (if Splits(r, split) then Lines(rest) == lines[k..] else rest == "" && lines == [""])
  }

  lemma UponNext(r: Row, split: int, lines: seq<string>, k: nat)
    requires k < |lines|
    ensures Upon(r, split, lines, k + 1) == Upon(r, split, lines, k) + Record(r, split, lines[k])
  {
    assert lines[..k + 1][..k] == lines[..k];
  }

  lemma {:induction false} UponGrows(r: Row, split: int, lines: seq<string>, j: nat, k: nat)
    requires j <= k <= |lines|
    ensures |Upon(r, split, lines, j)| + (k - j) <= |Upon(r, split, lines, k)|
    decreases k
  {
    if j < k {
      UponGrows(r, split, lines, j, k - 1);
      UponNext(r, split, lines, k - 1);
    }
  }

  lemma FinishMarks(text: string, rec: string, at: nat, size: nat)
    requires |text| < size && at + 8 <= size && at <= |text| + |rec|
    ensures Finish(Put(Buf(text, false), rec, size).text, at, size) == Outcome(-1, (text + rec)[..at] + TRUNCATED)
  {
  }

  lemma FinishIsStopped(r: Row, split: int, lines: seq<string>, k: nat, at: int, size: nat)
    requires r.cells != [] && k < |lines| && Fails(r, split, lines, k, size) && |Upon(r, split, lines, k)| < size
    requires k > 0 ==> |Upon(r, split, lines, k)| + 8 <= size
    requires at == if RoomInLast(r, split, lines[k], |Upon(r, split, lines, k)|, size) then size - 8
                   else if k > 0 then |Upon(r, split, lines, k)| - 1 else -1
    ensures Stopped(Finish(Put(Buf(Upon(r, split, lines, k), false), Record(r, split, lines[k]), size).text, at, size),
                    r, split, lines, k, size)
  {
    var text, rec := Upon(r, split, lines, k), Record(r, split, lines[k]);
    UponNext(r, split, lines, k);
    UponGrows(r, split, lines, 0, k);
    if at >= 0 {
      FinishMarks(text, rec, at, size);
      assert at < |text| ==> (text + rec)[..at] == text[..at];
    }
  }

  /** The record of line `k` as the loop prints it, and what the loop then knows. */
  lemma LinePrinted(b: Buf, r: Row, split: int, rest: string, lastGood: int, lines: seq<string>, k: nat, size: nat)
    requires r.cells != [] && AtLine(b, r, split, rest, lastGood, lines, k, size)
    ensures var f := PutRecord(b, r, split, rest, size);
      && f.buf == Put(b, Record(r, split, lines[k]), size)
      && MarkAt(f, r, lastGood, size) == (if RoomInLast(r, split, lines[k], |Upon(r, split, lines, k)|, size) then size - 8
                                          else if k > 0 then |Upon(r, split, lines, k)| - 1 else -1)
  {
    RecordIs(b, r, split, rest, size);
    UponGrows(r, split, lines, 0, k);
  }

  /** A pass over a record that fails ends the loop. */
  lemma LineFails(b: Buf, r: Row, split: int, rest: string, lastGood: int, lines: seq<string>, k: nat, size: nat)
    requires r.cells != [] && AtLine(b, r, split, rest, lastGood, lines, k, size) && Fails(r, split, lines, k, size)
    ensures Stopped(EncodeFrom(b, r, split, rest, lastGood, size), r, split, lines, k, size)
  {
    LinePrinted(b, r, split, rest, lastGood, lines, k, size);
    UponNext(r, split, lines, k);
    var f := PutRecord(b, r, split, rest, size);
    FinishIsStopped(r, split, lines, k, MarkAt(f, r, lastGood, size), size);
  }

  /** A pass over a record that fits ends with the last line, or goes on. */
  lemma LineFits(b: Buf, r: Row, split: int, rest: string, lastGood: int, lines: seq<string>, k: nat, size: nat)
    requires r.cells != [] && AtLine(b, r, split, rest, lastGood, lines, k, size) && !Fails(r, split, lines, k, size)
    ensures k + 1 == |lines| ==>
      EncodeFrom(b, r, split, rest, lastGood, size) == Outcome(0, Upon(r, split, lines, k + 1))
    ensures k + 1 < |lines| ==>
      var eol, text := SplitEol(r, split, rest), Upon(r, split, lines, k + 1);
      && eol.Some?
      && AtLine(Buf(text, false), r, split, rest[eol.value + 1..], |text|, lines, k + 1, size)
      && EncodeFrom(b, r, split, rest, lastGood, size)
           == EncodeFrom(Buf(text, false), r, split, rest[eol.value + 1..], |text|, size)
  {
    LinePrinted(b, r, split, rest, lastGood, lines, k, size);
    UponNext(r, split, lines, k);
  }

  lemma EndIsEncoded(r: Row, split: int, lines: seq<string>, size: nat)
    requires r.cells != [] && lines != [] && !Fails(r, split, lines, |lines| - 1, size)
    ensures Encoded(Outcome(0, Upon(r, split, lines, |lines|)), r, split, lines, |lines| - 1, size)
  {
    assert lines[..|lines|] == lines;
  }

  lemma StoppedIsEncoded(o: Outcome, r: Row, split: int, lines: seq<string>, k: nat, size: nat)
    requires r.cells != [] && k < |lines| && Fails(r, split, lines, k, size) && Stopped(o, r, split, lines, k, size)
    ensures Encoded(o, r, split, lines, k, size)
  {
    assert FirstFailure(r, split, lines, k, k, size);
  }

  lemma FitEarlier(r: Row, split: int, lines: seq<string>, k: nat, size: nat)
    requires k < |lines| && !Fails(r, split, lines, k, size) && FitFrom(r, split, lines, k + 1, size)
    ensures FitFrom(r, split, lines, k, size)
  {
  }

  lemma FailEarlier(r: Row, split: int, lines: seq<string>, k: nat, j: nat, size: nat)
    requires k < j < |lines| && !Fails(r, split, lines, k, size) && FirstFailure(r, split, lines, k + 1, j, size)
    ensures FirstFailure(r, split, lines, k, j, size)
  {
  }

  lemma Earlier(o: Outcome, r: Row, split: int, lines: seq<string>, k: nat, size: nat)
    requires r.cells != [] && k < |lines| && !Fails(r, split, lines, k, size)
    requires Encoded(o, r, split, lines, k + 1, size)
    ensures Encoded(o, r, split, lines, k, size)
  {
    if FitFrom(r, split, lines, k + 1, size) && o == Outcome(0, Records(r, split, lines)) {
      FitEarlier(r, split, lines, k, size);
    } else {
      var j :| k + 1 <= j < |lines| && FirstFailure(r, split, lines, k + 1, j, size) && Stopped(o, r, split, lines, j, size);
      FailEarlier(r, split, lines, k, j, size);
    }
  }

  /** What the encoder makes of a message, for every message, split field and buffer size. */
  lemma {:induction false} EncodeFromIs(
    b: Buf, r: Row, split: int, rest: string, lastGood: int, lines: seq<string>, k: nat, size: nat)
    requires r.cells != [] && AtLine(b, r, split, rest, lastGood, lines, k, size)
    ensures Encoded(EncodeFrom(b, r, split, rest, lastGood, size), r, split, lines, k, size)
    decreases |lines| - k
  {
    var o := EncodeFrom(b, r, split, rest, lastGood, size);
    if Fails(r, split, lines, k, size) {
      LineFails(b, r, split, rest, lastGood, lines, k, size);
      StoppedIsEncoded(o, r, split, lines, k, size);
    } else {
      LineFits(b, r, split, rest, lastGood, lines, k, size);
      if k + 1 == |lines| {
        EndIsEncoded(r, split, lines, size);
      } else {
        var text, eol := Upon(r, split, lines, k + 1), SplitEol(r, split, rest);
        EncodeFromIs(Buf(text, false), r, split, rest[eol.value + 1..], |text|, lines, k + 1, size);
        Earlier(o, r, split, lines, k, size);
      }
    }
  }

  lemma EncodeIs(r: Row, split: int, size: nat)
    requires size > 0 && r.cells != []
    ensures Encoded(Encode(r, split, size), r, split, RecordLines(r, split), 0, size)
  {
    var lines := RecordLines(r, split);
    assert lines[0..] == lines;
    EncodeFromIs(Buf("", false), r, split, if Splits(r, split) then r.cells[split].text else "", -1, lines, 0, size);
  }
}
