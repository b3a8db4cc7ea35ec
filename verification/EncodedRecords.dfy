/**
  What the encoder leaves in the buffer: whole records, each with every field, also when it is cut;
  and what comes back when they are decoded.
 */
module EncodedRecords {
  import opened Messages
  import opened Encoding

  // ---------------------------------------------------------------- whole records

  /** `#` and a text, for each of the texts. */
  function Flat(fs: seq<string>): string {
    if fs == [] then "" else Flat(fs[..|fs| - 1]) + ("#" + fs[|fs| - 1])
  }

  /** The record with these field texts. */
  function Whole(version: string, fs: seq<string>): string { (("*" + version) + Flat(fs)) + "\n" }

  function AllWhole(version: string, recs: seq<seq<string>>): string {
    if recs == [] then "" else AllWhole(version, recs[..|recs| - 1]) + Whole(version, recs[|recs| - 1])
  }

  ghost predicate CleanAll(fs: seq<string>) {
    forall i :: 0 <= i < |fs| ==> Clean(fs[i])
  }

  /** Field texts for a record of every field, none with a character that has a meaning. */
  ghost predicate Complete(fs: seq<string>, r: Row) { |fs| == |r.cells| && CleanAll(fs) }

  /** The texts of the first `n` fields. */
  function Texts(r: Row, split: int, line: string, n: nat): (fs: seq<string>)
    requires n <= |r.cells|
    ensures |fs| == n
  {
    if n == 0 then [] else Texts(r, split, line, n - 1) + [FieldText(r, split, line, n - 1)]
  }

  lemma {:induction false} TextsFlat(r: Row, split: int, line: string, n: nat)
    requires n <= |r.cells|
    ensures Flat(Texts(r, split, line, n)) == FieldsText(r, split, line, n)
  {
    if n > 0 {
      TextsFlat(r, split, line, n - 1);
    }
  }

  lemma {:induction false} TextsClean(r: Row, split: int, line: string, n: nat)
    requires n <= |r.cells| && GoodRow(r) && CString(line)
    ensures CleanAll(Texts(r, split, line, n))
  {
    if n > 0 {
      TextsClean(r, split, line, n - 1);
      FieldTextClean(r, split, line, n - 1);
    }
  }

  lemma RecordIsWhole(r: Row, split: int, line: string)
    requires GoodRow(r) && CString(line)
    ensures Record(r, split, line) == Whole(r.version, Texts(r, split, line, |r.cells|))
    ensures Complete(Texts(r, split, line, |r.cells|), r)
  {
    TextsFlat(r, split, line, |r.cells|);
    TextsClean(r, split, line, |r.cells|);
  }

  // ---------------------------------------------------------------- a cut record is whole too

  /** The field texts of a record whose last text is cut after `c` characters and marked. */
  function CutTexts(r: Row, split: int, line: string, c: nat): seq<string>
    requires r.cells != [] && c <= |FieldText(r, split, line, |r.cells| - 1)|
  {
    Texts(r, split, line, |r.cells| - 1) + [FieldText(r, split, line, |r.cells| - 1)[..c] + " [...]"]
  }

  lemma CutIsComplete(r: Row, split: int, line: string, c: nat)
    requires GoodRow(r) && CString(line) && c <= |FieldText(r, split, line, |r.cells| - 1)|
    ensures Complete(CutTexts(r, split, line, c), r)
  {
    TextsClean(r, split, line, |r.cells| - 1);
    FieldTextClean(r, split, line, |r.cells| - 1);
  }

  lemma CutIsWhole(r: Row, split: int, line: string, c: nat)
    requires r.cells != [] && c <= |FieldText(r, split, line, |r.cells| - 1)|
    ensures ValueStart(r, split, line) + c < |Record(r, split, line)|
    ensures Record(r, split, line)[..ValueStart(r, split, line) + c] + TRUNCATED
      == Whole(r.version, CutTexts(r, split, line, c))
  {
    var n := |r.cells| - 1;
    var v, f, text := "*" + r.version, FieldsText(r, split, line, n), FieldText(r, split, line, n);
    TextsFlat(r, split, line, n);
  }

  // ---------------------------------------------------------------- the whole buffer

  ghost predicate CStrings(lines: seq<string>) {
    forall i :: 0 <= i < |lines| ==> CString(lines[i])
  }

  /** The field texts of the records of the first `j` lines. */
  function AllTexts(r: Row, split: int, lines: seq<string>, j: nat): (recs: seq<seq<string>>)
    requires j <= |lines|
    ensures |recs| == j
  {
    if j == 0 then [] else AllTexts(r, split, lines, j - 1) + [Texts(r, split, lines[j - 1], |r.cells|)]
  }

  lemma {:induction false} UponIsWhole(r: Row, split: int, lines: seq<string>, j: nat)
    requires j <= |lines| && GoodRow(r) && CStrings(lines)
    ensures Upon(r, split, lines, j) == AllWhole(r.version, AllTexts(r, split, lines, j))
    ensures forall i :: 0 <= i < j ==> Complete(AllTexts(r, split, lines, j)[i], r)
  {
    if j > 0 {
      UponIsWhole(r, split, lines, j - 1);
      UponNext(r, split, lines, j - 1);
      RecordIsWhole(r, split, lines[j - 1]);
    }
  }

  /** The text is a sequence of records, each with every field. */
  ghost predicate WholeRecords(text: string, r: Row, recs: seq<seq<string>>) {
    text == AllWhole(r.version, recs) && forall i :: 0 <= i < |recs| ==> Complete(recs[i], r)
  }

  /** The records of the first `j` lines, then that of line `j` with its last text cut after `c` characters. */
  ghost predicate CutAfter(text: string, r: Row, split: int, lines: seq<string>, j: nat, c: nat)
    requires r.cells != []
  {
    && j < |lines| && c <= |FieldText(r, split, lines[j], |r.cells| - 1)|
    && WholeRecords(text, r, AllTexts(r, split, lines, j) + [CutTexts(r, split, lines[j], c)])
  }

  lemma CutTextIs(r: Row, split: int, lines: seq<string>, j: nat, c: nat, at: nat)
    requires r.cells != [] && j < |lines| && c <= |FieldText(r, split, lines[j], |r.cells| - 1)|
    requires at == |Upon(r, split, lines, j)| + ValueStart(r, split, lines[j]) + c
    ensures at < |Upon(r, split, lines, j + 1)|
    ensures Upon(r, split, lines, j + 1)[..at] + TRUNCATED
      == Upon(r, split, lines, j) + Whole(r.version, CutTexts(r, split, lines[j], c))
  {
    UponNext(r, split, lines, j);
    CutIsWhole(r, split, lines[j], c);
  }

  lemma CutText(r: Row, split: int, lines: seq<string>, j: nat, c: nat, at: nat)
    requires GoodRow(r) && CStrings(lines) && j < |lines| && c <= |FieldText(r, split, lines[j], |r.cells| - 1)|
    requires at == |Upon(r, split, lines, j)| + ValueStart(r, split, lines[j]) + c
    ensures at < |Upon(r, split, lines, j + 1)|
    ensures CutAfter(Upon(r, split, lines, j + 1)[..at] + TRUNCATED, r, split, lines, j, c)
  {
    UponIsWhole(r, split, lines, j);
    CutTextIs(r, split, lines, j, c, at);
    CutIsComplete(r, split, lines[j], c);
  }

  /** Marked inside the last field of the record that failed. */
  lemma CutInside(r: Row, split: int, lines: seq<string>, j: nat, at: nat, text: string)
    requires GoodRow(r) && CStrings(lines) && j < |lines|
    requires |Upon(r, split, lines, j)| + ValueStart(r, split, lines[j]) <= at < |Upon(r, split, lines, j + 1)|
    requires text == Upon(r, split, lines, j + 1)[..at] + TRUNCATED
    ensures exists c :: CutAfter(text, r, split, lines, j, c)
  {
    UponNext(r, split, lines, j);
    CutText(r, split, lines, j, at - |Upon(r, split, lines, j)| - ValueStart(r, split, lines[j]), at);
  }

  lemma StoppedIsCut(o: Outcome, r: Row, split: int, lines: seq<string>, j: nat, size: nat)
    requires GoodRow(r) && CStrings(lines) && j < |lines| && Stopped(o, r, split, lines, j, size) && o.code == -1
    ensures exists i, c :: CutAfter(o.text, r, split, lines, i, c)
  {
    if RoomInLast(r, split, lines[j], |Upon(r, split, lines, j)|, size) {
      CutInside(r, split, lines, j, size - 8, o.text);
    } else {
      UponNext(r, split, lines, j - 1);
      CutInside(r, split, lines, j - 1, |Upon(r, split, lines, j)| - 1, o.text);
    }
  }

  lemma {:induction false} LinesAreCStrings(s: string)
    requires CString(s)
    ensures CStrings(Lines(s))
    decreases |s|
  {
    match LineBreak(s)
    case None =>
    case Some(n) => LinesAreCStrings(s[n + 1..]);
  }

  lemma RecordLinesAreCStrings(r: Row, split: int)
    requires GoodRow(r)
    ensures CStrings(RecordLines(r, split))
  {
    if Splits(r, split) {
      assert GoodCell(r.cells[split]);
      LinesAreCStrings(r.cells[split].text);
    }
  }

  /**
    For every message, split field and buffer size: 0 means that the buffer holds the record of every
    line, -1 that it holds those of some first lines, then one cut inside its last field and marked.
    Either way it is a sequence of whole records.
   */
  lemma BufferHoldsWholeRecords(r: Row, split: int, size: nat)
    requires size > 0 && GoodRow(r)
    ensures var o, lines := Encode(r, split, size), RecordLines(r, split);
      && o.code in {0, -1, 1}
      && (o.code == 0 <==> FitFrom(r, split, lines, 0, size))
      && (o.code == 0 ==> WholeRecords(o.text, r, AllTexts(r, split, lines, |lines|)))
      && (o.code == -1 ==> exists i, c :: CutAfter(o.text, r, split, lines, i, c))
  {
    var o, lines := Encode(r, split, size), RecordLines(r, split);
    EncodeIs(r, split, size);
    RecordLinesAreCStrings(r, split);
    if FitFrom(r, split, lines, 0, size) {
      UponIsWhole(r, split, lines, |lines|);
      assert lines[..|lines|] == lines;
    } else {
      var j :| 0 <= j < |lines| && FirstFailure(r, split, lines, 0, j, size) && Stopped(o, r, split, lines, j, size);
      if o.code == -1 {
        StoppedIsCut(o, r, split, lines, j, size);
      }
    }
  }

  /** Everything fits exactly when the whole text does, and the text before the last record leaves room for the mark. */
  lemma FitsIff(r: Row, split: int, size: nat)
    ensures var lines := RecordLines(r, split);
      FitFrom(r, split, lines, 0, size) <==>
        |Records(r, split, lines)| < size && (|lines| > 1 ==> |Upon(r, split, lines, |lines| - 1)| + 8 <= size)
  {
    var lines := RecordLines(r, split);
    var n := |lines|;
    assert lines[..n] == lines;
    if FitFrom(r, split, lines, 0, size) {
      assert !Fails(r, split, lines, n - 1, size);
      assert n > 1 ==> !Fails(r, split, lines, n - 2, size);
    }
    if |Upon(r, split, lines, n)| < size && (n > 1 ==> |Upon(r, split, lines, n - 1)| + 8 <= size) {
      forall j | 0 <= j < n ensures !Fails(r, split, lines, j, size) {
        if j + 1 < n { UponGrows(r, split, lines, j + 1, n - 1); }
      }
    }
  }

  /** Nothing usable comes out exactly when the first record fails and its last field leaves no room for the mark. */
  lemma GivesUpIff(r: Row, split: int, size: nat)
    requires size > 0 && r.cells != []
    ensures var lines := RecordLines(r, split);
      Encode(r, split, size).code == 1 <==> Fails(r, split, lines, 0, size) && !RoomInLast(r, split, lines[0], 0, size)
  {
    var o, lines := Encode(r, split, size), RecordLines(r, split);
    EncodeIs(r, split, size);
    if !(FitFrom(r, split, lines, 0, size) && o == Outcome(0, Records(r, split, lines))) {
      var j :| 0 <= j < |lines| && FirstFailure(r, split, lines, 0, j, size) && Stopped(o, r, split, lines, j, size);
    }
  }

  // ---------------------------------------------------------------- the separators of a whole record

  function Count(s: string, c: char): nat {
    if s == "" then 0 else Count(s[..|s| - 1], c) + if s[|s| - 1] == c then 1 else 0
  }

  lemma {:induction false} CountAppend(s: string, t: string, c: char)
    ensures Count(s + t, c) == Count(s, c) + Count(t, c)
  {
    if t == "" {
      assert s + t == s;
    } else {
      CountAppend(s, t[..|t| - 1], c);
      assert (s + t)[..|s + t| - 1] == s + t[..|t| - 1];
    }
  }

  lemma {:induction false} CountClean(s: string, c: char)
    requires Clean(s) && Special(c)
    ensures Count(s, c) == 0
  {
    if s != "" { CountClean(s[..|s| - 1], c); }
  }

  lemma {:induction false} CountFlat(fs: seq<string>, c: char)
    requires CleanAll(fs) && Special(c)
    ensures Count(Flat(fs), c) == if c == '#' then |fs| else 0
  {
    if fs != [] {
      var f := fs[|fs| - 1];
      CountFlat(fs[..|fs| - 1], c);
      CountAppend(Flat(fs[..|fs| - 1]), "#" + f, c);
      CountAppend("#", f, c);
      CountClean(f, c);
      assert Count("#", c) == if c == '#' then 1 else 0;
    }
  }

  /** A whole record has one `*`, one `#` per field and one line end, the first and last at its ends. */
  lemma SeparatorsOfWhole(r: Row, fs: seq<string>, c: char)
    requires GoodRow(r) && Complete(fs, r) && Special(c)
    ensures var rec := Whole(r.version, fs);
      && Count(rec, c) == (if c == '#' then |r.cells| else 1)
      && |rec| > |r.version| && rec[..|r.version| + 1] == "*" + r.version && rec[|rec| - 1] == '\n'
  {
    var head := "*" + r.version;
    CountAppend(head + Flat(fs), "\n", c);
    CountAppend(head, Flat(fs), c);
    CountAppend("*", r.version, c);
    CountClean(r.version, c);
    CountFlat(fs, c);
    assert Count("*", c) == if c == '*' then 1 else 0;
    assert Count("\n", c) == if c == '\n' then 1 else 0;
  }
}
