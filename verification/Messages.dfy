/** Log messages: protocols, field values, and the text a record is made of. */
module Messages {
  import opened Options
  import opened Decimals

  datatype FieldType = StringType | IntType | DoubleType
  datatype Field = Field(typ: FieldType, name: string)
  datatype Protocol = Protocol(version: string, fields: seq<Field>)

  /** A field value; `NullString` is a string field marked as defined whose pointer is NULL. */
  datatype Value = Undefined | NullString | StringValue(text: string) | IntValue(n: int) | DoubleValue(x: real)

  datatype Message = Message(protocol: Protocol, values: seq<Value>)

  predicate Special(c: char) { c == '*' || c == '#' || c == '\n' }

  /** No character that has a meaning in a record, and no NUL. */
  ghost predicate Clean(s: string) {
    forall i :: 0 <= i < |s| ==> !Special(s[i]) && s[i] != '\0'
  }

  ghost predicate CString(s: string) {
    forall i :: 0 <= i < |s| ==> s[i] != '\0'
  }

  ghost predicate OneLine(s: string) {
    forall i :: 0 <= i < |s| ==> s[i] != '\n'
  }

  ghost predicate ValueFits(v: Value, t: FieldType) {
    match v
    case Undefined => true
    case NullString => t == StringType
    case StringValue(s) => t == StringType && CString(s)
    case IntValue(_) => t == IntType
    case DoubleValue(_) => t == DoubleType
  }

  ghost predicate GoodProtocol(p: Protocol) {
    p.fields != [] && Clean(p.version)
  }

  ghost predicate GoodMessage(m: Message) {
    && GoodProtocol(m.protocol)
    && |m.values| == |m.protocol.fields|
    && forall i :: 0 <= i < |m.values| ==> ValueFits(m.values[i], m.protocol.fields[i].typ)
  }

  // ---------------------------------------------------------------- text of a value

  /** `*`, `#` and line ends become `?`. */
  function Sanitize(s: string): string {
    if s == [] then [] else [if Special(s[0]) then '?' else s[0]] + Sanitize(s[1..])
  }

  const MILLION: int := 1000000

  /** A number of millionths rounded to the nearest, ties to even. */
  function RoundEven(x: real): int {
    var f := x.Floor;
    var d := x - f as real;
    if d < 0.5 then f else if d > 0.5 then f + 1 else if f % 2 == 0 then f else f + 1
  }

  /** The only integer at most half away, and even when two are. */
  lemma RoundEvenIff(x: real, n: int)
    ensures n == RoundEven(x) <==>
      && x - 0.5 <= n as real <= x + 0.5
      && ((n as real == x - 0.5 || n as real == x + 0.5) ==> n % 2 == 0)
  {
  }

  function Micros(x: real): int { RoundEven(x * 1000000.0) }

  /** The double that is printed is within half a millionth of the one given. */
  lemma MicrosNearest(x: real)
    ensures x - 0.0000005 <= Micros(x) as real / 1000000.0 <= x + 0.0000005
  {
    RoundEvenIff(x * 1000000.0, Micros(x));
  }

  /** A number of millionths, with the point. */
  function ShowMicros(a: nat): string { Digits(a / MILLION) + ("." + Padded(a % MILLION, 6)) }

  function SignedMicros(negative: bool, m: int): string {
    (if negative then "-" else "") + ShowMicros(if m < 0 then -m else m)
  }

  /** `%lf` */
  function ShowDouble(x: real): string { SignedMicros(x < 0.0, Micros(x)) }

  /** What is printed for a value: nothing, a string (which may be NULL), or the text of a number. */
  datatype Cell = Empty | Null | Text(text: string) | Number(shown: string)

  function CellOf(v: Value): Cell {
    match v
    case Undefined => Empty
    case NullString => Null
    case StringValue(s) => Text(s)
    case IntValue(n) => Number(Show(n))
    case DoubleValue(x) => Number(ShowDouble(x))
  }

  /** A message as the encoder prints it. */
  datatype Row = Row(version: string, cells: seq<Cell>)

  function RowOf(m: Message): (r: Row)
    ensures |r.cells| == |m.values|
    ensures forall i :: 0 <= i < |m.values| ==> r.cells[i] == CellOf(m.values[i])
  {
    Row(m.protocol.version, seq(|m.values|, i requires 0 <= i < |m.values| => CellOf(m.values[i])))
  }

  ghost predicate GoodCell(c: Cell) {
    match c
    case Text(s) => CString(s)
    case Number(s) => Clean(s)
    case _ => true
  }

  ghost predicate GoodRow(r: Row) {
    && Clean(r.version) && r.cells != []
    && forall i :: 0 <= i < |r.cells| ==> GoodCell(r.cells[i])
  }

  // ---------------------------------------------------------------- records

  /** Lines of a text: the parts between line ends. */
  function Lines(s: string): (r: seq<string>)
    ensures r != []
    decreases |s|
  {
    match LineBreak(s)
    case None => [s]
    case Some(n) => [s[..n]] + Lines(s[n + 1..])
  }

  function LineBreak(s: string): (r: Option<nat>)
    ensures r.Some? ==> r.value < |s| && s[r.value] == '\n'
  {
    if s == [] then None
    else if s[0] == '\n' then Some(0)
    else match LineBreak(s[1..]) case None => None case Some(n) => Some(n + 1)
  }

  /** Is the field one whose lines are to be split? */
  predicate Splits(r: Row, split: int) {
    0 <= split < |r.cells| && r.cells[split].Text?
  }

  /** The lines to make records of: those of the split field, or a single one. */
  function RecordLines(r: Row, split: int): (ls: seq<string>)
    ensures ls != []
  {
    if Splits(r, split) then Lines(r.cells[split].text) else [""]
  }

  function FieldText(r: Row, split: int, line: string, i: nat): string
    requires i < |r.cells|
  {
    match r.cells[i]
    case Empty => ""
    case Null => ""
    case Text(s) => Sanitize(if i == split then line else s)
    case Number(s) => s
  }

  /** `#` and the text of each field, up to field `n`. */
  function FieldsText(r: Row, split: int, line: string, n: nat): string
    requires n <= |r.cells|
  {
    if n == 0 then "" else FieldsText(r, split, line, n - 1) + ("#" + FieldText(r, split, line, n - 1))
  }

  /** The record of one line, without its line end. */
  function RecordBody(r: Row, split: int, line: string): string {
    ("*" + r.version) + FieldsText(r, split, line, |r.cells|)
  }

  function Record(r: Row, split: int, line: string): string { RecordBody(r, split, line) + "\n" }

  function Records(r: Row, split: int, lines: seq<string>): string {
    if lines == [] then ""
    else Records(r, split, lines[..|lines| - 1]) + Record(r, split, lines[|lines| - 1])
  }

  // ---------------------------------------------------------------- texts are clean

  lemma {:induction false} SanitizeLength(s: string)
    ensures |Sanitize(s)| == |s|
  {
    if s != [] { SanitizeLength(s[1..]); }
  }

  lemma {:induction false} SanitizeClean(s: string)
    requires CString(s)
    ensures Clean(Sanitize(s))
  {
    if s != [] { SanitizeClean(s[1..]); }
  }

  lemma {:induction false} SanitizePrefix(s: string, n: nat)
    requires n <= |s|
    ensures |Sanitize(s)| == |s| && Sanitize(s[..n]) == Sanitize(s)[..n]
  {
    SanitizeLength(s);
    if n > 0 {
      SanitizePrefix(s[1..], n - 1);
      assert s[..n][0] == s[0] && s[..n][1..] == s[1..][..n - 1];
    }
  }

  lemma ShowClean(n: int)
    ensures Clean(Show(n))
  {
    ShownChars(n);
  }

  lemma ShowMicrosClean(a: nat)
    ensures Clean(ShowMicros(a))
  {
    DigitsAreDigits(a / MILLION);
    MillionIsTenToSix();
    PaddedValue(a % MILLION, 6);
  }

  lemma MillionIsTenToSix()
    ensures TenTo(6) == MILLION
  {
    assert TenTo(1) == 10 && TenTo(2) == 100 && TenTo(3) == 1000 && TenTo(4) == 10000 && TenTo(5) == 100000;
  }

  lemma ShowDoubleClean(x: real)
    ensures Clean(ShowDouble(x))
  {
    var m := Micros(x);
    ShowMicrosClean(if m < 0 then -m else m);
  }

  lemma CellOfGood(v: Value, t: FieldType)
    requires ValueFits(v, t)
    ensures GoodCell(CellOf(v))
  {
    match v
    case IntValue(n) => ShowClean(n);
    case DoubleValue(x) => ShowDoubleClean(x);
    case _ =>
  }

  lemma RowOfGood(m: Message)
    requires GoodMessage(m)
    ensures GoodRow(RowOf(m))
  {
    forall i | 0 <= i < |m.values| ensures GoodCell(RowOf(m).cells[i]) {
      CellOfGood(m.values[i], m.protocol.fields[i].typ);
    }
  }

  lemma FieldTextClean(r: Row, split: int, line: string, i: nat)
    requires GoodRow(r) && i < |r.cells| && CString(line)
    ensures Clean(FieldText(r, split, line, i))
  {
    match r.cells[i]
    case Text(s) => SanitizeClean(if i == split then line else s);
    case _ =>
  }
}
