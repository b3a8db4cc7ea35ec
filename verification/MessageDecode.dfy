/** Decoding a record, and the round trip with the encoded text. */
module MessageDecode {
  import opened Options
  import opened Decimals
  import opened Messages

  // ---------------------------------------------------------------- scanning a decimal number

  /** The first `k` digits behind the point, as a fraction. */
  function Fraction(f: string, k: nat): real
    requires k <= |f|
  {
    Over(ValueOf(f[..k]) as real, k)
  }

  /** A number divided `n` times by ten. */
  function Over(x: real, n: nat): real { if n == 0 then x else Over(x, n - 1) / 10.0 }

  /** A number multiplied `n` times by ten. */
  function Times(x: real, n: nat): real { if n == 0 then x else Times(x, n - 1) * 10.0 }

  /** What follows the digits before the point; at least one digit is needed. */
  function AfterDigits(some: bool, w: real, rest: string): Option<(real, string)> {
    if rest != [] && rest[0] == '.' then
      var j := DigitRun(rest[1..]);
      if !some && j == 0 then None else Some((w + Fraction(rest[1..], j), rest[1..][j..]))
    else if some then Some((w, rest))
    else None
  }

  /** Digits, possibly with a point among them, and what follows. */
  function Mantissa(s: string): Option<(real, string)> {
    var k := DigitRun(s);
    AfterDigits(k > 0, ValueOf(s[..k]) as real, s[k..])
  }

  /** An exponent, if there is one; its letter must be followed by a number. */
  function Scaled(x: real, rest: string): Option<real> {
    if rest == [] || (rest[0] != 'e' && rest[0] != 'E') then Some(x)
    else
      var signed := |rest| > 1 && (rest[1] == '-' || rest[1] == '+');
      match ScanDigits(if signed then rest[2..] else rest[1..])
      case None => None
      case Some((n, _)) =>
        if signed && rest[1] == '-' then Some(Over(x, n)) else Some(Times(x, n))
  }

  function ScanUnsignedReal(s: string): Option<real> {
    match Mantissa(s) case None => None case Some((x, rest)) => Scaled(x, rest)
  }

  /** `sscanf("%lf")` on decimal notation. */
  function ScanReal(s: string): Option<real> {
    var t := SkipSpaces(s);
    if t != [] && t[0] == '-' then
      match ScanUnsignedReal(t[1..]) case None => None case Some(v) => Some(0.0 - v)
    else if t != [] && t[0] == '+' then ScanUnsignedReal(t[1..])
    else ScanUnsignedReal(t)
  }

  // ---------------------------------------------------------------- decoding

  /** Position of the first `#`. */
  function HashAt(s: string): (r: Option<nat>)
    ensures r.Some? ==> r.value < |s| && s[r.value] == '#'
  {
    if s == [] then None
    else if s[0] == '#' then Some(0)
    else match HashAt(s[1..]) case None => None case Some(n) => Some(n + 1)
  }

  /** Empty strings, and numbers that are not positive or cannot be read, are undefined. */
  function DecodeValue(t: FieldType, s: string): Value {
    if s == "" then Undefined
    else match t
      case StringType => StringValue(s)
      case IntType =>
        (match ScanInt(s) case None => Undefined case Some((n, _)) => if n > 0 then IntValue(n) else Undefined)
      case DoubleType =>
        (match ScanReal(s) case None => Undefined case Some(x) => if x > 0.0 then DoubleValue(x) else Undefined)
  }

  /** The text up to a NUL. */
  function UpToNul(s: string): string {
    if s == [] || s[0] == '\0' then [] else [s[0]] + UpToNul(s[1..])
  }

  /** One value per field; the last field takes all that is left. */
  function DecodeFields(fields: seq<Field>, s: string): Option<seq<Value>>
    requires fields != []
    decreases |fields|
  {
    if |fields| == 1 then Some([DecodeValue(fields[0].typ, UpToNul(s))])
    else
      match HashAt(s)
      case None => None
      case Some(n) =>
        match DecodeFields(fields[1..], s[n + 1..])
        case None => None
        case Some(vs) => Some([DecodeValue(fields[0].typ, s[..n])] + vs)
  }

  function FindProtocol(protocols: seq<Protocol>, version: string): (r: Option<Protocol>)
    ensures r.Some? ==> r.value in protocols && r.value.version == version
  {
    if protocols == [] then None
    else if protocols[0].version == version then Some(protocols[0])
    else FindProtocol(protocols[1..], version)
  }

  /** `infoLog_decode` on one blob, before conversion. */
  function Decode(protocols: seq<Protocol>, s: string): Option<Message> {
    if |s| < 2 || s[0] != '*' then None
    else
      match HashAt(s[1..])
      case None => None
      case Some(n) =>
        var p := FindProtocol(protocols, UpToNul(s[1..][..n]));
        if p.None? || p.value.fields == [] then None
        else
          match DecodeFields(p.value.fields, s[1..][n + 1..])
          case None => None
          case Some(vs) => Some(Message(p.value, vs))
  }

  /** How many separators there are. */
  function Hashes(s: string): nat {
    if s == [] then 0 else (if s[0] == '#' then 1 else 0) + Hashes(s[1..])
  }

  lemma {:induction false} HashesFrom(s: string)
    ensures if HashAt(s).Some? then Hashes(s) == 1 + Hashes(s[HashAt(s).value + 1..]) else Hashes(s) == 0
  {
    if s != [] && s[0] != '#' {
      HashesFrom(s[1..]);
      if HashAt(s).Some? { assert s[1..][HashAt(s[1..]).value + 1..] == s[HashAt(s).value + 1..]; }
    }
  }

  /** The fields can be read if and only if there is a separator for each but the last. */
  lemma {:induction false} FieldsReadIff(fields: seq<Field>, s: string)
    requires fields != []
    ensures DecodeFields(fields, s).Some? <==> Hashes(s) >= |fields| - 1
    ensures DecodeFields(fields, s).Some? ==> |DecodeFields(fields, s).value| == |fields|
    decreases |fields|
  {
    if |fields| > 1 {
      HashesFrom(s);
      if HashAt(s).Some? { FieldsReadIff(fields[1..], s[HashAt(s).value + 1..]); }
    }
  }

  /** A blob decodes if and only if it has the marker, a known version and as many separators as that protocol has fields. */
  lemma DecodesIff(protocols: seq<Protocol>, s: string)
    requires forall p :: p in protocols ==> p.fields != []
    ensures Decode(protocols, s).Some? <==>
      && |s| > 1 && s[0] == '*' && HashAt(s[1..]).Some?
      && var p := FindProtocol(protocols, UpToNul(s[1..][..HashAt(s[1..]).value]));
         p.Some? && Hashes(s[1..]) >= |p.value.fields|
  {
    if |s| > 1 && s[0] == '*' {
      HashesFrom(s[1..]);
      if HashAt(s[1..]).Some? {
        var n := HashAt(s[1..]).value;
        var p := FindProtocol(protocols, UpToNul(s[1..][..n]));
        if p.Some? { FieldsReadIff(p.value.fields, s[1..][n + 1..]); }
      }
    }
  }

  // ---------------------------------------------------------------- what comes back

  /** The value that survives being written and read. */
  function Normalized(v: Value): Value {
    match v
    case Undefined => Undefined
    case NullString => Undefined
    case StringValue(s) => if s == "" then Undefined else StringValue(Sanitize(s))
    case IntValue(n) => if n > 0 then IntValue(n) else Undefined
    case DoubleValue(x) => if Micros(x) > 0 then DoubleValue(Micros(x) as real / 1000000.0) else Undefined
  }

  /** Field `i` of the message the record of `line` stands for. */
  function FieldBack(m: Message, split: int, line: string, i: nat): Value
    requires i < |m.values|
  {
    if i == split && m.values[i].StringValue? then Normalized(StringValue(line)) else Normalized(m.values[i])
  }

  function FieldsBack(m: Message, split: int, line: string, i: nat): (r: seq<Value>)
    requires i <= |m.values|
    ensures |r| == |m.values| - i
    decreases |m.values| - i
  {
    if i == |m.values| then [] else [FieldBack(m, split, line, i)] + FieldsBack(m, split, line, i + 1)
  }

  // ---------------------------------------------------------------- the round trip of a double

  lemma FractionOfPadded(n: nat)
    requires n < MILLION
    ensures DigitRun(Padded(n, 6)) == 6 && Fraction(Padded(n, 6), 6) == n as real / 1000000.0
  {
    var f := Padded(n, 6);
    MillionIsTenToSix();
    PaddedValue(n, 6);
    DigitRunOf(f, "");
    assert f + "" == f && f[..6] == f;
    SixTimesOver(n as real);
  }

  lemma SixTimesOver(x: real)
    ensures Over(x, 6) == x / 1000000.0
  {
    assert Over(x, 1) == x / 10.0 && Over(x, 2) == x / 100.0 && Over(x, 3) == x / 1000.0;
    assert Over(x, 4) == x / 10000.0 && Over(x, 5) == x / 100000.0;
  }

  lemma PointAndDigits(w: real, rest: string, f: string, j: nat)
    requires rest != [] && rest[0] == '.' && rest[1..] == f && DigitRun(f) == j
    ensures AfterDigits(true, w, rest) == Some((w + Fraction(f, j), f[j..]))
  {
  }

  lemma DigitsThenPoint(w: nat, f: string)
    ensures var s := Digits(w) + ("." + f); var k := |Digits(w)|;
      DigitRun(s) == k > 0 && s[..k] == Digits(w) && s[k..] == "." + f
  {
    DigitsAreDigits(w);
    DigitRunOf(Digits(w), "." + f);
  }

  lemma ScanMicros(a: nat)
    ensures ScanUnsignedReal(ShowMicros(a)) == Some(a as real / 1000000.0)
  {
    var w, f := a / MILLION, Padded(a % MILLION, 6);
    FractionOfPadded(a % MILLION);
    DigitsThenPoint(w, f);
    assert ("." + f)[1..] == f && f[6..] == "";
    PointAndDigits(w as real, "." + f, f, 6);
    ValueOfDigits(w);
    MicrosSum(a);
  }

  lemma MicrosSum(a: nat)
    ensures (a / MILLION) as real + (a % MILLION) as real / 1000000.0 == a as real / 1000000.0
  {
    assert a == (a / MILLION) * MILLION + a % MILLION;
  }

  /** A sign in front of an unsigned number. */
  lemma ScanSigned(negative: bool, t: string, u: string, v: real)
    requires u != [] && IsDigit(u[0]) && ScanUnsignedReal(u) == Some(v) && t == if negative then "-" + u else u
    ensures t != "" && ScanReal(t) == Some(if negative then 0.0 - v else v)
  {
    if negative { assert t[1..] == u; }
  }

  lemma MicrosStartWithDigit(a: nat)
    ensures ShowMicros(a) != "" && IsDigit(ShowMicros(a)[0])
  {
  }

  lemma SignedText(negative: bool, m: int, a: nat)
    requires a == if m < 0 then -m else m
    ensures SignedMicros(negative, m) == if negative then "-" + ShowMicros(a) else ShowMicros(a)
  {
  }

  lemma SignedValue(negative: bool, m: int, a: nat)
    requires (if negative then m <= 0 else m >= 0) && a == if m < 0 then -m else m
    ensures m as real / 1000000.0 == if negative then 0.0 - a as real / 1000000.0 else a as real / 1000000.0
  {
  }

  lemma SignedMicrosBack(negative: bool, m: int, t: string, a: nat, u: string)
    requires (if negative then m <= 0 else m >= 0) && a == if m < 0 then -m else m
    requires t == (if negative then "-" + u else u) && u != [] && IsDigit(u[0])
    requires ScanUnsignedReal(u) == Some(a as real / 1000000.0)
    ensures t != "" && ScanReal(t) == Some(m as real / 1000000.0)
  {
    ScanSigned(negative, t, u, a as real / 1000000.0);
    SignedValue(negative, m, a);
  }

  lemma MicrosSign(x: real)
    ensures if x < 0.0 then Micros(x) <= 0 else Micros(x) >= 0
  {
  }

  lemma MicrosBack(negative: bool, m: int)
    requires if negative then m <= 0 else m >= 0
    ensures SignedMicros(negative, m) != "" && ScanReal(SignedMicros(negative, m)) == Some(m as real / 1000000.0)
  {
    var a := if m < 0 then -m else m;
    ScanMicros(a);
    MicrosStartWithDigit(a);
    SignedText(negative, m, a);
    SignedMicrosBack(negative, m, SignedMicros(negative, m), a, ShowMicros(a));
  }

  /** A double written with six decimals reads back as the nearest multiple of a millionth. */
  lemma DoubleRoundTrip(x: real)
    ensures ShowDouble(x) != "" && ScanReal(ShowDouble(x)) == Some(Micros(x) as real / 1000000.0)
  {
    MicrosSign(x);
    MicrosBack(x < 0.0, Micros(x));
  }

  // ---------------------------------------------------------------- the round trip of a record

  /** What is written for a number decodes to the number, normalized. */
  lemma NumberRoundTrip(v: Value, t: FieldType)
    requires ValueFits(v, t) && CellOf(v).Number?
    ensures DecodeValue(t, CellOf(v).shown) == Normalized(v)
  {
    match v
    case IntValue(n) =>
      ScanShown(n, "");
      assert Show(n) + "" == Show(n);
    case DoubleValue(x) => DoubleRoundTrip(x);
  }

  lemma FieldRoundTrip(m: Message, split: int, line: string, i: nat)
    requires GoodMessage(m) && i < |m.values| && CString(line)
    ensures DecodeValue(m.protocol.fields[i].typ, FieldText(RowOf(m), split, line, i)) == FieldBack(m, split, line, i)
  {
    match m.values[i]
    case StringValue(s) => SanitizeLength(if i == split then line else s);
    case IntValue(_) => NumberRoundTrip(m.values[i], m.protocol.fields[i].typ);
    case DoubleValue(_) => NumberRoundTrip(m.values[i], m.protocol.fields[i].typ);
    case _ =>
  }

  /** The texts of the fields from `i` on, separated by `#`. */
  function TailText(r: Row, split: int, line: string, i: nat): string
    requires i < |r.cells|
    decreases |r.cells| - i
  {
    if i == |r.cells| - 1 then FieldText(r, split, line, i)
    else FieldText(r, split, line, i) + ("#" + TailText(r, split, line, i + 1))
  }

  lemma {:induction false} FieldsThenTail(r: Row, split: int, line: string, i: nat)
    requires i < |r.cells|
    ensures FieldsText(r, split, line, |r.cells|) == FieldsText(r, split, line, i) + ("#" + TailText(r, split, line, i))
    decreases |r.cells| - i
  {
    if i < |r.cells| - 1 {
      FieldsThenTail(r, split, line, i + 1);
    }
  }

  lemma {:induction false} HashAfter(a: string, rest: string)
    requires Clean(a)
    ensures HashAt(a + ("#" + rest)) == Some(|a|)
  {
    if a == [] {
      assert a + ("#" + rest) == "#" + rest;
    } else {
      HashAfter(a[1..], rest);
      assert (a + ("#" + rest))[0] == a[0] && (a + ("#" + rest))[1..] == a[1..] + ("#" + rest);
    }
  }

  /** The text, or the text and a NUL with anything behind it. */
  ghost predicate EndsAt(s: string, text: string) {
    text <= s && (|s| == |text| || s[|text|] == '\0')
  }

  lemma {:induction false} UpToNulEnds(s: string, text: string)
    requires CString(text)
    ensures UpToNul(s) == text <==> EndsAt(s, text)
  {
    if text != [] && s != [] && s[0] == text[0] {
      UpToNulEnds(s[1..], text[1..]);
      assert s == [s[0]] + s[1..] && text == [text[0]] + text[1..];
    }
  }

  /** The end of the last part is the end of the whole. */
  lemma EndsBehind(s: string, a: string, tail: string)
    requires EndsAt(s, a + tail)
    ensures EndsAt(s[|a|..], tail) && s == a + s[|a|..]
  {
    assert (a + tail)[..|a|] == a && (a + tail)[|a|..] == tail;
    assert s[..|a + tail|] == a + tail;
    assert s[..|a|] == a;
  }

  lemma DecodeFieldsStep(fields: seq<Field>, a: string, rest: string, vs: seq<Value>)
    requires |fields| > 1 && Clean(a) && DecodeFields(fields[1..], rest) == Some(vs)
    ensures DecodeFields(fields, a + ("#" + rest)) == Some([DecodeValue(fields[0].typ, a)] + vs)
  {
    HashAfter(a, rest);
    var s := a + ("#" + rest);
    assert s[..|a|] == a && s[|a| + 1..] == rest;
  }

  lemma CutField(s: string, a: string, rest: string) returns (z: string)
    requires EndsAt(s, a + ("#" + rest))
    ensures EndsAt(z, rest) && s == a + ("#" + z)
  {
    assert a + ("#" + rest) == (a + "#") + rest;
    EndsBehind(s, a + "#", rest);
    z := s[|a + "#"|..];
    assert (a + "#") + z == a + ("#" + z);
  }

  lemma DecodeLastField(fields: seq<Field>, a: string, s: string, v: Value)
    requires |fields| == 1 && Clean(a) && EndsAt(s, a) && DecodeValue(fields[0].typ, a) == v
    ensures DecodeFields(fields, s) == Some([v])
  {
    UpToNulEnds(s, a);
  }

  lemma DecodeOneMore(fields: seq<Field>, i: nat, a: string, z: string, v: Value, vs: seq<Value>)
    requires i + 1 < |fields| && Clean(a) && DecodeValue(fields[i].typ, a) == v && DecodeFields(fields[i + 1..], z) == Some(vs)
    ensures DecodeFields(fields[i..], a + ("#" + z)) == Some([v] + vs)
  {
    assert fields[i..][1..] == fields[i + 1..];
    DecodeFieldsStep(fields[i..], a, z, vs);
  }

  lemma FieldsBackSplit(m: Message, split: int, line: string, i: nat)
    requires i < |m.values|
    ensures FieldsBack(m, split, line, i) == [FieldBack(m, split, line, i)] + FieldsBack(m, split, line, i + 1)
    ensures i == |m.values| - 1 ==> FieldsBack(m, split, line, i) == [FieldBack(m, split, line, i)]
  {
  }

  lemma FieldFacts(m: Message, split: int, line: string, i: nat)
    requires GoodMessage(m) && i < |m.values| && CString(line)
    ensures |m.values| == |m.protocol.fields| && Clean(FieldText(RowOf(m), split, line, i))
    ensures DecodeValue(m.protocol.fields[i].typ, FieldText(RowOf(m), split, line, i)) == FieldBack(m, split, line, i)
  {
    RowOfGood(m);
    FieldTextClean(RowOf(m), split, line, i);
    FieldRoundTrip(m, split, line, i);
  }

  lemma {:induction false} TailRoundTrip(m: Message, split: int, line: string, i: nat, s: string)
    requires GoodMessage(m) && i < |m.values| && CString(line) && EndsAt(s, TailText(RowOf(m), split, line, i))
    ensures DecodeFields(m.protocol.fields[i..], s) == Some(FieldsBack(m, split, line, i))
    decreases |m.values| - i
  {
    var fields, a, v := m.protocol.fields, FieldText(RowOf(m), split, line, i), FieldBack(m, split, line, i);
    FieldFacts(m, split, line, i);
    FieldsBackSplit(m, split, line, i);
    if i == |m.values| - 1 {
      DecodeLastField(fields[i..], a, s, v);
    } else {
      var z := CutField(s, a, TailText(RowOf(m), split, line, i + 1));
      TailRoundTrip(m, split, line, i + 1, z);
      DecodeOneMore(fields, i, a, z, v, FieldsBack(m, split, line, i + 1));
    }
  }

  /** The table finds the message's protocol under its version. */
  ghost predicate Registered(protocols: seq<Protocol>, p: Protocol) {
    FindProtocol(protocols, p.version) == Some(p)
  }

  lemma DecodeRecord(protocols: seq<Protocol>, p: Protocol, tail: string, vs: seq<Value>)
    requires GoodProtocol(p) && Registered(protocols, p) && DecodeFields(p.fields, tail) == Some(vs)
    ensures Decode(protocols, "*" + (p.version + ("#" + tail))) == Some(Message(p, vs))
  {
    var t := p.version + ("#" + tail);
    var s := "*" + t;
    assert s[1..] == t;
    HashAfter(p.version, tail);
    UpToNulEnds(p.version, p.version);
    assert t[..|p.version|] == p.version && t[|p.version| + 1..] == tail;
  }

  lemma CutMarker(s: string, v: string, tail: string) returns (z: string)
    requires EndsAt(s, "*" + (v + ("#" + tail)))
    ensures EndsAt(z, tail) && s == "*" + (v + ("#" + z))
  {
    var front := "*" + v + "#";
    assert "*" + (v + ("#" + tail)) == front + tail;
    EndsBehind(s, front, tail);
    z := s[|front|..];
    assert front + z == "*" + (v + ("#" + z));
  }

  /**
    Decoding the record of a line, or the record with a NUL and anything behind it, gives the message
    back with the line in the split field: every other field equal, up to the normalization.
   */
  lemma RecordRoundTrip(protocols: seq<Protocol>, m: Message, split: int, line: string, s: string)
    requires GoodMessage(m) && Registered(protocols, m.protocol) && CString(line)
    requires EndsAt(s, RecordBody(RowOf(m), split, line))
    ensures Decode(protocols, s) == Some(Message(m.protocol, FieldsBack(m, split, line, 0)))
  {
    BodyIs(RowOf(m), split, line);
    var z := CutMarker(s, m.protocol.version, TailText(RowOf(m), split, line, 0));
    TailRoundTrip(m, split, line, 0, z);
    assert m.protocol.fields[0..] == m.protocol.fields;
    DecodeRecord(protocols, m.protocol, z, FieldsBack(m, split, line, 0));
  }

  lemma BodyIs(r: Row, split: int, line: string)
    requires r.cells != []
    ensures RecordBody(r, split, line) == "*" + (r.version + ("#" + TailText(r, split, line, 0)))
  {
    var v, tail := r.version, TailText(r, split, line, 0);
    FieldsThenTail(r, split, line, 0);
    assert FieldsText(r, split, line, |r.cells|) == "#" + tail;
    assert ("*" + v) + ("#" + tail) == "*" + (v + ("#" + tail));
  }
}
