/** Decimal text as `printf("%d")` writes it and `scanf("%d")` reads it back. */
module Decimals {
  import opened Options

  predicate IsDigit(c: char) { '0' <= c <= '9' }

  predicate IsSpace(c: char) { c == ' ' || '\t' <= c <= '\r' }

  ghost predicate AllDigits(s: string) {
    forall i :: 0 <= i < |s| ==> IsDigit(s[i])
  }

  function DigitChar(d: nat): (c: char)
    requires d < 10
    ensures IsDigit(c) && DigitValue(c) == d
  {
    '0' + d as char
  }

  function DigitValue(c: char): nat {
    if IsDigit(c) then (c - '0') as nat else 0
  }

  function Digits(n: nat): (s: string)
    ensures s != [] && IsDigit(s[0])
  {
    if n < 10 then [DigitChar(n)] else Digits(n / 10) + [DigitChar(n % 10)]
  }

  /** `%d` */
  function Show(n: int): (s: string)
    ensures s != [] && !IsSpace(s[0])
  {
    if n < 0 then "-" + Digits(-n) else Digits(n)
  }

  /** The value of a run of digits. */
  function ValueOf(s: string): nat {
    if s == [] then 0 else 10 * ValueOf(s[..|s| - 1]) + DigitValue(s[|s| - 1])
  }

  lemma {:induction false} DigitsAreDigits(n: nat)
    ensures AllDigits(Digits(n))
  {
    if n >= 10 {
      DigitsAreDigits(n / 10);
    }
  }

  /** What is shown is a sign at most, and digits. */
  lemma ShownChars(n: int)
    ensures forall i :: 0 <= i < |Show(n)| ==> IsDigit(Show(n)[i]) || Show(n)[i] == '-'
  {
    DigitsAreDigits(if n < 0 then -n else n);
  }

  lemma {:induction false} ValueOfDigits(n: nat)
    ensures ValueOf(Digits(n)) == n
  {
    if n >= 10 {
      ValueOfDigits(n / 10);
      assert Digits(n)[..|Digits(n)| - 1] == Digits(n / 10);
    }
  }

  function TenTo(k: nat): (r: nat)
    ensures r > 0
  {
    if k == 0 then 1 else 10 * TenTo(k - 1)
  }

  /** The last `width` digits, with leading zeros. */
  function Padded(n: nat, width: nat): (s: string)
    ensures |s| == width
  {
    if width == 0 then "" else Padded(n / 10, width - 1) + [DigitChar(n % 10)]
  }

  /** `%0<width>d` of a number that fits keeps its value. */
  lemma {:induction false} PaddedValue(n: nat, width: nat)
    requires n < TenTo(width)
    ensures ValueOf(Padded(n, width)) == n && AllDigits(Padded(n, width))
  {
    if width > 0 {
      PaddedValue(n / 10, width - 1);
      assert Padded(n, width)[..width - 1] == Padded(n / 10, width - 1);
    }
  }

  /** Length of the run of digits at the start. */
  function DigitRun(s: string): (n: nat)
    ensures n <= |s|
  {
    if s == [] || !IsDigit(s[0]) then 0 else DigitRun(s[1..]) + 1
  }

  function SkipSpaces(s: string): (r: string)
    ensures |r| <= |s|
  {
    if s == [] || !IsSpace(s[0]) then s else SkipSpaces(s[1..])
  }

  /** At least one digit; returns the value and what follows. */
  function ScanDigits(s: string): Option<(nat, string)> {
    var n := DigitRun(s);
    if n == 0 then None else Some((ValueOf(s[..n]), s[n..]))
  }

  /** `%d`: white space, an optional sign, at least one digit. */
  function ScanInt(s: string): Option<(int, string)> {
    var t := SkipSpaces(s);
    var signed := t != [] && (t[0] == '-' || t[0] == '+');
    match ScanDigits(if signed then t[1..] else t)
    case None => None
    case Some((v, rest)) => Some((if signed && t[0] == '-' then 0 - v else v, rest))
  }

  lemma {:induction false} DigitRunOf(s: string, rest: string)
    requires AllDigits(s)
    requires rest == [] || !IsDigit(rest[0])
    ensures DigitRun(s + rest) == |s|
  {
    if s == [] {
      assert s + rest == rest;
    } else {
      DigitRunOf(s[1..], rest);
      assert (s + rest)[0] == s[0] && (s + rest)[1..] == s[1..] + rest;
    }
  }

  lemma ScanDigitsShown(n: nat, rest: string)
    requires rest == [] || !IsDigit(rest[0])
    ensures ScanDigits(Digits(n) + rest) == Some((n, rest))
  {
    var d := Digits(n);
    DigitsAreDigits(n);
    ValueOfDigits(n);
    DigitRunOf(d, rest);
    assert (d + rest)[..|d|] == d && (d + rest)[|d|..] == rest;
  }

  lemma ScanUnsigned(t: string, v: nat, rest: string)
    requires t != [] && IsDigit(t[0]) && ScanDigits(t) == Some((v, rest))
    ensures ScanInt(t) == Some((v, rest))
  {
  }

  /** What `%d` wrote, `%d` reads, up to the first character that is not a digit. */
  lemma ScanShown(n: int, rest: string)
    requires rest == [] || !IsDigit(rest[0])
    ensures ScanInt(Show(n) + rest) == Some((n, rest))
  {
    var d := Digits(if n < 0 then 0 - n else n);
    ScanDigitsShown(if n < 0 then 0 - n else n, rest);
    if n < 0 {
      assert Show(n) + rest == "-" + (d + rest);
    } else {
      ScanUnsigned(d + rest, n, rest);
    }
  }
}
