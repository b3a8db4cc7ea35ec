/** Names of spool files: sorting them sorts the ids while the major id fits its eight digits. */
module SpoolNames {
  import opened Options
  import opened Decimals
  import opened FileIds

  const PREFIX := "samples_"
  const MAJ_WIDTH: nat := 8
  const MIN_WIDTH: nat := 10

  /** `%0<width>d`: a number that does not fit is written in full. */
  function ZeroPadded(n: nat, width: nat): string {
    if n < TenTo(width) then Padded(n, width) else Digits(n)
  }

  /** What follows the prefix. */
  function Numbers(maj: nat, min: nat): string { ZeroPadded(maj, MAJ_WIDTH) + ("_" + ZeroPadded(min, MIN_WIDTH)) }

  /** `TR_cache_file_name` of an id with no negative part. */
  function NameOf(d: FileId): string
    requires d.maj >= 0 && d.min >= 0
  {
    PREFIX + Numbers(d.maj, d.min)
  }

  /** `is_spool_file`: the prefix, a number, an underscore, a number. */
  function ParseName(name: string): Option<FileId> {
    if |name| < |PREFIX| || name[..|PREFIX|] != PREFIX then None
    else ParseNumbers(name[|PREFIX|..])
  }

  function ParseNumbers(s: string): Option<FileId> {
    match ScanInt(s)
    case None => None
    case Some((maj, rest)) =>
      if rest == [] || rest[0] != '_' then None
      else match ScanInt(rest[1..]) case None => None case Some((min, _)) => Some(FileId(maj, min))
  }

  // ---------------------------------------------------------------- reading names back

  lemma ScanPadded(n: nat, width: nat, rest: string)
    requires width > 0 && (rest == [] || !IsDigit(rest[0]))
    ensures ScanInt(ZeroPadded(n, width) + rest) == Some((n, rest))
  {
    var s := ZeroPadded(n, width);
    if n < TenTo(width) {
      PaddedValue(n, width);
    } else {
      DigitsAreDigits(n);
      ValueOfDigits(n);
    }
    assert s != [] && IsDigit(s[0]);
    DigitRunOf(s, rest);
    assert (s + rest)[..|s|] == s && (s + rest)[|s|..] == rest && (s + rest)[0] == s[0];
    ScanUnsigned(s + rest, n, rest);
  }

  lemma NumbersRoundTrip(maj: nat, min: nat)
    ensures ParseNumbers(Numbers(maj, min)) == Some(FileId(maj, min))
  {
    var tail := ZeroPadded(min, MIN_WIDTH);
    ScanPadded(maj, MAJ_WIDTH, "_" + tail);
    ScanPadded(min, MIN_WIDTH, "");
    assert ("_" + tail)[1..] == tail && tail + "" == tail;
  }

  /** A name stands for one id, whatever its size. */
  lemma NameRoundTrip(d: FileId)
    requires Natural(d)
    ensures ParseName(NameOf(d)) == Some(d)
  {
    var name := NameOf(d);
    assert name[..|PREFIX|] == PREFIX && name[|PREFIX|..] == Numbers(d.maj, d.min);
    NumbersRoundTrip(d.maj, d.min);
  }

  // ---------------------------------------------------------------- the order of names

  /** `strcmp(s, t) < 0` */
  predicate Less(s: string, t: string) {
    if t == [] then false
    else if s == [] then true
    else s[0] < t[0] || (s[0] == t[0] && Less(s[1..], t[1..]))
  }

  lemma {:induction false} LessBehind(p: string, s: string, t: string)
    ensures Less(p + s, p + t) <==> Less(s, t)
  {
    if p == [] {
      assert p + s == s && p + t == t;
    } else {
      LessBehind(p[1..], s, t);
      assert (p + s)[1..] == p[1..] + s && (p + t)[1..] == p[1..] + t;
    }
  }

  /** Numbers of the same width, whatever follows them. */
  lemma {:induction false} LessPadded(a: nat, b: nat, width: nat, s: string, t: string)
    requires a < TenTo(width) && b < TenTo(width)
    ensures Less(Padded(a, width) + s, Padded(b, width) + t) <==> a < b || (a == b && Less(s, t))
    decreases width
  {
    if width == 0 {
      assert Padded(a, 0) + s == s && Padded(b, 0) + t == t;
    } else {
      var c, d := [DigitChar(a % 10)], [DigitChar(b % 10)];
      LessPadded(a / 10, b / 10, width - 1, c + s, d + t);
      assert Padded(a, width) + s == Padded(a / 10, width - 1) + (c + s);
      assert Padded(b, width) + t == Padded(b / 10, width - 1) + (d + t);
    }
  }

  ghost predicate InWidth(d: FileId) { Natural(d) && d.maj < TenTo(MAJ_WIDTH) && d.min < TenTo(MIN_WIDTH) }

  lemma LessNumbers(a: FileId, b: FileId)
    requires InWidth(a) && InWidth(b)
    ensures Less(Numbers(a.maj, a.min), Numbers(b.maj, b.min)) <==> Newer(b, a)
  {
    var s, t := Padded(a.min, MIN_WIDTH), Padded(b.min, MIN_WIDTH);
    LessPadded(a.maj, b.maj, MAJ_WIDTH, "_" + s, "_" + t);
    LessBehind("_", s, t);
    LessPadded(a.min, b.min, MIN_WIDTH, "", "");
    assert s + "" == s && t + "" == t;
  }

  /** Within the widths, names sort as ids do. */
  lemma NamesSortAsIds(a: FileId, b: FileId)
    requires InWidth(a) && InWidth(b)
    ensures Less(NameOf(a), NameOf(b)) <==> Newer(b, a)
  {
    LessBehind(PREFIX, Numbers(a.maj, a.min), Numbers(b.maj, b.min));
    LessNumbers(a, b);
  }

  // ---------------------------------------------------------------- exactly while the major id fits

  lemma {:induction false} PowerStartsWithOne(k: nat)
    ensures Digits(TenTo(k))[0] == '1'
  {
    if k > 0 {
      PowerStartsWithOne(k - 1);
      assert TenTo(k) / 10 == TenTo(k - 1) && TenTo(k) >= 10;
    }
  }

  lemma {:induction false} NinesStartWithNine(k: nat)
    requires k > 0
    ensures Padded(TenTo(k) - 1, k)[0] == '9'
  {
    if k > 1 {
      NinesStartWithNine(k - 1);
      assert (TenTo(k) - 1) / 10 == TenTo(k - 1) - 1;
    } else {
      assert TenTo(1) == 10;
      assert Padded(9, 1) == Padded(0, 0) + [DigitChar(9)];
    }
  }

  const MIN_LIMIT: nat := 0x8000_0000

  /** Ids as the cache sees them: the minor part is an `int`. */
  ghost predicate Id(d: FileId, maxMaj: nat) { 0 <= d.maj <= maxMaj && 0 <= d.min < MIN_LIMIT }

  ghost predicate NamesSort(maxMaj: nat) {
    forall a, b :: Id(a, maxMaj) && Id(b, maxMaj) ==> (Less(NameOf(a), NameOf(b)) <==> Newer(b, a))
  }

  lemma TooLarge()
    ensures var a, b := FileId(TenTo(MAJ_WIDTH) - 1, 0), FileId(TenTo(MAJ_WIDTH), 0);
      Newer(b, a) && !Less(NameOf(a), NameOf(b))
  {
    var m := TenTo(MAJ_WIDTH);
    PowerStartsWithOne(MAJ_WIDTH);
    NinesStartWithNine(MAJ_WIDTH);
    LessBehind(PREFIX, Numbers(m - 1, 0), Numbers(m, 0));
  }

  lemma SmallMajorsSort(maxMaj: nat)
    requires maxMaj < TenTo(MAJ_WIDTH)
    ensures NamesSort(maxMaj)
  {
    forall a, b | Id(a, maxMaj) && Id(b, maxMaj) ensures Less(NameOf(a), NameOf(b)) <==> Newer(b, a) {
      NamesSortAsIds(a, b);
    }
  }

  /** Sorting names sorts all ids up to a major id exactly while that has at most eight digits. */
  lemma NamesSortIff(maxMaj: nat)
    ensures NamesSort(maxMaj) <==> maxMaj < TenTo(MAJ_WIDTH)
  {
    if maxMaj < TenTo(MAJ_WIDTH) {
      SmallMajorsSort(maxMaj);
    } else {
      TooLarge();
      assert Id(FileId(TenTo(MAJ_WIDTH) - 1, 0), maxMaj) && Id(FileId(TenTo(MAJ_WIDTH), 0), maxMaj);
    }
  }
}
