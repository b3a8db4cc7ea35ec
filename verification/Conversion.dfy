/** Protocols known to the decoder, and conversion of messages to the first of them. */
module Conversion {
  import opened Messages

  const FIELDS_MAX: nat := 18

  // ---------------------------------------------------------------- the tables

  const PROTOCOL_1_4 := Protocol("1.4", [
    Field(StringType, "severity"), Field(IntType, "level"), Field(DoubleType, "timestamp"),
    Field(StringType, "hostname"), Field(StringType, "rolename"), Field(IntType, "pid"),
    Field(StringType, "username"), Field(StringType, "system"), Field(StringType, "facility"),
    Field(StringType, "detector"), Field(StringType, "partition"), Field(IntType, "run"),
    Field(IntType, "errcode"), Field(IntType, "errline"), Field(StringType, "errsource"),
    Field(StringType, "message")])

  const PROTOCOL_1_3 := Protocol("1.3", [
    Field(StringType, "severity"), Field(IntType, "level"), Field(DoubleType, "timestamp"),
    Field(StringType, "hostname"), Field(StringType, "rolename"), Field(IntType, "pid"),
    Field(StringType, "username"), Field(StringType, "system"), Field(StringType, "facility"),
    Field(StringType, "detector"), Field(StringType, "partition"), Field(StringType, "dest"),
    Field(IntType, "run"), Field(IntType, "errcode"), Field(IntType, "errline"),
    Field(StringType, "errsource"), Field(StringType, "message")])

  const PROTOCOL_1_2 := Protocol("1.2", [
    Field(StringType, "severity"), Field(DoubleType, "timestamp"), Field(StringType, "hostname"),
    Field(StringType, "rolename"), Field(IntType, "pid"), Field(StringType, "username"),
    Field(StringType, "system"), Field(StringType, "facility"), Field(StringType, "dest"),
    Field(IntType, "run"), Field(StringType, "message")])

  const PROTOCOLS := [PROTOCOL_1_4, PROTOCOL_1_3, PROTOCOL_1_2]

  ghost predicate Distinct(fs: seq<Field>) {
    forall i, j :: 0 <= i < j < |fs| ==> fs[i] != fs[j]
  }

  /** Enough of a name to tell those of the tables apart. */
  function Key(name: string): int {
    |name| * 1000000 + (if |name| > 0 then name[0] as int * 1000 else 0) + (if |name| > 3 then name[3] as int else 0)
  }

  lemma KeysTellApart(fs: seq<Field>, keys: seq<int>)
    requires |fs| == |keys|
    requires forall i :: 0 <= i < |fs| ==> Key(fs[i].name) == keys[i]
    requires forall i, j :: 0 <= i < j < |keys| ==> keys[i] != keys[j]
    ensures Distinct(fs)
  {
  }

  lemma Distinct12()
    ensures Distinct(PROTOCOL_1_2.fields)
  {
    var keys := [8115101, 9116101, 8104116, 8114101, 3112000, 8117114, 6115116, 8102105, 4100116, 3114000, 7109115];
    KeysTellApart(PROTOCOL_1_2.fields, keys);
  }

  const KEYS_1_3 := [8115101, 5108101, 9116101, 8104116, 8114101, 3112000, 8117114, 6115116, 8102105, 8100101,
                     9112116, 4100116, 3114000, 7101099, 7101108, 9101115, 7109115]

  lemma Keys13()
    ensures |KEYS_1_3| == |PROTOCOL_1_3.fields|
    ensures forall i :: 0 <= i < |KEYS_1_3| ==> Key(PROTOCOL_1_3.fields[i].name) == KEYS_1_3[i]
  {
  }

  lemma Keys13Distinct()
    ensures forall i, j :: 0 <= i < j < |KEYS_1_3| ==> KEYS_1_3[i] != KEYS_1_3[j]
  {
  }

  lemma Distinct13()
    ensures Distinct(PROTOCOL_1_3.fields)
  {
    Keys13();
    Keys13Distinct();
    KeysTellApart(PROTOCOL_1_3.fields, KEYS_1_3);
  }

  /** The newest protocol is the one before it without `dest`. */
  lemma Fields14()
    ensures |PROTOCOL_1_4.fields| == |PROTOCOL_1_3.fields| - 1
    ensures forall i :: 0 <= i < |PROTOCOL_1_4.fields| ==>
      PROTOCOL_1_4.fields[i] == PROTOCOL_1_3.fields[if i < 11 then i else i + 1]
  {
  }

  lemma Distinct14()
    ensures Distinct(PROTOCOL_1_4.fields)
  {
    Fields14();
    Distinct13();
  }

  // ---------------------------------------------------------------- conversion tables

  /** Index of the first equal field from `k` on, or -1. */
  function IndexFrom(ref: seq<Field>, f: Field, k: nat): (r: int)
    requires k <= |ref|
    decreases |ref| - k
  {
    if k == |ref| then -1 else if ref[k] == f then k else IndexFrom(ref, f, k + 1)
  }

  function IndexIn(ref: seq<Field>, f: Field): int { IndexFrom(ref, f, 0) }

  lemma {:induction false} IndexFromIs(ref: seq<Field>, f: Field, k: nat)
    requires k <= |ref|
    ensures var r := IndexFrom(ref, f, k);
      if r < 0 then r == -1 && f !in ref[k..] else k <= r < |ref| && ref[r] == f && f !in ref[k..r]
    decreases |ref| - k
  {
    if k < |ref| && ref[k] != f {
      IndexFromIs(ref, f, k + 1);
      assert ref[k..] == [ref[k]] + ref[k + 1..];
      var r := IndexFrom(ref, f, k + 1);
      if r >= 0 { assert ref[k..r] == [ref[k]] + ref[k + 1..r]; }
    }
  }

  /** The index is that of a field of the same name and type, and is -1 only when there is none. */
  lemma IndexInIs(ref: seq<Field>, f: Field)
    ensures -1 <= IndexIn(ref, f) < |ref|
    ensures IndexIn(ref, f) >= 0 <==> f in ref
    ensures IndexIn(ref, f) >= 0 ==> ref[IndexIn(ref, f)] == f
  {
    IndexFromIs(ref, f, 0);
    assert ref[0..] == ref;
  }

  /** What is demanded of a table entry. */
  ghost predicate WellFormed(p: Protocol) {
    0 < |p.fields| <= FIELDS_MAX && p.fields[|p.fields| - 1] == Field(StringType, "message")
  }

  method FindField(ref: seq<Field>, f: Field) returns (k: int)
    ensures k == IndexIn(ref, f)
  {
    k := 0;
    while k < |ref|
      invariant 0 <= k <= |ref| && IndexIn(ref, f) == IndexFrom(ref, f, k)
    {
      if ref[k].typ == f.typ && ref[k].name == f.name { return; }
      k := k + 1;
    }
    k := -1;
  }

  /** The conversion table of one protocol. */
  ghost predicate TableOf(table: seq<int>, ref: seq<Field>, fs: seq<Field>) {
    |table| == |fs| && forall j :: 0 <= j < |fs| ==> table[j] == IndexIn(ref, fs[j])
  }

  method FillTable(ref: seq<Field>, fs: seq<Field>) returns (table: seq<int>)
    ensures TableOf(table, ref, fs)
  {
    table := [];
    for j := 0 to |fs|
      invariant |table| == j && forall i :: 0 <= i < j ==> table[i] == IndexIn(ref, fs[i])
    {
      var k := FindField(ref, fs[j]);
      table := table + [k];
    }
  }

  /** `infoLog_proto_init` */
  method InitProtocols(protocols: seq<Protocol>) returns (ok: bool, tables: seq<seq<int>>)
    ensures ok <==> forall i :: 0 <= i < |protocols| ==> WellFormed(protocols[i])
    ensures ok ==> |tables| == |protocols|
    ensures ok ==> forall i :: 0 <= i < |protocols| ==> TableOf(tables[i], protocols[0].fields, protocols[i].fields)
  {
    ok, tables := true, [];
    for i := 0 to |protocols|
      invariant forall k :: 0 <= k < i ==> WellFormed(protocols[k])
      invariant |tables| == i
      invariant forall k :: 0 <= k < i ==> TableOf(tables[k], protocols[0].fields, protocols[k].fields)
    {
      var fs := protocols[i].fields;
      if |fs| <= 0 || |fs| > FIELDS_MAX { return false, tables; }
      var last := fs[|fs| - 1];
      if last.typ != StringType { return false, tables; }
      if last.name != "message" { return false, tables; }
      var table := FillTable(protocols[0].fields, fs);
      tables := tables + [table];
    }
  }

  // ---------------------------------------------------------------- converting a message

  /** The values under the reference fields once the first `n` values have been moved. */
  function Moved(ref: seq<Field>, fs: seq<Field>, vs: seq<Value>, n: nat): (r: seq<Value>)
    requires n <= |fs| == |vs|
    ensures |r| == |ref|
  {
    if n == 0 then seq(|ref|, _ => Undefined)
    else
      var before, k := Moved(ref, fs, vs, n - 1), IndexIn(ref, fs[n - 1]);
      if 0 <= k < |ref| then before[k := vs[n - 1]] else before
  }

  function Converted(ref: Protocol, m: Message): Message
    requires |m.values| == |m.protocol.fields|
  {
    if m.protocol == ref then m else Message(ref, Moved(ref.fields, m.protocol.fields, m.values, |m.values|))
  }

  /** `infoLog_msg_convert` */
  method Convert(ref: Protocol, table: seq<int>, m: Message) returns (r: Message)
    requires |m.values| == |m.protocol.fields| && |ref.fields| <= FIELDS_MAX
    requires TableOf(table, ref.fields, m.protocol.fields)
    ensures r == Converted(ref, m)
  {
    if m.protocol == ref { return m; }
    var newValues := new Value[FIELDS_MAX](_ => Undefined);
    for i := 0 to |m.values|
      invariant newValues[..|ref.fields|] == Moved(ref.fields, m.protocol.fields, m.values, i)
    {
      IndexInIs(ref.fields, m.protocol.fields[i]);
      if table[i] != -1 {
        newValues[table[i]] := m.values[i];
      }
    }
    r := Message(ref, newValues[..|ref.fields|]);
  }

  /** A value is found under its field again when no later value of an equal field differs. */
  lemma {:induction false} MovedStays(ref: seq<Field>, fs: seq<Field>, vs: seq<Value>, n: nat, i: nat)
    requires i < n <= |fs| == |vs| && fs[i] in ref
    requires forall j :: i < j < n && fs[j] == fs[i] ==> vs[j] == vs[i]
    ensures 0 <= IndexIn(ref, fs[i]) < |ref| && Moved(ref, fs, vs, n)[IndexIn(ref, fs[i])] == vs[i]
    decreases n
  {
    IndexInIs(ref, fs[i]);
    IndexInIs(ref, fs[n - 1]);
    if i < n - 1 {
      MovedStays(ref, fs, vs, n - 1, i);
    }
  }

  lemma {:induction false} NothingMoved(ref: seq<Field>, fs: seq<Field>, vs: seq<Value>, n: nat, k: nat)
    requires n <= |fs| == |vs| && k < |ref| && ref[k] !in fs
    ensures Moved(ref, fs, vs, n)[k] == Undefined
  {
    if n > 0 {
      NothingMoved(ref, fs, vs, n - 1, k);
      IndexInIs(ref, fs[n - 1]);
    }
  }

  /** Equal fields that the reference protocol has hold equal values. */
  ghost predicate Agree(ref: seq<Field>, fs: seq<Field>, vs: seq<Value>)
    requires |fs| == |vs|
  {
    forall i, j :: 0 <= i < j < |fs| && fs[i] in ref && fs[i] == fs[j] ==> vs[i] == vs[j]
  }

  /** Every value whose field the reference protocol has is found under that field. */
  ghost predicate Kept(ref: seq<Field>, fs: seq<Field>, vs: seq<Value>)
    requires |fs| == |vs|
  {
    forall i :: 0 <= i < |fs| && fs[i] in ref ==>
      0 <= IndexIn(ref, fs[i]) < |ref| && Moved(ref, fs, vs, |fs|)[IndexIn(ref, fs[i])] == vs[i]
  }

  /** Conversion keeps each value under its name and type exactly when no two equal fields disagree. */
  lemma KeptIff(ref: seq<Field>, fs: seq<Field>, vs: seq<Value>)
    requires |fs| == |vs|
    ensures Kept(ref, fs, vs) <==> Agree(ref, fs, vs)
  {
    if Agree(ref, fs, vs) {
      forall i | 0 <= i < |fs| && fs[i] in ref
        ensures 0 <= IndexIn(ref, fs[i]) < |ref| && Moved(ref, fs, vs, |fs|)[IndexIn(ref, fs[i])] == vs[i]
      {
        MovedStays(ref, fs, vs, |fs|, i);
      }
    }
  }

  /** Two fields of the same name and type with different values: the first value is lost. */
  lemma EqualFieldsLose()
    ensures var f := Field(IntType, "pid");
      !Kept([f], [f, f], [IntValue(1), IntValue(2)]) && Moved([f], [f, f], [IntValue(1), IntValue(2)], 2)[0] == IntValue(2)
  {
    var f := Field(IntType, "pid");
    var fs, vs := [f, f], [IntValue(1), IntValue(2)];
    KeptIff([f], fs, vs);
    assert fs[0] == fs[1] && vs[0] != vs[1];
    MovedStays([f], fs, vs, 2, 1);
    IndexInIs([f], f);
  }

  /** Fields that the message does not have are left undefined. */
  lemma OthersUndefined(ref: seq<Field>, fs: seq<Field>, vs: seq<Value>)
    requires |fs| == |vs|
    ensures forall k :: 0 <= k < |ref| && ref[k] !in fs ==> Moved(ref, fs, vs, |fs|)[k] == Undefined
  {
    forall k | 0 <= k < |ref| && ref[k] !in fs ensures Moved(ref, fs, vs, |fs|)[k] == Undefined {
      NothingMoved(ref, fs, vs, |fs|, k);
    }
  }

  /** None of the known protocols has a clash, so conversion to the first keeps every value it has a field for. */
  lemma KnownProtocolsConvert(p: Protocol, vs: seq<Value>)
    requires p in PROTOCOLS && |vs| == |p.fields|
    ensures Kept(PROTOCOL_1_4.fields, p.fields, vs)
    ensures forall k :: 0 <= k < |PROTOCOL_1_4.fields| && PROTOCOL_1_4.fields[k] !in p.fields ==>
      Moved(PROTOCOL_1_4.fields, p.fields, vs, |p.fields|)[k] == Undefined
  {
    KnownDistinct(p);
    KeptIff(PROTOCOL_1_4.fields, p.fields, vs);
    OthersUndefined(PROTOCOL_1_4.fields, p.fields, vs);
  }

  lemma KnownDistinct(p: Protocol)
    requires p in PROTOCOLS
    ensures Distinct(p.fields)
  {
    Distinct12();
    Distinct13();
    Distinct14();
  }
}
