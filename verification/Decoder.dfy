/** `infoLog_decode` as the loops that walk over the blobs of a file. */
module Decoder {
  import opened Options
  import opened Messages
  import opened MessageDecode
  import opened Conversion

  /** The blobs of a file, decoded and converted to the first protocol; one bad blob spoils all. */
  function DecodeAll(protocols: seq<Protocol>, blobs: seq<string>): Option<seq<Message>>
    requires protocols != []
  {
    if blobs == [] then Some([])
    else
      match DecodeAll(protocols, blobs[..|blobs| - 1])
      case None => None
      case Some(ms) =>
        match Decode(protocols, blobs[|blobs| - 1])
        case None => None
        case Some(m) => DecodedSize(protocols, blobs[|blobs| - 1]); Some(ms + [Converted(protocols[0], m)])
  }

  lemma {:induction false} FieldsSize(fields: seq<Field>, s: string)
    requires fields != []
    ensures DecodeFields(fields, s).Some? ==> |DecodeFields(fields, s).value| == |fields|
    decreases |fields|
  {
    if |fields| > 1 && HashAt(s).Some? {
      FieldsSize(fields[1..], s[HashAt(s).value + 1..]);
    }
  }

  lemma DecodedSize(protocols: seq<Protocol>, s: string)
    ensures var m := Decode(protocols, s); m.Some? ==>
      m.value.protocol in protocols && m.value.protocol.fields != [] && |m.value.values| == |m.value.protocol.fields|
  {
    var m := Decode(protocols, s);
    if m.Some? {
      var n := HashAt(s[1..]).value;
      FieldsSize(m.value.protocol.fields, s[1..][n + 1..]);
    }
  }

  function Shift(o: Option<nat>, d: nat): Option<nat> {
    match o case None => None case Some(n) => Some(n + d)
  }

  /** Walk from `from` to the next `#`, or to the end. */
  method NextHash(s: string, from: nat) returns (k: nat)
    requires from <= |s|
    ensures from <= k <= |s|
    ensures HashAt(s[from..]) == if k < |s| then Some(k - from) else None
  {
    k := from;
    while k < |s| && s[k] != '#'
      invariant from <= k <= |s|
      invariant HashAt(s[from..]) == Shift(HashAt(s[k..]), k - from)
    {
      k := k + 1;
    }
  }

  function Prepend(vs: seq<Value>, o: Option<seq<Value>>): Option<seq<Value>> {
    match o case None => None case Some(ws) => Some(vs + ws)
  }

  lemma PrependStep(vs: seq<Value>, v: Value, o: Option<seq<Value>>)
    ensures Prepend(vs + [v], o) == Prepend(vs, Prepend([v], o))
  {
    if o.Some? { assert (vs + [v]) + o.value == vs + ([v] + o.value); }
  }

  lemma NextField(fields: seq<Field>, i: nat, s: string, pos: nat, k: nat)
    requires i + 1 < |fields| && pos <= k <= |s|
    requires HashAt(s[pos..]) == if k < |s| then Some(k - pos) else None
    ensures DecodeFields(fields[i..], s[pos..]) == if k == |s| then None else
      Prepend([DecodeValue(fields[i].typ, s[pos..k])], DecodeFields(fields[i + 1..], s[k + 1..]))
  {
    if k < |s| {
      assert s[pos..][..k - pos] == s[pos..k] && s[pos..][k - pos + 1..] == s[k + 1..];
      assert fields[i..][1..] == fields[i + 1..];
    }
  }

  /** Reading goes on with field `i` at `pos`, after the values `vs`. */
  ghost predicate Reading(all: Option<seq<Value>>, vs: seq<Value>, fields: seq<Field>, i: nat, s: string, pos: nat) {
    i < |fields| && pos <= |s| && all == Prepend(vs, DecodeFields(fields[i..], s[pos..]))
  }

  /** One turn of the field loop. */
  lemma FieldTurn(all: Option<seq<Value>>, vs: seq<Value>, fields: seq<Field>, i: nat, s: string, pos: nat, k: nat)
    requires i + 1 < |fields| && pos <= k <= |s|
    requires HashAt(s[pos..]) == if k < |s| then Some(k - pos) else None
    requires Reading(all, vs, fields, i, s, pos)
    ensures if k == |s| then all == None
            else Reading(all, vs + [DecodeValue(fields[i].typ, s[pos..k])], fields, i + 1, s, k + 1)
  {
    NextField(fields, i, s, pos, k);
    if k < |s| {
      PrependStep(vs, DecodeValue(fields[i].typ, s[pos..k]), DecodeFields(fields[i + 1..], s[k + 1..]));
    }
  }

  lemma FirstTurn(fields: seq<Field>, s: string, from: nat)
    requires fields != [] && from <= |s|
    ensures Reading(DecodeFields(fields, s[from..]), [], fields, 0, s, from)
  {
    assert fields[0..] == fields;
    var all := DecodeFields(fields, s[from..]);
    assert all.Some? ==> [] + all.value == all.value;
  }

  /** One field, up to its separator. */
  method ReadField(ghost all: Option<seq<Value>>, vs: seq<Value>, fields: seq<Field>, i: nat, s: string, pos: nat)
    returns (k: nat, ws: seq<Value>)
    requires i + 1 < |fields| && Reading(all, vs, fields, i, s, pos)
    ensures k <= |s|
    ensures if k == |s| then all == None else Reading(all, ws, fields, i + 1, s, k + 1)
  {
    k := NextHash(s, pos);
    FieldTurn(all, vs, fields, i, s, pos, k);
    ws := if k < |s| then vs + [DecodeValue(fields[i].typ, s[pos..k])] else vs;
  }

  /** The field loop. */
  method ReadFields(fields: seq<Field>, s: string, from: nat) returns (r: Option<seq<Value>>)
    requires fields != [] && from <= |s|
    ensures r == DecodeFields(fields, s[from..])
  {
    ghost var all := DecodeFields(fields, s[from..]);
    FirstTurn(fields, s, from);
    var vs, pos, i := [], from, 0;
    while i + 1 < |fields|
      invariant 0 <= i < |fields| && 0 <= pos <= |s|
      invariant Reading(all, vs, fields, i, s, pos)
    {
      var k, ws := ReadField(all, vs, fields, i, s, pos);
      if k >= |s| { return None; }
      vs, pos, i := ws, k + 1, i + 1;
    }
    r := Some(vs + [DecodeValue(fields[i].typ, UpToNul(s[pos..]))]);
  }

  /** The search for the protocol. */
  method LookUp(protocols: seq<Protocol>, version: string) returns (k: nat)
    ensures k <= |protocols|
    ensures FindProtocol(protocols, version) == if k < |protocols| then Some(protocols[k]) else None
    ensures k < |protocols| ==> protocols[k].version == version
  {
    k := 0;
    while k < |protocols| && protocols[k].version != version
      invariant 0 <= k <= |protocols|
      invariant FindProtocol(protocols, version) == FindProtocol(protocols[k..], version)
    {
      assert protocols[k..][1..] == protocols[k + 1..];
      k := k + 1;
    }
  }

  /** One blob; also the place of its protocol in the table. */
  method DecodeBlob(protocols: seq<Protocol>, s: string) returns (r: Option<Message>, k: nat)
    ensures r == Decode(protocols, s)
    ensures r.Some? ==> k < |protocols| && r.value.protocol == protocols[k]
  {
    k := 0;
    if |s| < 1 || s[0] != '*' { return None, k; }
    if |s| < 2 { return None, k; }
    var h := NextHash(s, 1);
    if h >= |s| { return None, k; }
    assert s[1..][..h - 1] == s[1..h] && s[1..][h - 1 + 1..] == s[h + 1..];
    k := LookUp(protocols, UpToNul(s[1..h]));
    if k == |protocols| || protocols[k].fields == [] { return None, k; }
    var vs := ReadFields(protocols[k].fields, s, h + 1);
    if vs.None? { return None, k; }
    r := Some(Message(protocols[k], vs.value));
  }

  /** All the blobs of a file. */
  method DecodeFile(protocols: seq<Protocol>, tables: seq<seq<int>>, blobs: seq<string>) returns (r: Option<seq<Message>>)
    requires protocols != [] && |protocols[0].fields| <= FIELDS_MAX && |tables| == |protocols|
    requires forall i :: 0 <= i < |protocols| ==> TableOf(tables[i], protocols[0].fields, protocols[i].fields)
    ensures r == DecodeAll(protocols, blobs)
  {
    var ms, ok := [], true;
    for i := 0 to |blobs|
      invariant DecodeAll(protocols, blobs[..i]) == if ok then Some(ms) else None
    {
      assert blobs[..i + 1][..i] == blobs[..i];
      if ok {
        var m, k := DecodeBlob(protocols, blobs[i]);
        DecodedSize(protocols, blobs[i]);
        if m.None? {
          ok := false;
        } else {
          var c := Convert(protocols[0], tables[k], m.value);
          ms := ms + [c];
        }
      }
    }
    assert blobs[..|blobs|] == blobs;
    r := if ok then Some(ms) else None;
  }
}
