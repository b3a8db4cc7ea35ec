/** Encoding a message, cutting the text at its line ends, and decoding the parts. */
module MessageRoundTrip {
  import opened Options
  import opened Messages
  import opened MessageDecode
  import opened Encoding
  import opened EncodedRecords
  import opened Conversion
  import opened Decoder

  lemma {:induction false} BreakOfOneLine(s: string, rest: string)
    requires OneLine(s)
    ensures LineBreak(s + ("\n" + rest)) == Some(|s|)
  {
    var t := s + ("\n" + rest);
    if s != "" {
      BreakOfOneLine(s[1..], rest);
      assert t[0] == s[0] && t[1..] == s[1..] + ("\n" + rest);
    }
  }

  lemma LinesFront(s: string, rest: string)
    requires OneLine(s)
    ensures Lines(s + ("\n" + rest)) == [s] + Lines(rest)
  {
    BreakOfOneLine(s, rest);
    var t := s + ("\n" + rest);
    assert t[..|s|] == s && t[|s| + 1..] == rest;
  }

  /** The records without their line ends. */
  function Bodies(r: Row, split: int, lines: seq<string>): (bs: seq<string>)
    ensures |bs| == |lines|
  {
    if lines == [] then [] else Bodies(r, split, lines[..|lines| - 1]) + [RecordBody(r, split, lines[|lines| - 1])]
  }

  lemma {:induction false} BodiesFront(r: Row, split: int, lines: seq<string>)
    requires lines != []
    ensures Bodies(r, split, lines) == [RecordBody(r, split, lines[0])] + Bodies(r, split, lines[1..])
  {
    var n := |lines| - 1;
    if n > 0 {
      BodiesFront(r, split, lines[..n]);
      assert lines[..n][1..] == lines[1..][..n - 1];
    }
  }

  lemma {:induction false} RecordsFront(r: Row, split: int, lines: seq<string>)
    requires lines != []
    ensures Records(r, split, lines) == Record(r, split, lines[0]) + Records(r, split, lines[1..])
  {
    var n := |lines| - 1;
    if n > 0 {
      RecordsFront(r, split, lines[..n]);
      assert lines[..n][1..] == lines[1..][..n - 1];
    }
  }

  lemma {:induction false} FieldsOneLine(r: Row, split: int, line: string, n: nat)
    requires GoodRow(r) && CString(line) && n <= |r.cells|
    ensures OneLine(FieldsText(r, split, line, n))
  {
    if n > 0 {
      FieldsOneLine(r, split, line, n - 1);
      FieldTextClean(r, split, line, n - 1);
      OneLineAndField(FieldsText(r, split, line, n - 1), FieldText(r, split, line, n - 1));
    }
  }

  lemma OneLineAndField(a: string, b: string)
    requires OneLine(a) && Clean(b)
    ensures OneLine(a + ("#" + b))
  {
  }

  lemma BodyOneLine(r: Row, split: int, line: string)
    requires GoodRow(r) && CString(line)
    ensures OneLine(RecordBody(r, split, line))
  {
    FieldsOneLine(r, split, line, |r.cells|);
  }

  lemma Associate(body: string, text: string)
    ensures (body + "\n") + text == body + ("\n" + text)
  {
  }

  lemma OneMore(body: string, bs: seq<string>)
    ensures [body] + (bs + [""]) == ([body] + bs) + [""]
  {
  }

  /** The encoded text, cut at its line ends, gives the records. */
  lemma {:induction false} LinesOfRecords(r: Row, split: int, lines: seq<string>)
    requires GoodRow(r) && CStrings(lines)
    ensures Lines(Records(r, split, lines)) == Bodies(r, split, lines) + [""]
  {
    if lines != [] {
      LinesOfRecords(r, split, lines[1..]);
      RecordsFront(r, split, lines);
      BodiesFront(r, split, lines);
      BodyOneLine(r, split, lines[0]);
      LinesFront(RecordBody(r, split, lines[0]), Records(r, split, lines[1..]));
      Associate(RecordBody(r, split, lines[0]), Records(r, split, lines[1..]));
      OneMore(RecordBody(r, split, lines[0]), Bodies(r, split, lines[1..]));
    }
  }

  /** The message that the record of a line stands for, in the first protocol. */
  function Back(protocols: seq<Protocol>, m: Message, split: int, line: string): Message
    requires protocols != [] && |m.values| == |m.protocol.fields|
  {
    Converted(protocols[0], Message(m.protocol, FieldsBack(m, split, line, 0)))
  }

  function BackAll(protocols: seq<Protocol>, m: Message, split: int, lines: seq<string>): (ms: seq<Message>)
    requires protocols != [] && |m.values| == |m.protocol.fields|
    ensures |ms| == |lines|
  {
    if lines == [] then []
    else BackAll(protocols, m, split, lines[..|lines| - 1]) + [Back(protocols, m, split, lines[|lines| - 1])]
  }

  lemma {:induction false} BackAllAt(protocols: seq<Protocol>, m: Message, split: int, lines: seq<string>, i: nat)
    requires protocols != [] && |m.values| == |m.protocol.fields| && i < |lines|
    ensures BackAll(protocols, m, split, lines)[i] == Back(protocols, m, split, lines[i])
  {
    if i < |lines| - 1 { BackAllAt(protocols, m, split, lines[..|lines| - 1], i); }
  }

  /** Each of the blobs is a record, or a record with a NUL and anything behind it. */
  ghost predicate EndAt(blobs: seq<string>, bodies: seq<string>) {
    |blobs| == |bodies| && forall i :: 0 <= i < |blobs| ==> EndsAt(blobs[i], bodies[i])
  }

  lemma {:induction false} BodiesDecode(protocols: seq<Protocol>, m: Message, split: int, lines: seq<string>, blobs: seq<string>)
    requires protocols != [] && GoodMessage(m) && Registered(protocols, m.protocol) && CStrings(lines)
    requires EndAt(blobs, Bodies(RowOf(m), split, lines))
    ensures DecodeAll(protocols, blobs) == Some(BackAll(protocols, m, split, lines))
  {
    if lines != [] {
      var n := |lines| - 1;
      BodiesDecode(protocols, m, split, lines[..n], blobs[..n]);
      RecordRoundTrip(protocols, m, split, lines[n], blobs[n]);
    }
  }

  /**
    When encoding returns 0, the text is newline-terminated records, and decoding them, as they are or
    sent with a NUL behind each, gives one message per line of the split field: the line in that field,
    every other field normalized, all in the first protocol.
   */
  lemma EncodeDecode(protocols: seq<Protocol>, m: Message, split: int, size: nat)
    requires size > 0 && protocols != [] && GoodMessage(m) && Registered(protocols, m.protocol)
    requires Encode(RowOf(m), split, size).code == 0
    ensures var lines, parts := RecordLines(RowOf(m), split), Lines(Encode(RowOf(m), split, size).text);
      && |parts| == |lines| + 1 && parts[|lines|] == ""
      && EndAt(parts[..|lines|], parts[..|lines|])
      && (forall blobs :: EndAt(blobs, parts[..|lines|]) ==> DecodeAll(protocols, blobs) == Some(BackAll(protocols, m, split, lines)))
  {
    var r := RowOf(m);
    var lines := RecordLines(r, split);
    RowOfGood(m);
    RecordLinesAreCStrings(r, split);
    EncodeIs(r, split, size);
    LinesOfRecords(r, split, lines);
    var bodies := Bodies(r, split, lines);
    assert (bodies + [""])[..|lines|] == bodies;
    forall blobs | EndAt(blobs, bodies) ensures DecodeAll(protocols, blobs) == Some(BackAll(protocols, m, split, lines)) {
      BodiesDecode(protocols, m, split, lines, blobs);
    }
  }

  lemma NotTheFirst(protocols: seq<Protocol>, version: string)
    requires protocols != [] && protocols[0].version != version
    ensures FindProtocol(protocols, version) == FindProtocol(protocols[1..], version)
  {
  }

  /** The known protocols are found under their versions. */
  lemma KnownRegistered(p: Protocol)
    requires p in PROTOCOLS
    ensures GoodProtocol(p) && Registered(PROTOCOLS, p) && WellFormed(p)
  {
    assert PROTOCOLS[1..] == [PROTOCOL_1_3, PROTOCOL_1_2] && PROTOCOLS[1..][1..] == [PROTOCOL_1_2];
    assert "1.4"[2] == '4' && "1.3"[2] == '3' && "1.2"[2] == '2';
    if p != PROTOCOL_1_4 {
      assert p.version == "1.3" || p.version == "1.2";
      assert PROTOCOL_1_4.version != p.version;
      NotTheFirst(PROTOCOLS, p.version);
      if p != PROTOCOL_1_3 {
        assert p == PROTOCOL_1_2;
        assert PROTOCOL_1_3.version != p.version;
        NotTheFirst(PROTOCOLS[1..], p.version);
      }
    }
  }

  lemma SurvivesConversion(ref: seq<Field>, fs: seq<Field>, vs: seq<Value>, i: nat, k: nat)
    requires |fs| == |vs| && i < |fs| && k < |ref| && fs[i] == ref[k] && Distinct(ref) && Distinct(fs)
    ensures Moved(ref, fs, vs, |vs|)[k] == vs[i]
  {
    MovedStays(ref, fs, vs, |fs|, i);
    IndexInIs(ref, fs[i]);
  }

  /** For a message of any known protocol: a value whose field the first protocol has comes back under it, normalized. */
  lemma KnownMessagesSurvive(m: Message, split: int, line: string, i: nat, k: nat)
    requires m.protocol in PROTOCOLS && |m.values| == |m.protocol.fields|
    requires i < |m.values| && k < |PROTOCOL_1_4.fields| && m.protocol.fields[i] == PROTOCOL_1_4.fields[k]
    ensures |Back(PROTOCOLS, m, split, line).values| == |PROTOCOL_1_4.fields|
    ensures Back(PROTOCOLS, m, split, line).values[k] == FieldBack(m, split, line, i)
  {
    FieldsBackAt(m, split, line, 0, i);
    KnownDistinct(PROTOCOL_1_4);
    KnownDistinct(m.protocol);
    if m.protocol == PROTOCOL_1_4 {
      assert i == k;
    } else {
      SurvivesConversion(PROTOCOL_1_4.fields, m.protocol.fields, FieldsBack(m, split, line, 0), i, k);
    }
  }

  lemma {:induction false} FieldsBackAt(m: Message, split: int, line: string, j: nat, i: nat)
    requires j <= i < |m.values|
    ensures FieldsBack(m, split, line, j)[i - j] == FieldBack(m, split, line, i)
    decreases i - j
  {
    if j < i { FieldsBackAt(m, split, line, j + 1, i); }
  }
}
