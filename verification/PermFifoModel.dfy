/**
  The permanent FIFO on values: what each operation does to the two memory tables,
  the file and the counters, and the proof that together they are one unbounded
  first-in first-out queue, wherever each item currently lives.
 */
module PermFifoModel {
  import opened Items

  /** `permFIFO_read` keeps the id it looks for in an `unsigned int`. */
  const ID_LIMIT: nat := 0x1_0000_0000

  /** The FIFO file: the main header, then the saved items in the order they were appended. */
  datatype FifoFile = FifoFile(lastAckId: nat, currentId: nat, records: seq<Item>)

  /**
    `client` and `disk` are the contents of the two circular tables, oldest first;
    `lastOut` counts the records before the file offset kept for the next load.
   */
  datatype State = State(
    size: nat,
    client: seq<Item>,
    disk: seq<Item>,
    file: FifoFile,
    currentId: nat,
    lastIdOut: nat,
    lastOut: nat,
    nextIdInClientTable: nat,
    lastIdOnDisk: nat,
    ackOnDisk: bool)

  datatype ReadResult = Got(item: Item) | Nothing | Failed

  function Min(a: nat, b: nat): nat { if a < b then a else b }

  function LastId(s: seq<Item>): nat
    requires s != []
  {
    s[|s| - 1].id
  }

  // ---------------------------------------------------------------- operations

  /** `permFIFO_save_tabledisk`: append the whole "to be saved" table to the file. */
  function SaveTableDisk(s: State): State {
    if s.disk == [] then s
    else s.(lastIdOnDisk := LastId(s.disk),
            file := s.file.(records := s.file.records + s.disk),
            disk := [],
            ackOnDisk := true)
  }

  /** First half of `permFIFO_write`: number the item and offer it to the client table. */
  function OfferToClient(s: State, item: Item): State {
    if item.id != s.nextIdInClientTable then s.(currentId := item.id)
    else if |s.client| == s.size then SaveTableDisk(s.(currentId := item.id, nextIdInClientTable := 0))
    else s.(currentId := item.id, client := s.client + [item], nextIdInClientTable := s.nextIdInClientTable + 1)
  }

  /** Second half: append it to the "to be saved" table, saving that table first if it is full. */
  function AppendToDiskTable(s: State, item: Item): State {
    var r := if |s.disk| == s.size then SaveTableDisk(s) else s;
    r.(disk := r.disk + [item])
  }

  function Write(s: State, data: seq<char>): State {
    var item := Item(s.currentId + 1, data);
    AppendToDiskTable(OfferToClient(s, item), item)
  }

  /** The scan of the "to be saved" table for consecutive ids starting at `nextId`. */
  function Consecutive(t: seq<Item>, nextId: nat): seq<Item> {
    if t == [] then []
    else if t[0].id < nextId then Consecutive(t[1..], nextId)
    else if t[0].id != nextId then []
    else [t[0]] + Consecutive(t[1..], (nextId + 1) % ID_LIMIT)
  }

  /** The items copied out of the "to be saved" table: one to return and a table-full to keep. */
  function CopiedFromDiskTable(s: State): seq<Item> {
    var run := Consecutive(s.disk, (s.lastIdOut + 1) % ID_LIMIT);
    run[..Min(|run|, s.size + 1)]
  }

  /** `ct_load`: refill the (empty) client table from the file; the offset moves only at end of file. */
  function LoadFromFile(s: State): State
    requires s.lastOut <= |s.file.records|
  {
    var newer := Above(s.file.records[s.lastOut..], s.lastIdOut);
    var loaded := newer[..Min(|newer|, s.size)];
    s.(client := loaded,
       lastOut := if |loaded| == s.size then s.lastOut else |s.file.records|,
       nextIdInClientTable := if loaded == [] then s.nextIdInClientTable else LastId(loaded) + 1)
  }

  function TakeFromClient(s: State): (State, ReadResult) {
    if s.client == [] then (s, Failed)
    else (s.(client := s.client[1..], lastIdOut := s.client[0].id), Got(s.client[0]))
  }

  /** `permFIFO_read` once it no longer waits. */
  function Read(s: State): (State, ReadResult)
    requires s.lastOut <= |s.file.records|
  {
    if s.lastIdOut >= s.currentId then (s, Nothing)
    else if s.client != [] then TakeFromClient(s)
    else
      var copied := CopiedFromDiskTable(s);
      if copied != [] then
        TakeFromClient(s.(client := copied, nextIdInClientTable := LastId(copied) + 1))
      else
        TakeFromClient(LoadFromFile(s))
  }

  /** `permFIFO_ack`: forget items up to `id` in memory, and on disk when there is something there. */
  function Ack(s: State, id: nat): State {
    var t := s.(disk := Drop(s.disk, id));
    if !s.ackOnDisk then t
    else if s.lastIdOnDisk <= id then
      t.(file := FifoFile(id, s.lastIdOnDisk, []), lastOut := 0, ackOnDisk := false)
    else
      t.(file := FifoFile(id, s.lastIdOnDisk, s.file.records))
  }

  /** The removal loop of `permFIFO_ack`: from the front, up to the first item above `id`. */
  function Drop(t: seq<Item>, id: nat): seq<Item> {
    if t == [] || t[0].id > id then t else Drop(t[1..], id)
  }

  /** `permFIFO_new` on a cleaned file. */
  function Open(size: nat, file: FifoFile): State {
    State(size, [], [], file, file.currentId, 0, 0, 1, file.currentId, file.currentId != 0)
  }

  // ---------------------------------------------------------------- invariant

  ghost function Stored(s: State): seq<Item> { s.file.records + s.disk }

  /** The abstract queue: every item written and not yet read, oldest first. */
  ghost function Unread(s: State): seq<Item> { Above(Stored(s), s.lastIdOut) }

  /** Highest id the client side has already got hold of, read or waiting in the client table. */
  ghost function Fetched(s: State): nat {
    if s.client == [] then s.lastIdOut else LastId(s.client)
  }

  ghost predicate Numbered(t: seq<Item>, last: nat) {
    && |t| <= last
    && forall i :: 0 <= i < |t| ==> t[i].id == last - |t| + 1 + i
  }

  /** Ids on disk and in the "to be saved" table, and the counters that describe them. */
  ghost predicate DiskInv(s: State) {
    && Sorted(s.file.records)
    && NoneAbove(s.file.records, s.lastIdOnDisk)
    && (forall i :: 0 <= i < |s.file.records| ==> s.file.records[i].id >= 1)
    && Numbered(s.disk, s.currentId)
    && s.lastIdOnDisk <= s.currentId - |s.disk|
    && (s.ackOnDisk ==> s.lastIdOnDisk > 0)
    && (!s.ackOnDisk ==> s.file.records == [])
    // nothing unread is missing between the file and the "to be saved" table
    && (|| s.lastIdOut >= s.currentId - |s.disk|
        || (s.file.records != [] && LastId(s.file.records) == s.currentId - |s.disk|))
  }

  /** The client table holds the next items to read. */
  ghost predicate ClientInv(s: State) {
    && s.lastOut <= |s.file.records|
    && s.client <= Unread(s)
    && s.nextIdInClientTable <= s.currentId + 1
    && (s.nextIdInClientTable == s.currentId + 1 ==> s.client == Unread(s))
    && NoneAbove(s.file.records[..s.lastOut], Fetched(s))
  }

  /** The invariant apart from the limit on ids. */
  ghost predicate Consistent(s: State) {
    && 0 < s.size
    && |s.client| <= s.size
    && |s.disk| <= s.size
    && s.lastIdOut <= s.currentId
    && DiskInv(s)
    && ClientInv(s)
  }

  ghost predicate Inv(s: State) { Consistent(s) && s.currentId < ID_LIMIT }

  // ---------------------------------------------------------------- facts about the pieces

  lemma StoredSorted(s: State)
    requires DiskInv(s)
    ensures Sorted(Stored(s))
  {
    SortedConcat(s.file.records, s.disk);
  }

  /** Only these fields matter to what is stored. */
  lemma SameDisk(s: State, t: State)
    requires t.file == s.file && t.disk == s.disk && t.currentId == s.currentId && t.lastIdOut == s.lastIdOut
    requires t.lastIdOnDisk == s.lastIdOnDisk && t.ackOnDisk == s.ackOnDisk
    ensures DiskInv(s) ==> DiskInv(t)
    ensures Unread(t) == Unread(s)
  {
  }

  lemma UnreadSplit(s: State)
    ensures Unread(s) == Above(s.file.records, s.lastIdOut) + Above(s.disk, s.lastIdOut)
  {
    AboveConcat(s.file.records, s.disk, s.lastIdOut);
  }

  /** Something is unread exactly when the counters say so. */
  lemma UnreadEmptyIff(s: State)
    requires DiskInv(s) && s.lastIdOut <= s.currentId
    ensures Unread(s) == [] <==> s.lastIdOut == s.currentId
  {
    if s.lastIdOut == s.currentId {
      assert NoneAbove(Stored(s), s.lastIdOut);
      AboveNone(Stored(s), s.lastIdOut);
    } else {
      var last := if s.disk != [] then s.disk[|s.disk| - 1] else s.file.records[|s.file.records| - 1];
      assert last in Stored(s);
      AboveMembers(Stored(s), s.lastIdOut, last);
    }
  }

  /** The youngest unread item is the last one written. */
  lemma UnreadLast(s: State)
    requires DiskInv(s) && s.lastIdOut < s.currentId
    ensures Unread(s) != [] && LastId(Unread(s)) == s.currentId
  {
    UnreadEmptyIff(s);
    StoredSorted(s);
    var k := AboveIsSuffix(Stored(s), s.lastIdOut);
    var q := Stored(s)[k..];
    assert q[|q| - 1] == Stored(s)[|Stored(s)| - 1];
  }

  lemma {:induction false} DropIsAbove(t: seq<Item>, id: nat)
    requires Sorted(t)
    ensures Drop(t, id) == Above(t, id)
  {
    if t != [] {
      if t[0].id > id { AboveAll(t, id); } else { DropIsAbove(t[1..], id); }
    }
  }

  /** Dropping from a numbered table leaves a numbered table that ends at the same id. */
  lemma {:induction false} DropNumbered(t: seq<Item>, last: nat, id: nat)
    requires Numbered(t, last)
    ensures Numbered(Drop(t, id), last) && |Drop(t, id)| <= |t|
    ensures last - |Drop(t, id)| == if id <= last - |t| then last - |t| else Min(id, last)
  {
    if t != [] && t[0].id <= id {
      DropNumbered(t[1..], last, id);
    }
  }

  /** On a numbered table the scan finds exactly the unread items, unless the next id lies before it. */
  lemma {:induction false} ConsecutiveNumbered(t: seq<Item>, last: nat, nextId: nat)
    requires Numbered(t, last) && last < ID_LIMIT
    requires 1 <= nextId <= last + 1
    ensures Consecutive(t, nextId % ID_LIMIT) == if nextId <= last - |t| then [] else Above(t, nextId - 1)
    decreases |t|
  {
    if t != [] {
      assert t[0].id == last - |t| + 1;
      if nextId == ID_LIMIT {
        AboveNone(t, last);
      } else if t[0].id < nextId {
        ConsecutiveNumbered(t[1..], last, nextId);
      } else if t[0].id == nextId {
        ConsecutiveNumbered(t[1..], last, nextId + 1);
        AboveAll(t, nextId - 1);
        AboveAll(t[1..], nextId);
      }
    }
  }

  /** One step of the scan, at position `i` of the table. */
  lemma ConsecutiveStep(t: seq<Item>, i: nat, nextId: nat)
    requires i < |t|
    ensures Consecutive(t[i..], nextId) ==
      if t[i].id < nextId then Consecutive(t[i + 1..], nextId)
      else if t[i].id != nextId then []
      else [t[i]] + Consecutive(t[i + 1..], (nextId + 1) % ID_LIMIT)
  {
    assert t[i..][0] == t[i] && t[i..][1..] == t[i + 1..];
  }

  /**
    The scan for the next id works exactly below the 32-bit limit: from there on the wrapped
    id is not in the table, and the item that is waiting there is not found.
   */
  lemma ScanFindsNextIff(t: seq<Item>, last: nat, nextId: nat)
    requires Numbered(t, last) && |t| < ID_LIMIT
    requires last - |t| < nextId <= last
    ensures Consecutive(t, nextId % ID_LIMIT) != [] <==> nextId < ID_LIMIT
  {
    var k := nextId - (last - |t| + 1);
    if nextId < ID_LIMIT {
      ScanSkips(t, k, nextId);
    } else {
      ScanMisses(t, nextId % ID_LIMIT);
    }
  }

  lemma {:induction false} ScanSkips(t: seq<Item>, k: nat, nextId: nat)
    requires k < |t| && t[k].id == nextId
    requires forall i :: 0 <= i < k ==> t[i].id < nextId
    ensures Consecutive(t, nextId) != []
  {
    if k > 0 {
      ScanSkips(t[1..], k - 1, nextId);
    }
  }

  lemma {:induction false} ScanMisses(t: seq<Item>, nextId: nat)
    requires forall i :: 0 <= i < |t| ==> t[i].id != nextId
    ensures Consecutive(t, nextId) == []
  {
    if t != [] && t[0].id < nextId {
      ScanMisses(t[1..], nextId);
    }
  }

  // ---------------------------------------------------------------- each operation refines the queue

  /** Saving moves items to the file; the queue does not notice. */
  lemma SaveRefines(s: State)
    requires DiskInv(s)
    ensures Stored(SaveTableDisk(s)) == Stored(s)
    ensures Unread(SaveTableDisk(s)) == Unread(s)
    ensures DiskInv(SaveTableDisk(s))
    ensures SaveTableDisk(s).disk == []
  {
    StoredSorted(s);
    assert Stored(SaveTableDisk(s)) == Stored(s);
  }

  lemma SaveKeepsInv(s: State)
    requires Inv(s)
    ensures Inv(SaveTableDisk(s)) && Unread(SaveTableDisk(s)) == Unread(s)
  {
    SaveRefines(s);
    assert SaveTableDisk(s).file.records[..s.lastOut] == s.file.records[..s.lastOut];
  }

  /** Adding `item` to the "to be saved" table, with or without saving the table first. */
  ghost predicate Appended(s: State, w: State, item: Item) {
    || (&& w.file == s.file && w.disk == s.disk + [item]
        && w.lastIdOnDisk == s.lastIdOnDisk && w.ackOnDisk == s.ackOnDisk)
    || (&& s.disk != [] && w.file == s.file.(records := Stored(s)) && w.disk == [item]
        && w.lastIdOnDisk == LastId(s.disk) && w.ackOnDisk)
  }

  lemma OfferShape(s: State, item: Item)
    ensures var m := OfferToClient(s, item);
      && m.size == s.size && m.currentId == item.id && m.lastIdOut == s.lastIdOut && m.lastOut == s.lastOut
      && (|| (m.file == s.file && m.disk == s.disk && m.lastIdOnDisk == s.lastIdOnDisk && m.ackOnDisk == s.ackOnDisk)
          || (s.disk != [] && m.file == s.file.(records := Stored(s)) && m.disk == []
              && m.lastIdOnDisk == LastId(s.disk) && m.ackOnDisk))
  {
  }

  /** A write either only appends to the "to be saved" table, or saves that table first. */
  lemma WriteShape(s: State, data: seq<char>)
    requires 0 < s.size && |s.disk| <= s.size
    ensures var w, item := Write(s, data), Item(s.currentId + 1, data);
      && w.size == s.size && w.currentId == item.id && w.lastIdOut == s.lastIdOut && w.lastOut == s.lastOut
      && |w.disk| <= s.size
      && Appended(s, w, item)
  {
    var item := Item(s.currentId + 1, data);
    OfferShape(s, item);
    AppendShape(OfferToClient(s, item), item);
  }

  lemma AppendShape(m: State, item: Item)
    requires 0 < m.size && |m.disk| <= m.size
    ensures var w := AppendToDiskTable(m, item);
      && w.size == m.size && w.currentId == m.currentId && w.lastIdOut == m.lastIdOut && w.lastOut == m.lastOut
      && |w.disk| <= m.size && Appended(m, w, item)
  {
    assert [] + [item] == [item];
  }

  lemma AppendedDiskInv(s: State, w: State, item: Item)
    requires s.lastIdOut <= s.currentId && DiskInv(s) && Appended(s, w, item)
    requires item.id == w.currentId == s.currentId + 1 && w.lastIdOut == s.lastIdOut
    ensures DiskInv(w)
  {
    if w.file != s.file {
      StoredSorted(s);
    }
  }

  /** Whatever is saved on the way, a write adds its item behind everything stored. */
  lemma WriteStored(s: State, data: seq<char>)
    requires Inv(s)
    ensures Stored(Write(s, data)) == Stored(s) + [Item(s.currentId + 1, data)]
    ensures Unread(Write(s, data)) == Unread(s) + [Item(s.currentId + 1, data)]
    ensures s.file.records <= Write(s, data).file.records
  {
    var item := Item(s.currentId + 1, data);
    WriteShape(s, data);
    assert Stored(Write(s, data)) == Stored(s) + [item];
    AboveConcat(Stored(s), [item], s.lastIdOut);
    AboveAll([item], s.lastIdOut);
  }

  lemma FetchedBound(s: State)
    requires Inv(s)
    ensures Fetched(s) <= s.currentId
  {
    if s.client != [] {
      AboveMembers(Stored(s), s.lastIdOut, s.client[|s.client| - 1]);
      assert s.client[|s.client| - 1] == Unread(s)[|s.client| - 1];
    }
  }

  lemma AppendedClientInv(s: State, w: State, item: Item)
    requires ClientInv(s) && Fetched(s) <= s.currentId
    requires Unread(w) == Unread(s) + [item] && s.file.records <= w.file.records
    requires w.lastOut == s.lastOut && w.lastIdOut == s.lastIdOut && w.currentId == item.id == s.currentId + 1
    requires || (w.client == s.client && w.nextIdInClientTable == s.nextIdInClientTable != item.id)
             || (w.client == s.client && w.nextIdInClientTable == 0)
             || (w.client == s.client + [item] && s.nextIdInClientTable == item.id == w.nextIdInClientTable - 1)
    ensures ClientInv(w)
  {
    assert w.file.records[..s.lastOut] == s.file.records[..s.lastOut];
  }

  /** What a write does on the client side. */
  lemma WriteClient(s: State, data: seq<char>)
    ensures var w, item := Write(s, data), Item(s.currentId + 1, data);
      || (w.client == s.client && w.nextIdInClientTable == s.nextIdInClientTable != item.id)
      || (w.client == s.client && w.nextIdInClientTable == 0)
      || (w.client == s.client + [item] && |s.client| != s.size
          && s.nextIdInClientTable == item.id && w.nextIdInClientTable == item.id + 1)
  {
  }

  /** A write appends to the queue. */
  lemma WriteRefines(s: State, data: seq<char>)
    requires Inv(s) && s.currentId + 1 < ID_LIMIT
    ensures Inv(Write(s, data))
    ensures Unread(Write(s, data)) == Unread(s) + [Item(s.currentId + 1, data)]
  {
    var w := Write(s, data);
    WriteShape(s, data);
    AppendedDiskInv(s, w, Item(s.currentId + 1, data));
    WriteStored(s, data);
    WriteClient(s, data);
    FetchedBound(s);
    AppendedClientInv(s, w, Item(s.currentId + 1, data));
  }

  /** A flush leaves the queue alone. */
  lemma FlushRefines(s: State)
    requires Inv(s)
    ensures Inv(SaveTableDisk(s)) && Unread(SaveTableDisk(s)) == Unread(s)
  {
    SaveKeepsInv(s);
  }

  /** Reading from a client table that holds the next items. */
  lemma TakeRefines(s: State)
    requires Inv(s) && s.client != []
    ensures var (s', r) := TakeFromClient(s);
      && Inv(s') && r == Got(Unread(s)[0]) && Unread(s') == Unread(s)[1..]
  {
    var (s', r) := TakeFromClient(s);
    StoredSorted(s);
    AboveAdvance(Stored(s), s.lastIdOut);
    AboveMembers(Stored(s), s.lastIdOut, s.client[0]);
    assert s.client[0] == Unread(s)[0];
    assert Stored(s') == Stored(s);
  }

  /** With an empty client table, copying from the "to be saved" table gets the next items, or nothing. */
  lemma CopyRefines(s: State)
    requires Inv(s) && s.client == [] && s.lastIdOut < s.currentId
    ensures CopiedFromDiskTable(s) <= Unread(s)
    ensures |CopiedFromDiskTable(s)| <= s.size + 1
    ensures CopiedFromDiskTable(s) == [] ==> Above(s.file.records, s.lastIdOut) != []
    ensures CopiedFromDiskTable(s) ==
      if s.lastIdOut < s.currentId - |s.disk| then [] else Unread(s)[..Min(|Unread(s)|, s.size + 1)]
  {
    ConsecutiveNumbered(s.disk, s.currentId, s.lastIdOut + 1);
    UnreadSplit(s);
    UnreadEmptyIff(s);
    if s.lastIdOut >= s.currentId - |s.disk| {
      AboveNone(s.file.records, s.lastIdOut);
    } else {
      var last := s.file.records[|s.file.records| - 1];
      AboveMembers(s.file.records, s.lastIdOut, last);
    }
  }

  /** Copying a table-full and returning its first item. */
  lemma CopyTakeRefines(s: State)
    requires Inv(s) && s.client == [] && s.lastIdOut < s.currentId && CopiedFromDiskTable(s) != []
    ensures var (s', r) := Read(s);
      && Unread(s) != [] && Inv(s') && r == Got(Unread(s)[0]) && Unread(s') == Unread(s)[1..]
  {
    var copied := CopiedFromDiskTable(s);
    CopyRefines(s);
    CopiedRefines(s, Read(s).0, copied);
  }

  lemma CopiedRefines(s: State, t: State, copied: seq<Item>)
    requires Inv(s) && s.client == [] && s.lastIdOut < s.currentId
    requires copied != [] && copied <= Unread(s) && |copied| <= s.size + 1
    requires t == s.(client := copied[1..], lastIdOut := copied[0].id, nextIdInClientTable := LastId(copied) + 1)
    ensures Unread(s) != [] && copied[0] == Unread(s)[0] && Inv(t) && Unread(t) == Unread(s)[1..]
  {
    UnreadLast(s);
    StoredSorted(s);
    AboveAdvance(Stored(s), s.lastIdOut);
    AboveSorted(Stored(s), s.lastIdOut);
    AboveMembers(Stored(s), s.lastIdOut, copied[0]);
    assert Stored(t) == Stored(s);
    assert copied[0] == Unread(s)[0];
    if LastId(copied) == s.currentId {
      assert copied == Unread(s);
    }
  }

  /** A load fills the client table with a slice of the file that starts at its first unread record. */
  lemma LoadedSlice(s: State) returns (k: nat)
    requires s.lastOut <= |s.file.records| && NoneAbove(s.file.records[..s.lastOut], s.lastIdOut)
    requires Sorted(s.file.records)
    ensures k <= |s.file.records|
    ensures AllAbove(s.file.records[k..], s.lastIdOut)
    ensures Above(s.file.records, s.lastIdOut) == s.file.records[k..]
    ensures LoadFromFile(s).client == s.file.records[k..k + Min(|s.file.records| - k, s.size)]
  {
    k := AboveIsSuffix(s.file.records, s.lastIdOut);
    AboveSkip(s.file.records, s.lastOut, s.lastIdOut);
    SliceOfSuffix(s.file.records, k, Min(|s.file.records| - k, s.size));
  }

  /** A load may stop reading at any record once the table is full. */
  lemma LoadStops(s: State, client: seq<Item>, pos: nat)
    requires s.lastOut <= pos <= |s.file.records|
    requires client == Above(s.file.records[s.lastOut..pos], s.lastIdOut) && |client| <= s.size
    requires |client| < s.size ==> pos == |s.file.records|
    ensures LoadFromFile(s) ==
      s.(client := client,
         lastOut := if |client| == s.size then s.lastOut else pos,
         nextIdInClientTable := if client == [] then s.nextIdInClientTable else LastId(client) + 1)
  {
    var records := s.file.records;
    AboveConcat(records[s.lastOut..pos], records[pos..], s.lastIdOut);
    assert records[s.lastOut..] == records[s.lastOut..pos] + records[pos..];
    var newer := Above(records[s.lastOut..], s.lastIdOut);
    assert newer[..Min(|newer|, s.size)] == client;
  }

  lemma LoadFetched(s: State, l: State, k: nat)
    requires Sorted(s.file.records) && k < |s.file.records|
    requires s.lastOut <= |s.file.records| && NoneAbove(s.file.records[..s.lastOut], s.lastIdOut)
    requires AllAbove(s.file.records[k..], s.lastIdOut)
    requires 0 < |l.client| <= |s.file.records| - k && l.client == s.file.records[k..k + |l.client|]
    requires l.file == s.file
    requires l.lastOut == s.lastOut || (l.lastOut == |s.file.records| == k + |l.client|)
    ensures Fetched(l) == s.file.records[k + |l.client| - 1].id
    ensures NoneAbove(s.file.records[..l.lastOut], Fetched(l))
  {
    var n, records := |l.client|, s.file.records;
    assert l.client[n - 1] == records[k + n - 1] == records[k..][n - 1];
    if l.lastOut == |records| {
      assert records[..l.lastOut] == records;
    }
  }

  lemma LoadClientInv(s: State, l: State, k: nat)
    requires DiskInv(s) && s.lastIdOut <= s.currentId && s.lastOut <= l.lastOut <= |s.file.records|
    requires l == s.(client := l.client, lastOut := l.lastOut, nextIdInClientTable := Fetched(l) + 1)
    requires k < |s.file.records| && Above(s.file.records, s.lastIdOut) == s.file.records[k..]
    requires 0 < |l.client| <= |s.file.records| - k && l.client == s.file.records[k..k + |l.client|]
    requires Fetched(l) == s.file.records[k + |l.client| - 1].id
    requires NoneAbove(s.file.records[..l.lastOut], Fetched(l))
    ensures ClientInv(l)
  {
    UnreadSplit(l);
    assert l.client <= s.file.records[k..];
    if Fetched(l) == s.currentId {
      assert LastId(s.file.records) <= s.currentId - |s.disk|;
      assert k + |l.client| == |s.file.records| && s.disk == [];
    }
  }

  /** With an empty client table and nothing to copy, the file holds the next items. */
  lemma LoadRefines(s: State)
    requires Inv(s) && s.client == [] && Above(s.file.records, s.lastIdOut) != []
    ensures Inv(LoadFromFile(s)) && LoadFromFile(s).client != []
    ensures Unread(LoadFromFile(s)) == Unread(s)
  {
    var k := LoadedSlice(s);
    LoadShape(s);
    LoadedRefines(s, LoadFromFile(s), k);
  }

  lemma LoadShape(s: State)
    requires s.lastOut <= |s.file.records|
    ensures var l := LoadFromFile(s);
      && |l.client| <= s.size && l.lastOut == (if |l.client| == s.size then s.lastOut else |s.file.records|)
      && (l.client != [] ==> l == s.(client := l.client, lastOut := l.lastOut, nextIdInClientTable := LastId(l.client) + 1))
  {
  }

  lemma LoadedRefines(s: State, l: State, k: nat)
    requires Inv(s) && s.client == [] && k < |s.file.records|
    requires AllAbove(s.file.records[k..], s.lastIdOut) && Above(s.file.records, s.lastIdOut) == s.file.records[k..]
    requires 0 < |l.client| <= s.size && |l.client| <= |s.file.records| - k && l.client == s.file.records[k..k + |l.client|]
    requires l == s.(client := l.client, lastOut := l.lastOut, nextIdInClientTable := LastId(l.client) + 1)
    requires l.lastOut == s.lastOut || (l.lastOut == |s.file.records| == k + |l.client|)
    ensures Inv(l) && Unread(l) == Unread(s)
  {
    LoadFetched(s, l, k);
    LoadClientInv(s, l, k);
    SameDisk(s, l);
  }

  /** A read takes the head of the queue, and says "nothing" exactly when the queue is empty. */
  lemma ReadRefines(s: State)
    requires Inv(s)
    ensures var (s', r) := Read(s);
      && Inv(s')
      && (Unread(s) == [] ==> r == Nothing && s' == s)
      && (Unread(s) != [] ==>
            r == Got(Unread(s)[0]) && Unread(s') == Unread(s)[1..] && s'.lastIdOut == Unread(s)[0].id)
      && s'.currentId == s.currentId
  {
    UnreadEmptyIff(s);
    if s.lastIdOut < s.currentId {
      if s.client != [] {
        TakeRefines(s);
      } else {
        CopyRefines(s);
        var copied := CopiedFromDiskTable(s);
        if copied != [] {
          CopyTakeRefines(s);
        } else {
          LoadRefines(s);
          TakeRefines(LoadFromFile(s));
        }
      }
    }
  }

  // ---------------------------------------------------------------- beyond the limit on ids

  /** A scan for an id that lies before the table finds nothing, wrapped or not. */
  lemma ScanBefore(t: seq<Item>, last: nat, nextId: nat)
    requires Numbered(t, last) && nextId <= last - |t|
    ensures Consecutive(t, nextId % ID_LIMIT) == []
  {
    ScanMisses(t, nextId % ID_LIMIT);
  }

  /** What the scan finds first is the item looked for. */
  lemma {:induction false} ScanHead(t: seq<Item>, nextId: nat)
    requires Consecutive(t, nextId) != []
    ensures Consecutive(t, nextId)[0] in t && Consecutive(t, nextId)[0].id == nextId
  {
    if t[0].id < nextId { ScanHead(t[1..], nextId); }
  }

  /** Only one item has the id that is next. */
  lemma HeadIs(s: State, x: Item)
    requires DiskInv(s) && x in Stored(s) && x.id == s.lastIdOut + 1
    ensures Unread(s) != [] && Unread(s)[0] == x
  {
    var q := Unread(s);
    AboveMembers(Stored(s), s.lastIdOut, x);
    StoredSorted(s);
    AboveSorted(Stored(s), s.lastIdOut);
    AboveAllAbove(Stored(s), s.lastIdOut);
    var i :| 0 <= i < |q| && q[i] == x;
  }

  lemma ReadFromTable(s: State)
    requires Consistent(s) && s.client == [] && s.size < ID_LIMIT && s.currentId - |s.disk| <= s.lastIdOut < s.currentId
    requires s.lastIdOut + 1 < ID_LIMIT
    ensures Unread(s) != [] && Read(s).1 == Got(Unread(s)[0])
  {
    var run := Consecutive(s.disk, s.lastIdOut + 1);
    ScanFindsNextIff(s.disk, s.currentId, s.lastIdOut + 1);
    ScanHead(s.disk, s.lastIdOut + 1);
    HeadIs(s, run[0]);
    assert CopiedFromDiskTable(s)[0] == run[0];
  }

  lemma ReadMissesTable(s: State)
    requires Consistent(s) && s.client == [] && s.size < ID_LIMIT && s.currentId - |s.disk| <= s.lastIdOut < s.currentId
    requires s.lastIdOut + 1 >= ID_LIMIT
    ensures Read(s).1 == Failed
  {
    ScanFindsNextIff(s.disk, s.currentId, s.lastIdOut + 1);
    AboveNone(s.file.records[s.lastOut..], s.lastIdOut);
  }

  /** The next item is in the "to be saved" table: it is returned exactly below the limit. */
  lemma ReadFromTableIff(s: State)
    requires Consistent(s) && s.client == [] && s.size < ID_LIMIT && s.currentId - |s.disk| <= s.lastIdOut < s.currentId
    ensures Unread(s) != []
    ensures Read(s).1 == Got(Unread(s)[0]) <==> s.lastIdOut + 1 < ID_LIMIT
    ensures s.lastIdOut + 1 >= ID_LIMIT ==> Read(s).1 == Failed
  {
    if s.lastIdOut + 1 < ID_LIMIT {
      ReadFromTable(s);
    } else {
      UnreadEmptyIff(s);
      ReadMissesTable(s);
    }
  }

  /** The next item is in the file: it is returned whatever its id. */
  lemma ReadFromFile(s: State)
    requires Consistent(s) && s.client == [] && s.lastIdOut < s.currentId - |s.disk|
    ensures Unread(s) != [] && Read(s).1 == Got(Unread(s)[0])
  {
    ScanBefore(s.disk, s.currentId, s.lastIdOut + 1);
    FileHasNext(s);
  }

  lemma FileHasNext(s: State)
    requires Consistent(s) && s.client == [] && s.lastIdOut < s.currentId - |s.disk|
    ensures Unread(s) != [] && LoadFromFile(s).client != [] && LoadFromFile(s).client[0] == Unread(s)[0]
  {
    UnreadSplit(s);
    AboveMembers(s.file.records, s.lastIdOut, s.file.records[|s.file.records| - 1]);
    var k := LoadedSlice(s);
    assert LoadFromFile(s).client[0] == s.file.records[k] == s.file.records[k..][0];
  }

  /**
    Where exactly ids may grow too large: a read with something unread returns the head of the queue
    if and only if the client table holds it, or the file does, or its id is below 2^32.
   */
  lemma ReadReturnsHeadIff(s: State)
    requires Consistent(s) && s.size < ID_LIMIT && s.lastIdOut < s.currentId
    ensures Unread(s) != []
    ensures Read(s).1 == Got(Unread(s)[0]) <==>
      s.client != [] || s.lastIdOut < s.currentId - |s.disk| || s.lastIdOut + 1 < ID_LIMIT
  {
    UnreadEmptyIff(s);
    if s.client != [] {
      assert s.client[0] == Unread(s)[0];
    } else if s.lastIdOut < s.currentId - |s.disk| {
      ReadFromFile(s);
    } else {
      ReadFromTableIff(s);
    }
  }

  /** A consistent state with an item waiting that no read returns. */
  lemma ReadFailsAtLimit()
    ensures var s := State(1, [], [Item(ID_LIMIT, ['x'])], FifoFile(0, 0, []), ID_LIMIT, ID_LIMIT - 1, 0, 1, 0, false);
      Consistent(s) && Unread(s) == [Item(ID_LIMIT, ['x'])] && Read(s) == (s, Failed)
  {
    var x := Item(ID_LIMIT, ['x']);
    var s := State(1, [], [x], FifoFile(0, 0, []), ID_LIMIT, ID_LIMIT - 1, 0, 1, 0, false);
    assert Stored(s) == [x];
    AboveAll([x], ID_LIMIT - 1);
    assert s.file.records[..0] == [] && s.client <= Unread(s);
    ReadFromTableIff(s);
    assert LoadFromFile(s) == s;
  }

  // ---------------------------------------------------------------- acknowledgements

  lemma AckDiskInv(s: State, id: nat)
    requires DiskInv(s) && id <= s.lastIdOut <= s.currentId
    ensures DiskInv(Ack(s, id)) && |Ack(s, id).disk| <= |s.disk|
  {
    DropNumbered(s.disk, s.currentId, id);
  }

  lemma AckUnread(s: State, id: nat)
    requires DiskInv(s) && id <= s.lastIdOut
    ensures Unread(Ack(s, id)) == Unread(s)
  {
    DropIsAbove(s.disk, id);
    AboveTwice(s.disk, id, s.lastIdOut);
    UnreadSplit(s);
    UnreadSplit(Ack(s, id));
    if s.lastIdOnDisk <= id {
      AboveNone(s.file.records, s.lastIdOut);
    }
  }

  /** What an acknowledgement does to the file: everything on disk acknowledged empties it, otherwise the header tells. */
  lemma AckOnFile(s: State, id: nat)
    requires DiskInv(s)
    ensures Ack(s, id).file.records == if s.lastIdOnDisk <= id then [] else s.file.records
    ensures s.ackOnDisk ==> Ack(s, id).file.lastAckId == id && Ack(s, id).file.currentId == s.lastIdOnDisk
    ensures !s.ackOnDisk ==> Ack(s, id).file == s.file
    ensures AllAbove(Ack(s, id).disk, id)
  {
    DropIsAbove(s.disk, id);
    AboveAllAbove(s.disk, id);
  }

  /** An acknowledgement of items already read leaves the queue alone. */
  lemma AckRefines(s: State, id: nat)
    requires Inv(s) && id <= s.lastIdOut
    ensures Inv(Ack(s, id)) && Unread(Ack(s, id)) == Unread(s)
  {
    AckDiskInv(s, id);
    AckUnread(s, id);
  }
}
