/** The permanent FIFO as it runs: two circular tables, a file and counters updated in place. */
module PermFifo {
  import opened Options
  import opened Items
  import opened CircularTables
  import opened PermFifoModel
  import opened PermFifoRuns

  /** The bytes `permFIFO_write` stores: `size` bytes, or a NUL-terminated chain when `size` is 0. */
  function BytesOf(data: seq<char>, size: nat): (r: seq<char>)
    requires size <= |data| && (size == 0 ==> '\0' in data)
    ensures r != [] && r <= data
  {
    if size > 0 then data[..size]
    else if data[0] == '\0' then data[..1]
    else [data[0]] + BytesOf(data[1..], 0)
  }

  /** All of the data: as many bytes as `size` says, or up to and including the only NUL of the text. */
  ghost predicate IsStored(bytes: seq<char>, data: seq<char>, size: nat) {
    && bytes != [] && bytes <= data
    && (size > 0 ==> |bytes| == size)
    && (size == 0 ==> bytes[|bytes| - 1] == '\0' && '\0' !in bytes[..|bytes| - 1])
  }

  lemma {:induction false} BytesAreStored(data: seq<char>, size: nat)
    requires size <= |data| && (size == 0 ==> '\0' in data)
    ensures IsStored(BytesOf(data, size), data, size)
    decreases |data|
  {
    if size == 0 && data[0] != '\0' {
      BytesAreStored(data[1..], 0);
      var r := BytesOf(data[1..], 0);
      assert BytesOf(data, 0)[..|r|] == [data[0]] + r[..|r| - 1];
    }
  }

  /** What is kept in the client table of the items copied: all but the one to return. */
  function Rest(got: seq<Item>): seq<Item> {
    if got == [] then [] else got[1..]
  }

  class PermFifo {
    const tableClient: CircularTable
    const tableDisk: CircularTable
    var file: FifoFile
    var currentId: nat
    var lastIdOut: nat
    var lastOut: nat
    var nextIdInClientTable: nat
    var lastIdOnDisk: nat
    var ackOnDisk: bool

    /** The tables are sound, separate, and of one size. */
    ghost predicate Wired()
      reads this, tableClient, tableClient.items, tableDisk, tableDisk.items
    {
      && tableClient != tableDisk && tableClient.items != tableDisk.items
      && tableClient.Valid() && tableDisk.Valid()
      && tableClient.size == tableDisk.size
    }

    ghost function View(): State
      reads this, tableClient, tableDisk
    {
      State(tableClient.size, tableClient.contents, tableDisk.contents, file, currentId, lastIdOut, lastOut,
            nextIdInClientTable, lastIdOnDisk, ackOnDisk)
    }

    ghost predicate Valid()
      reads this, tableClient, tableClient.items, tableDisk, tableDisk.items
    {
      Wired() && Inv(View())
    }

    /** The queue this object stands for. */
    ghost function Queue(): seq<Item>
      reads this, tableClient, tableDisk
    {
      Unread(View())
    }

    /** `permFIFO_new`, after the file was cleaned: the queue is what the file still owes. */
    constructor (size: nat, clean: FifoFile)
      requires 0 < size && CleanFile(clean)
      ensures Valid() && View() == Open(size, clean)
      ensures Queue() == clean.records
      ensures fresh(tableClient) && fresh(tableClient.items) && fresh(tableDisk) && fresh(tableDisk.items)
    {
      tableClient := new CircularTable(size);
      tableDisk := new CircularTable(size);
      file := clean;
      currentId, lastIdOut, lastOut := clean.currentId, 0, 0;
      nextIdInClientTable := 1;
      lastIdOnDisk, ackOnDisk := clean.currentId, clean.currentId != 0;
      new;
      OpenInv(clean, size);
    }

    /** `permFIFO_save_tabledisk` with the append loop of `ct_save`. */
    method SaveTable()
      requires Wired()
      modifies this`file, this`lastIdOnDisk, this`ackOnDisk, tableDisk, tableDisk.items
      ensures Wired() && View() == SaveTableDisk(old(View()))
    {
      var n := tableDisk.Count();
      if n == 0 {
        return;
      }
      var last := tableDisk.At(n - 1);
      var records := tableDisk.Save(file.records);
      file := file.(records := records);
      lastIdOnDisk := last.id;
      ackOnDisk := true;
    }

    /** `permFIFO_flush`: save when the time since the last flush has elapsed. */
    method Flush(elapsed: bool)
      requires Valid()
      modifies this`file, this`lastIdOnDisk, this`ackOnDisk, tableDisk, tableDisk.items
      ensures Valid() && View() == if elapsed then SaveTableDisk(old(View())) else old(View())
      ensures Queue() == old(Queue())
      ensures elapsed ==> tableDisk.contents == []
    {
      FlushRefines(View());
      if elapsed {
        SaveTable();
      }
    }

    /** First half of a write: offer the numbered item to the client table. */
    method Offer(item: Item)
      requires Wired()
      modifies this`file, this`lastIdOnDisk, this`ackOnDisk, this`currentId, this`nextIdInClientTable,
               tableClient, tableClient.items, tableDisk, tableDisk.items
      ensures Wired() && View() == OfferToClient(old(View()), item)
    {
      currentId := item.id;
      if item.id == nextIdInClientTable {
        var kept := tableClient.Write(item);
        if kept {
          nextIdInClientTable := nextIdInClientTable + 1;
        } else {
          nextIdInClientTable := 0;
          SaveTable();
        }
      }
    }

    /** Second half: append it to the "to be saved" table, saving first when that is full. */
    method Append(item: Item)
      requires Wired()
      modifies this`file, this`lastIdOnDisk, this`ackOnDisk, tableDisk, tableDisk.items
      ensures Wired() && View() == AppendToDiskTable(old(View()), item)
    {
      var ok := tableDisk.Write(item);
      if !ok {
        SaveTable();
        ok := tableDisk.Write(item);
      }
    }

    method Store(bytes: seq<char>)
      requires Wired()
      modifies this`file, this`lastIdOnDisk, this`ackOnDisk, this`currentId, this`nextIdInClientTable,
               tableClient, tableClient.items, tableDisk, tableDisk.items
      ensures Wired() && View() == PermFifoModel.Write(old(View()), bytes)
    {
      var item := Item(currentId + 1, bytes);
      Offer(item);
      Append(item);
    }

    /** `permFIFO_write`. */
    method Write(data: Option<seq<char>>, size: int) returns (code: int)
      requires Valid() && currentId + 1 < ID_LIMIT
      requires data.Some? && size >= 0 ==> size <= |data.value| && (size == 0 ==> '\0' in data.value)
      modifies this, tableClient, tableClient.items, tableDisk, tableDisk.items
      ensures Valid() && lastIdOut == old(lastIdOut)
      ensures code == -1 <==> data.None? || size < 0
      ensures code == -1 ==> View() == old(View())
      ensures code != -1 ==> code == 0 && View() == PermFifoModel.Write(old(View()), BytesOf(data.value, size))
      ensures code == 0 ==> currentId == old(currentId) + 1
      ensures code == 0 ==> exists bytes ::
        IsStored(bytes, data.value, size) && Queue() == old(Queue()) + [Item(currentId, bytes)]
    {
      if data.None? || size < 0 {
        return -1;
      }
      var bytes := BytesOf(data.value, size);
      BytesAreStored(data.value, size);
      ghost var before := View();
      WriteShape(before, bytes);
      WriteRefines(before, bytes);
      Store(bytes);
      return 0;
    }

    /** The first item copied is the one to return; the following ones go to the client table. */
    method KeepCopy(x: Item, ghost got: seq<Item>, copied: nat) returns (ok: bool)
      requires Wired() && copied == |got| && tableClient.contents == Rest(got)
      modifies tableClient, tableClient.items
      ensures Wired() && ok == (|got| < tableClient.size + 1)
      ensures tableClient.contents == Rest(if ok then got + [x] else got)
    {
      ok := true;
      if copied > 0 {
        ok := tableClient.Write(x);
      }
    }

    /** The copy loop of `permFIFO_read`: consecutive ids from the "to be saved" table. */
    method CopyLoop(start: nat) returns (copied: nat, item: Item, last: nat, ghost got: seq<Item>)
      requires Wired() && tableClient.contents == []
      modifies tableClient, tableClient.items
      ensures Wired() && copied == |got| <= tableClient.size + 1 && tableClient.contents == Rest(got)
      ensures got <= Consecutive(tableDisk.contents, start)
      ensures copied < tableClient.size + 1 ==> got == Consecutive(tableDisk.contents, start)
      ensures copied > 0 ==> item == got[0] && last == LastId(got)
    {
      copied, item, last, got := 0, Item(0, []), 0, [];
      var nextId: nat, i: nat, n := start, 0, tableDisk.nItems;
      ghost var t := tableDisk.contents;
      assert t[0..] == t;
      while i < n
        invariant Wired() && tableDisk.contents == t && i <= n && copied == |got| && tableClient.contents == Rest(got)
        invariant got + Consecutive(t[i..], nextId) == Consecutive(t, start)
        invariant copied > 0 ==> item == got[0] && last == LastId(got)
      {
        ConsecutiveStep(t, i, nextId);
        var x := tableDisk.At(i);
        if x.id == nextId {
          var ok := KeepCopy(x, got, copied);
          if !ok {
            break;
          }
          item := if copied == 0 then x else item;
          got := got + [x];
          copied, last, nextId := copied + 1, x.id, (nextId + 1) % ID_LIMIT;
        } else if x.id > nextId {
          break;
        }
        i := i + 1;
      }
    }

    method CopyFromDiskTable() returns (copied: nat, item: Item)
      requires Wired() && tableClient.contents == []
      modifies this`nextIdInClientTable, tableClient, tableClient.items
      ensures Wired() && copied == |CopiedFromDiskTable(old(View()))|
      ensures copied == 0 ==> View() == old(View())
      ensures copied > 0 ==>
        var c := CopiedFromDiskTable(old(View()));
        item == c[0] && View() == old(View()).(client := c[1..], nextIdInClientTable := LastId(c) + 1)
    {
      var last; ghost var got;
      copied, item, last, got := CopyLoop((lastIdOut + 1) % ID_LIMIT);
      assert got == CopiedFromDiskTable(old(View()));
      if copied > 0 {
        nextIdInClientTable := last + 1;
      }
    }

    /** `ct_load` and the bookkeeping after it. */
    method Load()
      requires Wired() && tableClient.contents == [] && lastOut <= |file.records|
      modifies this`lastOut, this`nextIdInClientTable, tableClient, tableClient.items
      ensures Wired() && View() == LoadFromFile(old(View()))
    {
      var pos, full := tableClient.Load(file.records, lastOut, lastIdOut);
      LoadStops(old(View()), tableClient.contents, pos);
      if !full {
        lastOut := pos;
      }
      var n := tableClient.Count();
      if n > 0 {
        var last := tableClient.At(n - 1);
        nextIdInClientTable := last.id + 1;
      }
    }

    /** `permFIFO_read` once something is there: the client table, else the other table, else the file. */
    method Fetch() returns (ok: bool, item: Item)
      requires Wired() && lastOut <= |file.records| && lastIdOut < currentId
      modifies this, tableClient, tableClient.items
      ensures Wired() && View() == PermFifoModel.Read(old(View())).0
      ensures PermFifoModel.Read(old(View())).1 == if ok then Got(item) else Failed
    {
      ok, item := tableClient.Read();
      if !ok {
        var copied, first := CopyFromDiskTable();
        if copied > 0 {
          ok, item := true, first;
        } else {
          Load();
          ok, item := tableClient.Read();
        }
      }
      if ok {
        lastIdOut := item.id;
      }
    }

    /** `permFIFO_read` with no waiting: code 0 and the head of the queue, or code 1 when it is empty. */
    method Read() returns (code: int, item: Item)
      requires Valid()
      modifies this, tableClient, tableClient.items
      ensures Valid() && View() == PermFifoModel.Read(old(View())).0
      ensures code == 1 <==> old(Queue()) == []
      ensures code == 1 ==> Queue() == old(Queue())
      ensures code != 1 ==> code == 0 && item == old(Queue())[0] && Queue() == old(Queue())[1..]
      ensures code == 0 ==> lastIdOut == item.id
    {
      ghost var before := View();
      ReadRefines(before);
      UnreadEmptyIff(before);
      if lastIdOut >= currentId {
        return 1, Item(0, []);
      }
      var ok, x := Fetch();
      return if ok then 0 else -1, x;
    }

    method Acknowledge(id: nat)
      requires Wired()
      modifies this`file, this`lastOut, this`ackOnDisk, tableDisk, tableDisk.items
      ensures Wired() && View() == PermFifoModel.Ack(old(View()), id)
    {
      tableDisk.DropUpTo(id);
      if !ackOnDisk {
        return;
      }
      if lastIdOnDisk <= id {
        file := file.(records := []);
        lastOut := 0;
        ackOnDisk := false;
      }
      file := file.(lastAckId := id, currentId := lastIdOnDisk);
    }

    /** `permFIFO_ack`: acknowledging what was read does not disturb the queue. */
    method Ack(id: nat)
      requires Valid() && id <= lastIdOut
      modifies this`file, this`lastOut, this`ackOnDisk, tableDisk, tableDisk.items
      ensures Valid() && View() == PermFifoModel.Ack(old(View()), id)
      ensures Queue() == old(Queue())
      ensures old(file.lastAckId) <= id ==> Pending(file) == Above(old(Pending(file)), id)
    {
      ghost var before := View();
      Acknowledge(id);
      AckRefines(before, id);
      AckExactIff(before, id);
    }
  }
}
