/** The circular table of fixed size both memory queues of the permanent FIFO are built on. */
module CircularTables {
  import opened Items
  import opened PermFifoModel

  class CircularTable {
    const size: nat
    const items: array<Item>
    var indexFirst: nat
    var nItems: nat
    ghost var contents: seq<Item>  // the stored items, oldest first

    /** Table index of the `i`-th oldest item, wrapping around. */
    function Slot(i: nat): nat
      reads this
    {
      if indexFirst + i >= size then indexFirst + i - size else indexFirst + i
    }

    ghost predicate Valid()
      reads this, items
    {
      && 0 < size == items.Length
      && indexFirst < size
      && |contents| == nItems <= size
      && forall i :: 0 <= i < nItems ==> contents[i] == items[Slot(i)]
    }

    constructor (size: nat)
      requires 0 < size
      ensures Valid() && fresh(items) && this.size == size && contents == []
    {
      this.size := size;
      this.items := new Item[size](_ => Item(0, []));
      this.indexFirst := 0;
      this.nItems := 0;
      this.contents := [];
    }

    /** Access by position. */
    method At(i: nat) returns (item: Item)
      requires Valid() && i < |contents|
      ensures item == contents[i]
    {
      item := items[Slot(i)];
    }

    method Count() returns (n: nat)
      requires Valid()
      ensures n == |contents|
    {
      n := nItems;
    }

    /** `ct_write`: refused exactly when the table is full. */
    method Write(item: Item) returns (ok: bool)
      requires Valid()
      modifies this`nItems, this`contents, items
      ensures Valid()
      ensures ok == (|old(contents)| < size)
      ensures contents == if ok then old(contents) + [item] else old(contents)
    {
      if nItems == size {
        return false;
      }
      items[Slot(nItems)] := item;
      nItems := nItems + 1;
      contents := contents + [item];
      return true;
    }

    /** `ct_read`: takes the oldest item and blanks its slot. */
    method Read() returns (ok: bool, item: Item)
      requires Valid()
      modifies this`nItems, this`indexFirst, this`contents, items
      ensures Valid()
      ensures ok == (old(contents) != [])
      ensures ok ==> item == old(contents)[0] && contents == old(contents)[1..]
      ensures !ok ==> contents == old(contents)
    {
      if nItems == 0 {
        return false, Item(0, []);
      }
      item := items[indexFirst];
      items[indexFirst] := Item(0, []);
      nItems := nItems - 1;
      indexFirst := if indexFirst + 1 >= size then indexFirst + 1 - size else indexFirst + 1;
      contents := contents[1..];
      return true, item;
    }

    /** `ct_save`: empties the table into a file, behind what the file already holds. */
    method Save(file: seq<Item>) returns (r: seq<Item>)
      requires Valid()
      modifies this`nItems, this`indexFirst, this`contents, items
      ensures Valid() && contents == [] && r == file + old(contents)
    {
      r := file;
      while true
        invariant Valid() && r + contents == file + old(contents)
        decreases nItems
      {
        var ok, item := Read();
        if !ok {
          break;
        }
        r := r + [item];
      }
    }

    /** `ct_load`: adds the records from position `start` with at least the given id, while there is room. */
    method Load(file: seq<Item>, start: nat, id: nat) returns (pos: nat, full: bool)
      requires Valid() && contents == [] && start <= |file|
      modifies this`nItems, this`contents, items
      ensures Valid() && start <= pos <= |file|
      ensures contents == Above(file[start..pos], id)
      ensures full == (|contents| == size)
      ensures !full ==> pos == |file|
    {
      pos := start;
      while true
        invariant Valid() && start <= pos <= |file|
        invariant contents == Above(file[start..pos], id)
        decreases |file| - pos
      {
        if nItems == size {
          return pos, true;
        }
        if pos == |file| {
          return pos, false;
        }
        AboveConcat(file[start..pos], [file[pos]], id);
        assert file[start..pos + 1] == file[start..pos] + [file[pos]];
        if file[pos].id >= id + 1 {
          var _ := Write(file[pos]);
        }
        pos := pos + 1;
      }
    }

    /** The removal loop of `permFIFO_ack`: from the front, up to the first item above `id`. */
    method DropUpTo(id: nat)
      requires Valid()
      modifies this`nItems, this`indexFirst, this`contents, items
      ensures Valid() && contents == Drop(old(contents), id)
    {
      while nItems != 0
        invariant Valid() && Drop(contents, id) == Drop(old(contents), id)
        decreases nItems
      {
        if items[indexFirst].id > id {
          break;
        }
        var _, _ := Read();
      }
    }
  }
}
