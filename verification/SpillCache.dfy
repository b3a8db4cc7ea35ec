/** The spill cache in place: a circular array of 100 slots and the spool directory. */
module SpillCache {
  import opened Options
  import opened FileIds
  import opened SpoolNames
  import W = Wrapping
  import opened SpillCacheModel
  import opened SpillCacheRuns

  const SIZE: nat := 100

  function Wrap(n: nat): nat { W.Wrap(n, SIZE) }

  /** `inc_cache_index` */
  function Inc(i: nat): nat { if i + 1 >= SIZE then 0 else i + 1 }

  ghost predicate NoRepeats(dir: seq<FileId>) {
    forall i, j :: 0 <= i < j < |dir| ==> dir[i] != dir[j]
  }

  /** The filter of `is_spool_file`: bounds with major id -1 are disabled. */
  predicate Selected(d: FileId, low: FileId, high: FileId) {
    if low.maj == -1 && high.maj == -1 then true
    else if low.maj == -1 then Newer(d, high)
    else if high.maj == -1 then Newer(low, d)
    else Newer(low, d) && Newer(d, high)
  }

  /** The newest of `m` and the files of a directory. */
  function Newest(m: FileId, dir: seq<FileId>): FileId {
    if dir == [] then m else Later(dir[|dir| - 1], Newest(m, dir[..|dir| - 1]))
  }

  lemma {:induction false} NewestIs(m: FileId, dir: seq<FileId>)
    ensures var r := Newest(m, dir);
      && !Newer(m, r) && (forall i :: 0 <= i < |dir| ==> !Newer(dir[i], r))
      && (r == m || r in dir)
  {
    if dir != [] { NewestIs(m, dir[..|dir| - 1]); }
  }

  /** A cache just opened on a directory, before it fills up from there. */
  function Initial(files: seq<FileId>): State {
    State([], 0, Elements(files), NO_FILE, Newest(NO_FILE, files))
  }

  /** Scanning the directory again finds nothing newer than what is known. */
  lemma ScanKeeps(s: State, dir: seq<FileId>)
    requires Inv(s) && s.disk == Elements(dir)
    ensures Newest(s.diskMax, dir) == s.diskMax
  {
    NewestIs(s.diskMax, dir);
    ElementsAre(dir);
  }

  /** Opening starts a run. */
  lemma OpeningStartsRun(files: seq<FileId>, accepted: seq<FileId>)
    requires (forall d :: d in files ==> IntId(d)) && Increasing(accepted) && Elements(accepted) == Elements(files)
    ensures Opened(World(Initial(files), accepted, [], {}))
  {
    NewestIs(NO_FILE, files);
    ElementsAre(files);
  }

  // ---------------------------------------------------------------- listing the directory

  /** Put a file into a list sorted by name. */
  method InsertByName(list: seq<FileId>, d: FileId) returns (r: seq<FileId>)
    requires Increasing(list) && d !in list && InWidth(d) && forall i :: 0 <= i < |list| ==> InWidth(list[i])
    ensures Increasing(r) && forall x :: x in r <==> x in list || x == d
  {
    var p := |list|;
    while p > 0 && Less(NameOf(d), NameOf(list[p - 1]))
      invariant 0 <= p <= |list|
      invariant forall k :: p <= k < |list| ==> Newer(list[k], d)
    {
      NamesSortAsIds(d, list[p - 1]);
      p := p - 1;
    }
    if p > 0 {
      NamesSortAsIds(d, list[p - 1]);
    }
    r := list[..p] + [d] + list[p..];
  }

  /** `scandir` with the filter, sorted by name. */
  method List(dir: seq<FileId>, low: FileId, high: FileId) returns (r: seq<FileId>)
    requires NoRepeats(dir) && forall x :: x in dir ==> InWidth(x)
    ensures Increasing(r) && forall d :: d in r <==> d in dir && Selected(d, low, high)
  {
    r := [];
    for i := 0 to |dir|
      invariant Increasing(r) && forall d :: d in r <==> d in dir[..i] && Selected(d, low, high)
    {
      assert dir[..i + 1] == dir[..i] + [dir[i]];
      if Selected(dir[i], low, high) {
        assert forall k :: 0 <= k < |r| ==> r[k] in r;
        r := InsertByName(r, dir[i]);
      }
    }
    assert dir[..|dir|] == dir;
  }

  // ---------------------------------------------------------------- the cache

  class Cache {
    const slots: array<Option<Entry>>
    var start: nat
    var end: nat
    var firstNew: int  // -1 if none
    var inMax: FileId
    var diskMax: FileId
    var dir: seq<FileId>  // the spool directory, in no particular order
    ghost var fifo: seq<Entry>
    ghost var read: nat

    /** The circular invariant. */
    ghost predicate Valid()
      reads this, slots
    {
      && slots.Length == SIZE && start < SIZE
      && read <= |fifo| <= CAPACITY
      && end == Wrap(start + |fifo|)
      && firstNew == (if read == |fifo| then -1 else Wrap(start + read))
      && (forall k :: 0 <= k < |fifo| ==> slots[Wrap(start + k)] == Some(fifo[k]))
      && NoRepeats(dir)
    }

    ghost function View(): State
      reads this
    {
      State(fifo, read, Elements(dir), inMax, diskMax)
    }

    /** `TR_cache_open` */
    constructor (files: seq<FileId>)
      requires NoRepeats(files) && forall d :: d in files ==> InWidth(d)
      ensures Valid() && dir == files && fresh(slots)
      ensures exists listing :: IsListing(Initial(files), listing) && View() == Fill(Initial(files), listing)
    {
      slots := new Option<Entry>[SIZE](_ => None);
      start, end, firstNew := 0, 0, -1;
      inMax, diskMax, dir := NO_FILE, NO_FILE, files;
      fifo, read := [], 0;
      new;
      ghost var s := View();
      ghost var listing := Update(false);
      assert s.(diskMax := Newest(s.diskMax, files)) == Initial(files);
      assert IsListing(Initial(files), listing);
    }

    method SpaceLeft() returns (n: nat)
      requires Valid()
      ensures n == CAPACITY - |fifo|
    {
      if start <= end { n := SIZE - (end - start) - 1; } else { n := start - end - 1; }
    }

    /** `TR_cache_file_write`: nothing is done for a file that has a path. */
    method Write(id: FileId, hasPath: bool)
      requires Valid()
      modifies this`dir, this`diskMax
      ensures Valid() && View() == WriteFile(old(View()), id, hasPath)
    {
      if hasPath { return; }
      ghost var before := dir;
      if id !in dir { dir := dir + [id]; }
      ElementsGrow(before, id, dir);
      if Newer(id, diskMax) { diskMax := id; }
    }

    /** Write the `k`-th file of the queue unless it has a copy. */
    method SaveSlot(i: nat, ghost k: nat)
      requires Valid() && k < |fifo| && i == Wrap(start + k)
      modifies this`dir, this`diskMax, this`fifo, slots
      ensures Valid() && View() == SaveOne(old(View()), k)
    {
      assert slots[Wrap(start + k)] == Some(fifo[k]);
      var e := slots[i].value;
      if !e.saved {
        Write(e.id, false);
        slots[i] := Some(Entry(e.id, true));
        fifo := fifo[k := Entry(e.id, true)];
      }
    }

    /** `TR_cache_save` */
    method SaveAll()
      requires Valid()
      modifies this`dir, this`diskMax, this`fifo, slots
      ensures Valid() && View() == Save(old(View()))
    {
      var i := start;
      ghost var k, all := 0, Save(View());
      while i != end
        invariant Valid() && k <= |fifo| && i == Wrap(start + k)
        invariant all == SaveFrom(View(), k)
        decreases |fifo| - k
      {
        SaveSlot(i, k);
        i, k := Inc(i), k + 1;
      }
    }

    /** Put a file behind the last. */
    method Put(e: Entry)
      requires Valid() && |fifo| < CAPACITY
      modifies this`end, this`firstNew, this`inMax, this`fifo, slots
      ensures Valid() && View() == Append(old(View()), e)
    {
      slots[end] := Some(e);
      if firstNew == -1 { firstNew := end; }
      end := Inc(end);
      if Newer(e.id, inMax) { inMax := e.id; }
      fifo := fifo + [e];
    }

    /** `TR_cache_insert`; a file may have a path already. */
    method InsertFile(id: FileId, hasPath: bool) returns (ok: bool)
      requires Valid()
      modifies this, slots
      ensures Valid() && View() == Insert(old(View()), id, hasPath) && ok == Accepts(old(View()), id)
    {
      if !Newer(id, inMax) || !Newer(id, diskMax) { return false; }
      if Newer(diskMax, inMax) {
        Write(id, hasPath);
      } else {
        var space := SpaceLeft();
        if space == 0 {
          SaveAll();
          Write(id, hasPath);
        } else {
          Put(Entry(id, hasPath));
        }
      }
      ok := true;
    }

    /** `TR_cache_get_next` */
    method Next() returns (r: Option<FileId>)
      requires Valid()
      modifies this`firstNew, this`read
      ensures Valid() && (View(), r) == GetNext(old(View()))
    {
      if firstNew == -1 { return None; }
      assert slots[Wrap(start + read)] == Some(fifo[read]);
      r := Some(slots[firstNew].value.id);
      firstNew := Inc(firstNew);
      if firstNew == end { firstNew := -1; }
      read := read + 1;
    }

    /** The newest file the directory holds, if newer than any known. */
    method ScanNewest()
      requires Valid()
      modifies this`diskMax
      ensures Valid() && diskMax == Newest(old(diskMax), dir)
    {
      ghost var m := diskMax;
      for i := 0 to |dir|
        invariant diskMax == Newest(m, dir[..i])
      {
        assert dir[..i + 1][..i] == dir[..i];
        if Newer(dir[i], diskMax) { diskMax := dir[i]; }
      }
      assert dir[..|dir|] == dir;
    }

    /** Take files from a listing while there is space. */
    method FillFrom(listing: seq<FileId>)
      requires Valid()
      modifies this`end, this`firstNew, this`inMax, this`fifo, slots
      ensures Valid() && View() == Fill(old(View()), listing)
    {
      var space := SpaceLeft();
      ghost var all := Fill(View(), listing);
      assert listing[0..] == listing;
      for i := 0 to |listing|
        invariant Valid() && space == CAPACITY - |fifo|
        invariant all == Fill(View(), listing[i..])
      {
        assert listing[i..][0] == listing[i] && listing[i..][1..] == listing[i + 1..];
        if space > 0 {
          Put(Entry(listing[i], true));
          space := space - 1;
        }
      }
    }

    /** `TR_cache_update`; whether a file waited too long to be saved is up to the caller. */
    method Update(timeout: bool) returns (ghost listing: seq<FileId>)
      requires Valid() && (forall d :: d in dir ==> InWidth(d)) && (forall e :: e in fifo ==> InWidth(e.id))
      requires inMax == NO_FILE || Natural(inMax)
      modifies this, slots
      ensures Valid()
      ensures var s := if timeout then Save(old(View())) else old(View());
        && IsListing(s, listing)
        && Elements(dir) == s.disk && (!timeout ==> dir == old(dir))
        && View() == Fill(s.(diskMax := Newest(s.diskMax, dir)), listing)
    {
      SavedDisk(View(), 0);
      ElementsAre(dir);
      if timeout { SaveAll(); }
      ElementsAre(dir);
      ScanNewest();
      var names := List(dir, NO_FILE, inMax);
      listing := names;
      ListingIs(View(), dir, names);
      FillFrom(names);
    }

    /** Drop the first file of the queue. */
    method DropFirst()
      requires Valid() && fifo != []
      modifies this`start, this`firstNew, this`fifo, this`read, slots
      ensures Valid() && fifo == old(fifo)[1..] && read == if old(read) > 0 then old(read) - 1 else 0
    {
      slots[start] := None;
      if start == firstNew {
        firstNew := Inc(firstNew);
        if firstNew == end { firstNew := -1; }
      }
      start := Inc(start);
      fifo, read := fifo[1..], if read > 0 then read - 1 else 0;
      forall k | 0 <= k < |fifo| ensures slots[Wrap(start + k)] == Some(fifo[k]) { WrapOn(old(start), k); }
    }

    /** `TR_cache_delete` */
    method DeleteUpTo(fid: FileId)
      requires Valid()
      modifies this, slots
      ensures Valid() && View() == Delete(old(View()), fid)
    {
      ghost var s, n := View(), 0;
      while start != end && !Newer(slots[start].value.id, fid)
        invariant Valid() && n <= |s.fifo| && fifo == s.fifo[n..] && Old(s.fifo, fid) == n + Old(fifo, fid)
        invariant read == if s.read > n then s.read - n else 0
        invariant inMax == s.inMax && diskMax == s.diskMax && Elements(dir) == s.disk
        decreases |fifo|
      {
        OldStep(fifo, fid);
        DropFirst();
        n := n + 1;
      }
      Unlink(FileId(fid.maj, Incremented(fid.min)));
      SelectedIsRemoved(fid);
    }

    /** Remove the selected files from the directory. */
    method Unlink(low: FileId)
      requires Valid()
      modifies this`dir
      ensures Valid() && Elements(dir) == set d | d in old(Elements(dir)) && !Selected(d, low, NO_FILE)
    {
      var kept := [];
      for i := 0 to |dir|
        invariant NoRepeats(kept) && forall d :: d in kept <==> d in dir[..i] && !Selected(d, low, NO_FILE)
      {
        assert dir[..i + 1] == dir[..i] + [dir[i]];
        if !Selected(dir[i], low, NO_FILE) { kept := kept + [dir[i]]; }
      }
      assert dir[..|dir|] == dir;
      ElementsAre(dir);
      ElementsAre(kept);
      dir := kept;
    }
  }

  lemma WrapOn(start: nat, k: nat)
    requires start < SIZE && k + 1 < SIZE
    ensures Wrap(Inc(start) + k) == Wrap(start + (k + 1)) != start
  {
  }

  lemma OldStep(fifo: seq<Entry>, fid: FileId)
    requires fifo != [] && !Newer(fifo[0].id, fid)
    ensures Old(fifo, fid) == 1 + Old(fifo[1..], fid)
  {
  }

  lemma SelectedIsRemoved(fid: FileId)
    ensures forall d :: Selected(d, FileId(fid.maj, Incremented(fid.min)), NO_FILE) == Removed(d, fid)
  {
  }

  lemma {:induction false} SavedDisk(s: State, i: nat)
    requires i <= |s.fifo|
    ensures SaveFrom(s, i).inMax == s.inMax
    ensures forall d :: d in SaveFrom(s, i).disk ==> d in s.disk || exists k :: 0 <= k < |s.fifo| && s.fifo[k].id == d
    decreases |s.fifo| - i
  {
    if i < |s.fifo| {
      SavedDisk(SaveOne(s, i), i + 1);
      assert forall k :: 0 <= k < |s.fifo| ==> SaveOne(s, i).fifo[k].id == s.fifo[k].id;
    }
  }

  /** With the bounds of an update, the filter selects the pending files. */
  lemma ListingIs(s: State, dir: seq<FileId>, names: seq<FileId>)
    requires s.disk == Elements(dir) && (forall d :: d in dir ==> Natural(d)) && (s.inMax == NO_FILE || Natural(s.inMax))
    requires Increasing(names) && forall d :: d in names <==> d in dir && Selected(d, NO_FILE, s.inMax)
    ensures IsListing(s, names)
  {
    ElementsAre(dir);
    ElementsAre(names);
  }

  lemma ElementsAre(dir: seq<FileId>)
    ensures forall d :: d in Elements(dir) <==> d in dir
  {
  }

  lemma ElementsGrow(before: seq<FileId>, d: FileId, dir: seq<FileId>)
    requires dir == if d in before then before else before + [d]
    ensures Elements(dir) == Elements(before) + {d}
  {
    ElementsAre(before);
    ElementsAre(dir);
  }
}
