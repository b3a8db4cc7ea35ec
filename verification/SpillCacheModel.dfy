/**
  The cache of files to transmit: a bounded queue in memory that spills to a spool directory.
  File ids increase, so what is still to be handed out is a set of ids taken smallest first.
 */
module SpillCacheModel {
  import opened Options
  import opened FileIds

  /** A file in memory, and whether it has a path, by which the cache takes it to be written to disk. */
  datatype Entry = Entry(id: FileId, saved: bool)

  /** `read` files of the queue in memory have been handed out; `disk` holds the ids in the spool directory. */
  datatype State = State(fifo: seq<Entry>, read: nat, disk: set<FileId>, inMax: FileId, diskMax: FileId)

  const CAPACITY: nat := 99
  const NO_FILE := FileId(-1, -1)

  function Later(a: FileId, b: FileId): FileId { if Newer(a, b) then a else b }

  // ---------------------------------------------------------------- operations

  /** Write entry `i` to disk unless it is there already. */
  function SaveOne(s: State, i: nat): State
    requires i < |s.fifo|
  {
    var e := s.fifo[i];
    if e.saved then s
    else s.(fifo := s.fifo[i := Entry(e.id, true)], disk := s.disk + {e.id}, diskMax := Later(e.id, s.diskMax))
  }

  function SaveFrom(s: State, i: nat): (r: State)
    requires i <= |s.fifo|
    decreases |s.fifo| - i
  {
    if i == |s.fifo| then s else SaveFrom(SaveOne(s, i), i + 1)
  }

  function Save(s: State): State { SaveFrom(s, 0) }

  /** `TR_cache_file_write`: a file that has a path is taken to be on disk already, and nothing is done. */
  function WriteFile(s: State, id: FileId, hasPath: bool): State {
    if hasPath then s else s.(disk := s.disk + {id}, diskMax := Later(id, s.diskMax))
  }

  function Append(s: State, e: Entry): State {
    s.(fifo := s.fifo + [e], inMax := Later(e.id, s.inMax))
  }

  function Accepts(s: State, id: FileId): bool { Newer(id, s.inMax) && Newer(id, s.diskMax) }

  function Insert(s: State, id: FileId, hasPath: bool): State {
    if !Accepts(s, id) then s
    else if Newer(s.diskMax, s.inMax) then WriteFile(s, id, hasPath)
    else if |s.fifo| >= CAPACITY then WriteFile(Save(s), id, hasPath)
    else Append(s, Entry(id, hasPath))
  }

  /** An insertion goes to memory: nothing is pending on disk and there is room. */
  predicate GoesToMemory(s: State) { !Newer(s.diskMax, s.inMax) && |s.fifo| < CAPACITY }

  function GetNext(s: State): (State, Option<FileId>) {
    if s.read < |s.fifo| then (s.(read := s.read + 1), Some(s.fifo[s.read].id)) else (s, None)
  }

  /** How many files at the head of the queue are not newer than `fid`. */
  function Old(fifo: seq<Entry>, fid: FileId): (n: nat)
    ensures n <= |fifo|
  {
    if fifo == [] || Newer(fifo[0].id, fid) then 0 else 1 + Old(fifo[1..], fid)
  }

  /** The filter that selects the spool files to remove. */
  predicate Removed(d: FileId, fid: FileId) { fid.maj == -1 || Newer(FileId(fid.maj, Incremented(fid.min)), d) }

  function Delete(s: State, fid: FileId): State {
    var n := Old(s.fifo, fid);
    s.(fifo := s.fifo[n..], read := if s.read > n then s.read - n else 0,
       disk := set d | d in s.disk && !Removed(d, fid))
  }

  /** Spool files newer than any that has been in memory. */
  function Pending(s: State): set<FileId> { set d | d in s.disk && Newer(d, s.inMax) }

  function Elements(ids: seq<FileId>): set<FileId> { set i | 0 <= i < |ids| :: ids[i] }

  ghost predicate IsListing(s: State, listing: seq<FileId>) {
    Increasing(listing) && Elements(listing) == Pending(s)
  }

  /** Append files found on disk, while there is space. */
  function Fill(s: State, listing: seq<FileId>): State
    decreases |listing|
  {
    if listing == [] || |s.fifo| >= CAPACITY then s
    else Fill(Append(s, Entry(listing[0], true)), listing[1..])
  }

  // ---------------------------------------------------------------- meaning

  function Ids(es: seq<Entry>): set<FileId> { set i | 0 <= i < |es| :: es[i].id }

  /** Files accepted, not deleted and not handed out. */
  function Unread(s: State): set<FileId> { Ids(s.fifo[if s.read <= |s.fifo| then s.read else |s.fifo|..]) + Pending(s) }

  /** Files accepted and not deleted. */
  function Kept(s: State): set<FileId> { Ids(s.fifo) + Pending(s) }

  function Latest(s: State): FileId { Later(s.inMax, s.diskMax) }

  ghost predicate IncreasingEntries(es: seq<Entry>) {
    forall i, j :: 0 <= i < j < |es| ==> Newer(es[j].id, es[i].id)
  }

  ghost predicate Inv(s: State) {
    && s.read <= |s.fifo| <= CAPACITY
    && IncreasingEntries(s.fifo)
    && (forall i :: 0 <= i < |s.fifo| ==> IntId(s.fifo[i].id) && !Newer(s.fifo[i].id, s.inMax))
    && (forall d :: d in s.disk ==> IntId(d) && !Newer(d, s.diskMax))
    && (s.inMax == NO_FILE || IntId(s.inMax)) && (s.diskMax == NO_FILE || IntId(s.diskMax))
  }

  /** The spool directory holds the saved files of the queue and the pending ones, nothing else. */
  ghost predicate DiskExact(s: State) {
    && (forall i :: 0 <= i < |s.fifo| && s.fifo[i].saved ==> s.fifo[i].id in s.disk)
    && (forall d :: d in s.disk && !Newer(d, s.inMax) ==> Entry(d, true) in s.fifo)
  }

  // ---------------------------------------------------------------- saving

  /** Saving entry `i` and later ones changes the marks and the disk only. */
  ghost predicate SavedFrom(s: State, t: State, i: nat) {
    && |t.fifo| == |s.fifo| && t.read == s.read && t.inMax == s.inMax
    && (forall k :: 0 <= k < |s.fifo| ==> t.fifo[k] == if k < i then s.fifo[k] else Entry(s.fifo[k].id, true))
  }

  lemma {:induction false} SaveFromShape(s: State, i: nat)
    requires i <= |s.fifo|
    ensures SavedFrom(s, SaveFrom(s, i), i)
    decreases |s.fifo| - i
  {
    if i < |s.fifo| {
      SaveFromShape(SaveOne(s, i), i + 1);
    }
  }

  lemma SaveOneKeeps(s: State, i: nat)
    requires Inv(s) && i < |s.fifo|
    ensures Inv(SaveOne(s, i)) && Pending(SaveOne(s, i)) == Pending(s) && Latest(SaveOne(s, i)) == Latest(s)
    ensures s.disk <= SaveOne(s, i).disk <= s.disk + Ids(s.fifo) && Ids(SaveOne(s, i).fifo) == Ids(s.fifo)
  {
    var t := SaveOne(s, i);
    assert Newer(s.fifo[i].id, s.inMax) ==> false;
    assert forall k :: 0 <= k < |s.fifo| ==> t.fifo[k].id == s.fifo[k].id;
  }

  lemma {:induction false} SaveFromKeeps(s: State, i: nat)
    requires Inv(s) && i <= |s.fifo|
    ensures var t := SaveFrom(s, i);
      && Inv(t) && Pending(t) == Pending(s) && Latest(t) == Latest(s) && Ids(t.fifo) == Ids(s.fifo)
      && s.disk <= t.disk <= s.disk + Ids(s.fifo)
    decreases |s.fifo| - i
  {
    if i < |s.fifo| {
      SaveOneKeeps(s, i);
      SaveFromKeeps(SaveOne(s, i), i + 1);
    }
  }

  lemma SaveOneExact(s: State, i: nat)
    requires Inv(s) && DiskExact(s) && i < |s.fifo|
    ensures DiskExact(SaveOne(s, i))
  {
    var t := SaveOne(s, i);
    forall d | d in t.disk && !Newer(d, t.inMax) ensures Entry(d, true) in t.fifo {
      if d != s.fifo[i].id {
        var k :| 0 <= k < |s.fifo| && s.fifo[k] == Entry(d, true);
        assert t.fifo[k] == Entry(d, true);
      } else {
        assert t.fifo[i] == Entry(d, true);
      }
    }
  }

  lemma {:induction false} SaveFromExact(s: State, i: nat)
    requires Inv(s) && DiskExact(s) && i <= |s.fifo|
    ensures DiskExact(SaveFrom(s, i))
    decreases |s.fifo| - i
  {
    if i < |s.fifo| {
      SaveOneKeeps(s, i);
      SaveOneExact(s, i);
      SaveFromExact(SaveOne(s, i), i + 1);
    }
  }

  /** Saving changes nothing that can be handed out, and puts on disk exactly the files that are kept. */
  lemma SaveRefines(s: State)
    requires Inv(s)
    ensures var t := Save(s);
      && Inv(t) && Unread(t) == Unread(s) && Kept(t) == Kept(s) && Latest(t) == Latest(s)
      && (DiskExact(s) ==> DiskExact(t) && t.disk == Kept(s))
  {
    var t := Save(s);
    SaveFromKeeps(s, 0);
    SaveFromShape(s, 0);
    SameIds(s.fifo[s.read..], t.fifo[s.read..]);
    if DiskExact(s) {
      SaveFromExact(s, 0);
    }
  }

  lemma SameIds(a: seq<Entry>, b: seq<Entry>)
    requires |a| == |b| && forall i :: 0 <= i < |a| ==> a[i].id == b[i].id
    ensures Ids(a) == Ids(b)
  {
    assert forall i :: 0 <= i < |a| ==> a[i].id in Ids(b) && b[i].id in Ids(a);
  }

  // ---------------------------------------------------------------- inserting

  lemma IdsAppend(es: seq<Entry>, e: Entry)
    ensures Ids(es + [e]) == Ids(es) + {e.id}
  {
    var fs := es + [e];
    assert forall i :: 0 <= i < |es| ==> fs[i] == es[i];
    assert fs[|es|] == e;
    assert e.id in Ids(fs);
    forall d | d in Ids(es) ensures d in Ids(fs) {
      var i :| 0 <= i < |es| && es[i].id == d;
      assert fs[i].id == d;
    }
  }

  lemma WriteRefines(s: State, id: FileId)
    requires Inv(s) && IntId(id) && Accepts(s, id)
    ensures var t := WriteFile(s, id, false);
      && Inv(t) && Unread(t) == Unread(s) + {id} && Kept(t) == Kept(s) + {id} && Latest(t) == id
      && (DiskExact(s) ==> DiskExact(t))
  {
  }

  lemma AppendRefines(s: State, id: FileId, hasPath: bool)
    requires Inv(s) && IntId(id) && Accepts(s, id) && GoesToMemory(s)
    ensures var t := Append(s, Entry(id, hasPath));
      && Inv(t) && Unread(t) == Unread(s) + {id} && Kept(t) == Kept(s) + {id} && Latest(t) == id
      && (DiskExact(s) && !hasPath ==> DiskExact(t))
  {
    var t := Append(s, Entry(id, hasPath));
    IdsAppend(s.fifo, Entry(id, hasPath));
    IdsAppend(s.fifo[s.read..], Entry(id, hasPath));
    assert t.fifo[s.read..] == s.fifo[s.read..] + [Entry(id, hasPath)];
    assert Inv(t);
  }

  /** The file was kept as the last to be handed out. */
  ghost predicate Inserted(s: State, t: State, id: FileId) {
    Unread(t) == Unread(s) + {id} && Kept(t) == Kept(s) + {id} && Latest(t) == id
  }

  /** Nothing that can be handed out has changed. */
  ghost predicate Unchanged(s: State, t: State) {
    Unread(t) == Unread(s) && Kept(t) == Kept(s) && Latest(t) == Latest(s)
  }

  lemma FullInsert(s: State, id: FileId, hasPath: bool)
    requires Inv(s) && IntId(id) && Accepts(s, id) && !Newer(s.diskMax, s.inMax) && |s.fifo| >= CAPACITY
    ensures var t := WriteFile(Save(s), id, hasPath);
      && Inv(t) && (DiskExact(s) ==> DiskExact(t))
      && (if hasPath then Unchanged(s, t) else Inserted(s, t, id))
  {
    SaveRefines(s);
    SaveFromShape(s, 0);
    assert Newer(id, Latest(Save(s)));
    if !hasPath {
      WriteRefines(Save(s), id);
    }
  }

  /**
    A file is accepted exactly when it is newer than all before it. An accepted file is kept as the
    last to be handed out if it has no path or goes to memory; otherwise nothing of it remains.
   */
  lemma InsertRefines(s: State, id: FileId, hasPath: bool)
    requires Inv(s) && IntId(id)
    ensures var t := Insert(s, id, hasPath);
      && Inv(t) && (DiskExact(s) && !hasPath ==> DiskExact(t))
      && (Accepts(s, id) <==> Newer(id, Latest(s)))
      && (if !Accepts(s, id) then t == s
          else if !hasPath || GoesToMemory(s) then Inserted(s, t, id)
          else Unchanged(s, t))
  {
    if Accepts(s, id) {
      if Newer(s.diskMax, s.inMax) {
        if !hasPath { WriteRefines(s, id); }
      } else if |s.fifo| >= CAPACITY {
        FullInsert(s, id, hasPath);
      } else {
        AppendRefines(s, id, hasPath);
      }
    }
  }

  lemma LatestBounds(s: State, d: FileId)
    requires Inv(s) && d in Kept(s)
    ensures !Newer(d, Latest(s))
  {
  }

  /** "Accepted" means "kept" exactly for files without a path, and for others when they go to memory. */
  lemma AcceptedIsKeptIff(s: State, id: FileId, hasPath: bool)
    requires Inv(s) && IntId(id) && Accepts(s, id)
    ensures id in Kept(Insert(s, id, hasPath)) <==> !hasPath || GoesToMemory(s)
  {
    InsertRefines(s, id, hasPath);
    if id in Kept(s) {
      LatestBounds(s, id);
    }
  }

  /**
    Where an accepted file is afterwards. Behind files pending on disk it is written to the directory and
    nothing else changes; with none pending it goes to the end of the queue in memory when that has room,
    and otherwise the queue is saved first, so that the directory holds all the files before it, and it
    is written behind them. A file with a path is never written.
   */
  lemma InsertPlaces(s: State, id: FileId, hasPath: bool)
    requires Inv(s) && DiskExact(s) && IntId(id) && Accepts(s, id)
    ensures var t := Insert(s, id, hasPath); var written := if hasPath then {} else {id};
      && t.read == s.read
      && (if Newer(s.diskMax, s.inMax) then
            t.fifo == s.fifo && t.inMax == s.inMax && t.disk == s.disk + written && Pending(t) == Pending(s) + written
          else if |s.fifo| < CAPACITY then
            t.fifo == s.fifo + [Entry(id, hasPath)] && t.inMax == id && t.disk == s.disk && t.diskMax == s.diskMax
          else
            && |t.fifo| == |s.fifo| && (forall i :: 0 <= i < |s.fifo| ==> t.fifo[i] == Entry(s.fifo[i].id, true))
            && t.inMax == s.inMax && t.disk == Ids(s.fifo) + written && Pending(t) == written)
  {
    if !Newer(s.diskMax, s.inMax) && |s.fifo| >= CAPACITY { SavedFirst(s, id); }
  }

  lemma SavedFirst(s: State, id: FileId)
    requires Inv(s) && DiskExact(s) && IntId(id) && Accepts(s, id) && !Newer(s.diskMax, s.inMax)
    ensures SavedFrom(s, Save(s), 0) && Save(s).disk == Ids(s.fifo)
    ensures Pending(Save(s)) == {} && Pending(WriteFile(Save(s), id, false)) == {id}
  {
    SaveRefines(s);
    SaveFromShape(s, 0);
    NonePending(s);
    SaveFromKeeps(s, 0);
  }

  lemma NonePending(s: State)
    requires !Newer(s.diskMax, s.inMax) && forall d :: d in s.disk ==> !Newer(d, s.diskMax)
    ensures Pending(s) == {}
  {
  }

  /** With a file pending on disk, one that has a path is accepted and nothing of it remains. */
  lemma AcceptedAndLost()
    ensures var s := State([], 0, {FileId(1, 1)}, NO_FILE, FileId(1, 1));
      Inv(s) && DiskExact(s) && Accepts(s, FileId(1, 2)) && Insert(s, FileId(1, 2), true) == s && FileId(1, 2) !in Kept(s)
  {
  }

  // ---------------------------------------------------------------- handing out

  /** The smallest id of a set. */
  ghost predicate IsFirst(d: FileId, ids: set<FileId>) {
    d in ids && forall x :: x in ids && x != d ==> Newer(x, d)
  }

  /** What is handed out is the oldest unread file; nothing is, only when all unread files are on disk. */
  lemma GetNextRefines(s: State)
    requires Inv(s)
    ensures var (t, r) := GetNext(s);
      && Inv(t) && Kept(t) == Kept(s) && Latest(t) == Latest(s) && (DiskExact(s) ==> DiskExact(t))
      && (match r
          case Some(d) => IsFirst(d, Unread(s)) && Unread(t) == Unread(s) - {d}
          case None => t == s && Unread(s) == Pending(s))
  {
    if s.read < |s.fifo| {
      var d, rest := s.fifo[s.read].id, s.fifo[s.read + 1..];
      assert s.fifo[s.read..] == [s.fifo[s.read]] + rest;
      IdsPrepend(s.fifo[s.read], rest);
      forall x | x in Ids(rest) ensures Newer(x, d) {
        var i :| 0 <= i < |rest| && rest[i].id == x;
        assert rest[i] == s.fifo[s.read + 1 + i];
      }
      forall x | x in Pending(s) ensures Newer(x, d) {}
    }
  }

  lemma IdsPrepend(e: Entry, es: seq<Entry>)
    ensures Ids([e] + es) == {e.id} + Ids(es)
  {
    var fs := [e] + es;
    assert fs[0] == e;
    assert forall i :: 0 <= i < |es| ==> fs[i + 1] == es[i];
    assert forall i :: 0 < i < |fs| ==> fs[i] == es[i - 1];
    forall d | d in Ids(es) ensures d in Ids(fs) {
      var i :| 0 <= i < |es| && es[i].id == d;
      assert fs[i + 1].id == d;
    }
  }

  // ---------------------------------------------------------------- deleting

  lemma {:induction false} OldSplits(fifo: seq<Entry>, fid: FileId)
    requires IncreasingEntries(fifo)
    ensures var n := Old(fifo, fid);
      && (forall i :: 0 <= i < n ==> !Newer(fifo[i].id, fid))
      && (forall i :: n <= i < |fifo| ==> Newer(fifo[i].id, fid))
  {
    if fifo != [] && !Newer(fifo[0].id, fid) {
      OldSplits(fifo[1..], fid);
      var n := Old(fifo, fid);
      forall i | 0 < i < |fifo| ensures Newer(fifo[i].id, fid) <==> i >= n {
        assert fifo[i] == fifo[1..][i - 1];
      }
    }
  }

  /** The files of a set that are newer than `fid`. */
  function After(ids: set<FileId>, fid: FileId): set<FileId> { set d | d in ids && Newer(d, fid) }

  lemma SuffixIds(q: seq<Entry>, m: nat, d: FileId)
    requires m <= |q| && d in Ids(q[m..])
    ensures exists i :: m <= i < |q| && q[i].id == d
  {
    var i :| 0 <= i < |q[m..]| && q[m..][i].id == d;
    assert q[m + i].id == d;
  }

  lemma InSuffix(q: seq<Entry>, m: nat, i: nat)
    requires m <= i < |q|
    ensures q[i].id in Ids(q[m..])
  {
    assert q[m..][i - m] == q[i];
  }

  lemma IdsAfter(fifo: seq<Entry>, from: nat, fid: FileId)
    requires IncreasingEntries(fifo) && from <= |fifo|
    ensures var n := Old(fifo, fid);
      Ids(fifo[if from > n then from else n..]) == After(Ids(fifo[from..]), fid)
  {
    OldSplits(fifo, fid);
    var n := Old(fifo, fid);
    var m := if from > n then from else n;
    forall d | d in Ids(fifo[m..]) ensures d in After(Ids(fifo[from..]), fid) {
      SuffixIds(fifo, m, d);
      var i :| m <= i < |fifo| && fifo[i].id == d;
      InSuffix(fifo, from, i);
    }
    forall d | d in After(Ids(fifo[from..]), fid) ensures d in Ids(fifo[m..]) {
      SuffixIds(fifo, from, d);
      var i :| from <= i < |fifo| && fifo[i].id == d;
      InSuffix(fifo, m, i);
    }
  }

  /** Neither special case of the filter: no bound disabled, no overflow of the increment. */
  predicate Ordinary(fid: FileId) { fid.maj != -1 && fid.min < INT_MAX }

  /** What the filter leaves of the files that should go. */
  lemma RemovedIff(d: FileId, fid: FileId)
    requires IntId(d) && fid.min <= INT_MAX
    ensures fid.maj != -1 ==>
      (Removed(d, fid) <==> !Newer(d, fid) && (fid.min == INT_MAX ==> d.maj != fid.maj))
    ensures fid.maj == -1 ==> Removed(d, fid) && Newer(d, fid)
  {
  }

  lemma DeleteDisk(s: State, fid: FileId)
    requires Inv(s) && Ordinary(fid)
    ensures Delete(s, fid).disk == After(s.disk, fid)
    ensures Pending(Delete(s, fid)) == After(Pending(s), fid)
  {
    forall d | d in s.disk ensures Removed(d, fid) <==> !Newer(d, fid) { RemovedIff(d, fid); }
  }

  /** Exactly the files up to `fid` go. */
  ghost predicate DeletesExactly(s: State, fid: FileId) {
    Unread(Delete(s, fid)) == After(Unread(s), fid) && Kept(Delete(s, fid)) == After(Kept(s), fid)
  }

  lemma DeleteFifo(s: State, fid: FileId)
    requires Inv(s)
    ensures var t := Delete(s, fid);
      Ids(t.fifo) == After(Ids(s.fifo), fid) && Ids(t.fifo[t.read..]) == After(Ids(s.fifo[s.read..]), fid)
  {
    var t, n := Delete(s, fid), Old(s.fifo, fid);
    IdsAfter(s.fifo, 0, fid);
    IdsAfter(s.fifo, s.read, fid);
    assert s.fifo[0..] == s.fifo;
    assert t.fifo[t.read..] == s.fifo[if s.read > n then s.read else n..];
  }

  /** The condition under which the files of a set are filtered rightly. */
  predicate FilteredRightly(ids: set<FileId>, fid: FileId) {
    if fid.maj == -1 then ids == {} else fid.min < INT_MAX || forall d :: d in ids ==> d.maj != fid.maj
  }

  /** On a set of ids the filter removes what it should exactly under that condition. */
  lemma FilterIff(ids: set<FileId>, fid: FileId)
    requires fid.min <= INT_MAX && forall d :: d in ids ==> IntId(d)
    ensures (set d | d in ids && !Removed(d, fid)) == After(ids, fid) <==> FilteredRightly(ids, fid)
  {
    var left := set d | d in ids && !Removed(d, fid);
    forall d | d in ids
      ensures d in left <==> fid.maj != -1 && (Newer(d, fid) || (fid.min == INT_MAX && d.maj == fid.maj))
      ensures fid.min == INT_MAX && d.maj == fid.maj ==> !Newer(d, fid)
      ensures fid.maj == -1 ==> d in After(ids, fid)
    {
      RemovedIff(d, fid);
    }
    if !FilteredRightly(ids, fid) {
      var d :| d in ids && (fid.maj == -1 || d.maj == fid.maj);
      assert d in left <==> d !in After(ids, fid);
    }
  }

  lemma PendingFiltered(s: State, fid: FileId)
    ensures Pending(Delete(s, fid)) == set d | d in Pending(s) && !Removed(d, fid)
  {
  }

  /** What is in memory and what is pending do not mix. */
  lemma SplitKept(a: set<FileId>, p: set<FileId>, q: set<FileId>, fid: FileId)
    requires a !! p && a !! q
    ensures After(a, fid) + q == After(a + p, fid) <==> q == After(p, fid)
  {
    assert After(a + p, fid) == After(a, fid) + After(p, fid);
    if After(a, fid) + q == After(a, fid) + After(p, fid) {
      forall d ensures d in q <==> d in After(p, fid) {
        assert d in After(a, fid) + q <==> d in After(a, fid) + After(p, fid);
      }
    }
  }

  lemma FifoAndPending(s: State, d: FileId)
    requires Inv(s) && d in Pending(s)
    ensures d !in Ids(s.fifo) && d !in Ids(s.fifo[s.read..])
  {
  }

  lemma DeleteKept(s: State, fid: FileId)
    requires Inv(s)
    ensures Kept(Delete(s, fid)) == After(Kept(s), fid) <==> Pending(Delete(s, fid)) == After(Pending(s), fid)
    ensures Unread(Delete(s, fid)) == After(Unread(s), fid) <==> Pending(Delete(s, fid)) == After(Pending(s), fid)
  {
    var t := Delete(s, fid);
    DeleteFifo(s, fid);
    PendingFiltered(s, fid);
    forall d | d in Pending(s) ensures d !in Ids(s.fifo) && d !in Ids(s.fifo[s.read..]) { FifoAndPending(s, d); }
    SplitKept(Ids(s.fifo), Pending(s), Pending(t), fid);
    SplitKept(Ids(s.fifo[s.read..]), Pending(s), Pending(t), fid);
  }

  /**
    Deleting does what it promises exactly when the major id is not -1, or nothing is pending on disk;
    and the minor id is not the largest `int`, or no pending file has that major id.
   */
  lemma DeleteExactIff(s: State, fid: FileId)
    requires Inv(s) && fid.min <= INT_MAX
    ensures DeletesExactly(s, fid) <==> FilteredRightly(Pending(s), fid)
  {
    PendingFiltered(s, fid);
    FilterIff(Pending(s), fid);
    DeleteKept(s, fid);
  }

  /** The same for the spool directory, which decides what comes back after a restart. */
  lemma DirectoryExactIff(s: State, fid: FileId)
    requires Inv(s) && fid.min <= INT_MAX
    ensures Delete(s, fid).disk == After(s.disk, fid) <==> FilteredRightly(s.disk, fid)
  {
    FilterIff(s.disk, fid);
  }

  /** Deleting up to the largest minor id leaves the spool files of that major id, and major id -1 takes all. */
  lemma DeleteGoesWrong()
    ensures var s := State([], 0, {FileId(5, 1)}, NO_FILE, FileId(5, 1));
      && Inv(s) && DiskExact(s)
      && Delete(s, FileId(5, INT_MAX)) == s && !Newer(FileId(5, 1), FileId(5, INT_MAX))
      && Delete(s, FileId(-1, 0)).disk == {} && Newer(FileId(5, 1), FileId(-1, 0))
  {
    var s := State([], 0, {FileId(5, 1)}, NO_FILE, FileId(5, 1));
    assert !Removed(FileId(5, 1), FileId(5, INT_MAX));
    assert (set d | d in s.disk && !Removed(d, FileId(5, INT_MAX))) == s.disk;
    assert s.fifo[0..] == [];
  }

  lemma DeleteKeepsExact(s: State, fid: FileId)
    requires Inv(s) && DiskExact(s) && Ordinary(fid)
    ensures DiskExact(Delete(s, fid))
  {
    var t, n := Delete(s, fid), Old(s.fifo, fid);
    OldSplits(s.fifo, fid);
    DeleteDisk(s, fid);
    forall i | 0 <= i < |t.fifo| && t.fifo[i].saved ensures t.fifo[i].id in t.disk {
      assert t.fifo[i] == s.fifo[n + i];
    }
    forall d | d in t.disk && !Newer(d, t.inMax) ensures Entry(d, true) in t.fifo {
      var k :| 0 <= k < |s.fifo| && s.fifo[k] == Entry(d, true);
      assert t.fifo[k - n] == Entry(d, true);
    }
  }

  // ---------------------------------------------------------------- filling up from disk

  lemma AppendFromDisk(s: State, listing: seq<FileId>)
    requires Inv(s) && IsListing(s, listing) && listing != [] && |s.fifo| < CAPACITY
    ensures var t := Append(s, Entry(listing[0], true));
      && Inv(t) && IsListing(t, listing[1..])
      && Unread(t) == Unread(s) && Kept(t) == Kept(s) && Latest(t) == Latest(s) && (DiskExact(s) ==> DiskExact(t))
  {
    var d := listing[0];
    var t := Append(s, Entry(d, true));
    ListingHead(listing);
    assert d in Pending(s);
    assert Pending(t) == Pending(s) - {d};
    IdsAppend(s.fifo, Entry(d, true));
    IdsAppend(s.fifo[s.read..], Entry(d, true));
    assert t.fifo[t.read..] == s.fifo[s.read..] + [Entry(d, true)];
  }

  lemma ListingHead(listing: seq<FileId>)
    requires Increasing(listing) && listing != []
    ensures IsFirst(listing[0], Elements(listing))
    ensures Increasing(listing[1..]) && Elements(listing[1..]) == Elements(listing) - {listing[0]}
  {
    var rest := listing[1..];
    assert forall i :: 0 <= i < |rest| ==> rest[i] == listing[i + 1];
    forall d | d in Elements(listing) && d != listing[0] ensures d in Elements(rest) {
      var i :| 0 <= i < |listing| && listing[i] == d;
      assert rest[i - 1] == d;
    }
  }

  /** Filling moves the oldest pending files to memory; it stops only when nothing is pending or memory is full. */
  lemma {:induction false} FillRefines(s: State, listing: seq<FileId>)
    requires Inv(s) && IsListing(s, listing)
    ensures var t := Fill(s, listing);
      && Inv(t) && Unread(t) == Unread(s) && Kept(t) == Kept(s) && Latest(t) == Latest(s) && (DiskExact(s) ==> DiskExact(t))
      && (Pending(t) == {} || |t.fifo| == CAPACITY)
    decreases |listing|
  {
    if listing != [] && |s.fifo| < CAPACITY {
      AppendFromDisk(s, listing);
      FillRefines(Append(s, Entry(listing[0], true)), listing[1..]);
    }
  }
}
