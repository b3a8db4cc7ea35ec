/** Whole runs of the spill cache: what is handed out, in which order, and what survives a restart. */
module SpillCacheRuns {
  import opened FileIds
  import opened SpillCacheModel

  datatype Op =
    | OpInsert(id: FileId, hasPath: bool)
    | OpNext
    | OpDelete(fid: FileId)
    | OpSave
    | OpUpdate(save: bool, listing: seq<FileId>)

  /** The cache, what it accepted and handed out, and what was deleted. */
  datatype World = World(s: State, accepted: seq<FileId>, returned: seq<FileId>, deleted: set<FileId>)

  /** What callers owe: files with a path only where they are kept, and deletions the filter gets right. */
  ghost predicate Allowed(w: World, op: Op) {
    match op
    case OpInsert(id, hasPath) => IntId(id) && (hasPath && Accepts(w.s, id) ==> GoesToMemory(w.s))
    case OpDelete(fid) => Ordinary(fid)
    case OpUpdate(save, listing) => IsListing(if save then Save(w.s) else w.s, listing)
    case _ => true
  }

  function Step(w: World, op: Op): World {
    match op
    case OpInsert(id, hasPath) =>
      w.(s := Insert(w.s, id, hasPath), accepted := if Accepts(w.s, id) then w.accepted + [id] else w.accepted)
    case OpNext =>
      var (t, r) := GetNext(w.s);
      w.(s := t, returned := if r.Some? then w.returned + [r.value] else w.returned)
    case OpDelete(fid) =>
      w.(s := Delete(w.s, fid), deleted := w.deleted + set d | d in Elements(w.accepted) && !Newer(d, fid))
    case OpSave => w.(s := Save(w.s))
    case OpUpdate(save, listing) => w.(s := Fill(if save then Save(w.s) else w.s, listing))
  }

  /** A cache just opened on a spool directory, before it fills up from there. */
  ghost predicate Opened(w: World) {
    && w.s.fifo == [] && w.s.read == 0 && w.s.inMax == NO_FILE && w.deleted == {} && w.returned == []
    && (forall d :: d in w.s.disk ==> IntId(d) && !Newer(d, w.s.diskMax))
    && (w.s.diskMax == NO_FILE || w.s.diskMax in w.s.disk)
    && Increasing(w.accepted) && Elements(w.accepted) == w.s.disk
  }

  /** The order of what has been handed out, with respect to what remains. */
  ghost predicate InOrder(returned: seq<FileId>, unread: set<FileId>) {
    && Increasing(returned)
    && forall i, d :: 0 <= i < |returned| && d in unread ==> Newer(d, returned[i])
  }

  ghost predicate RunInv(w: World) {
    && Inv(w.s)
    && Increasing(w.accepted) && (forall i :: 0 <= i < |w.accepted| ==> !Newer(w.accepted[i], Latest(w.s)))
    && InOrder(w.returned, Unread(w.s))
    && Kept(w.s) == Elements(w.accepted) - w.deleted && w.deleted <= Elements(w.accepted)
    && Unread(w.s) == Kept(w.s) - Elements(w.returned)
    && Elements(w.returned) <= Elements(w.accepted)
  }

  lemma OpenedInv(w: World)
    requires Opened(w)
    ensures RunInv(w) && DiskExact(w.s)
  {
    assert w.s.fifo[0..] == [];
    assert forall d :: d in w.s.disk ==> Newer(d, NO_FILE);
    assert forall i :: 0 <= i < |w.accepted| ==> w.accepted[i] in Elements(w.accepted);
  }

  lemma ElementsAppend(ids: seq<FileId>, d: FileId)
    ensures Elements(ids + [d]) == Elements(ids) + {d}
  {
    var all := ids + [d];
    assert forall i :: 0 <= i < |ids| ==> all[i] == ids[i];
    assert all[|ids|] == d && d in Elements(all);
    forall x | x in Elements(ids) ensures x in Elements(all) {
      var i :| 0 <= i < |ids| && ids[i] == x;
      assert all[i] == x;
    }
  }

  lemma OldAccepted(w: World, id: FileId)
    requires RunInv(w) && Newer(id, Latest(w.s))
    ensures id !in Elements(w.accepted) && id !in Elements(w.returned)
    ensures forall i :: 0 <= i < |w.returned| ==> Newer(id, w.returned[i])
    ensures forall i :: 0 <= i < |w.accepted| ==> Newer(id, w.accepted[i])
  {
    forall i | 0 <= i < |w.returned| ensures Newer(id, w.returned[i]) {
      assert w.returned[i] in Elements(w.accepted);
    }
  }

  lemma InsertKeeps(w: World, id: FileId, hasPath: bool)
    requires RunInv(w) && Allowed(w, OpInsert(id, hasPath))
    ensures RunInv(Step(w, OpInsert(id, hasPath)))
  {
    InsertRefines(w.s, id, hasPath);
    if Accepts(w.s, id) {
      OldAccepted(w, id);
      ElementsAppend(w.accepted, id);
    }
  }

  lemma NextKeeps(w: World)
    requires RunInv(w)
    ensures RunInv(Step(w, OpNext))
  {
    GetNextRefines(w.s);
    var (t, r) := GetNext(w.s);
    if r.Some? {
      ElementsAppend(w.returned, r.value);
    }
  }

  lemma DeleteKeeps(w: World, fid: FileId)
    requires RunInv(w) && Ordinary(fid)
    ensures RunInv(Step(w, OpDelete(fid)))
  {
    DeleteExactIff(w.s, fid);
  }

  lemma UpdateKeeps(w: World, save: bool, listing: seq<FileId>)
    requires RunInv(w) && Allowed(w, OpUpdate(save, listing))
    ensures RunInv(Step(w, OpUpdate(save, listing)))
  {
    SaveRefines(w.s);
    FillRefines(if save then Save(w.s) else w.s, listing);
  }

  lemma StepKeeps(w: World, op: Op)
    requires RunInv(w) && Allowed(w, op)
    ensures RunInv(Step(w, op))
  {
    match op
    case OpInsert(id, hasPath) => InsertKeeps(w, id, hasPath);
    case OpNext => NextKeeps(w);
    case OpDelete(fid) => DeleteKeeps(w, fid);
    case OpSave => SaveRefines(w.s);
    case OpUpdate(save, listing) => UpdateKeeps(w, save, listing);
  }

  /** Without files that have a path, the directory stays exact, so that a restart finds everything. */
  lemma StepKeepsExact(w: World, op: Op)
    requires RunInv(w) && Allowed(w, op) && DiskExact(w.s) && !(op.OpInsert? && op.hasPath)
    ensures DiskExact(Step(w, op).s)
  {
    match op
    case OpInsert(id, hasPath) => InsertRefines(w.s, id, hasPath);
    case OpNext => GetNextRefines(w.s);
    case OpDelete(fid) => DeleteKeepsExact(w.s, fid);
    case OpSave => SaveRefines(w.s);
    case OpUpdate(save, listing) =>
      SaveRefines(w.s);
      FillRefines(if save then Save(w.s) else w.s, listing);
  }

  ghost predicate Follows(ws: seq<World>, ops: seq<Op>, i: nat)
    requires i < |ops| < |ws|
  {
    Allowed(ws[i], ops[i]) && ws[i + 1] == Step(ws[i], ops[i])
  }

  ghost predicate Execution(ws: seq<World>, ops: seq<Op>) {
    |ws| == |ops| + 1 && Opened(ws[0]) && forall i :: 0 <= i < |ops| ==> Follows(ws, ops, i)
  }

  lemma {:induction false} ExecutionInv(ws: seq<World>, ops: seq<Op>, n: nat)
    requires Execution(ws, ops) && n < |ws|
    ensures RunInv(ws[n])
  {
    if n == 0 {
      OpenedInv(ws[0]);
    } else {
      ExecutionInv(ws, ops, n - 1);
      assert Follows(ws, ops, n - 1);
      StepKeeps(ws[n - 1], ops[n - 1]);
    }
  }

  /** No file that is inserted has a path. */
  ghost predicate Pathless(ops: seq<Op>) { forall i :: 0 <= i < |ops| && ops[i].OpInsert? ==> !ops[i].hasPath }

  lemma {:induction false} ExecutionExact(ws: seq<World>, ops: seq<Op>, n: nat)
    requires Execution(ws, ops) && n < |ws| && Pathless(ops)
    ensures RunInv(ws[n]) && DiskExact(ws[n].s)
  {
    ExecutionInv(ws, ops, n);
    if n == 0 {
      OpenedInv(ws[0]);
    } else {
      ExecutionExact(ws, ops, n - 1);
      assert Follows(ws, ops, n - 1);
      StepKeepsExact(ws[n - 1], ops[n - 1]);
    }
  }

  /**
    The cache is a queue: in every run the files handed out come in strictly increasing order, each of
    them accepted, and what is left to hand out is exactly what was accepted, not deleted and not yet
    handed out, all of it newer than what was.
   */
  lemma CacheIsQueue(ws: seq<World>, ops: seq<Op>, n: nat)
    requires Execution(ws, ops) && n < |ws|
    ensures var w := ws[n];
      && Increasing(w.returned) && Elements(w.returned) <= Elements(w.accepted)
      && Unread(w.s) == (Elements(w.accepted) - w.deleted) - Elements(w.returned)
      && InOrder(w.returned, Unread(w.s))
  {
    ExecutionInv(ws, ops, n);
  }

  /** After an update, nothing is handed out only when nothing is left, or memory is full of files not yet deleted. */
  lemma NothingWithheld(ws: seq<World>, ops: seq<Op>, n: nat)
    requires Execution(ws, ops) && n < |ops| && ops[n].OpUpdate? && GetNext(ws[n + 1].s).1.None?
    ensures Unread(ws[n + 1].s) == {} || |ws[n + 1].s.fifo| == CAPACITY
  {
    ExecutionInv(ws, ops, n);
    ExecutionInv(ws, ops, n + 1);
    assert Follows(ws, ops, n);
    var s := ws[n].s;
    SaveRefines(s);
    FillRefines(if ops[n].save then Save(s) else s, ops[n].listing);
    GetNextRefines(ws[n + 1].s);
  }

  /** After saving, a cache reopened on the directory hands out exactly what was accepted and not deleted. */
  lemma RestartKeepsAll(ws: seq<World>, ops: seq<Op>, n: nat, w: World)
    requires Execution(ws, ops) && n < |ws| && Pathless(ops) && Opened(w)
    requires w.s.disk == Save(ws[n].s).disk
    ensures Unread(w.s) == Elements(ws[n].accepted) - ws[n].deleted
  {
    ExecutionExact(ws, ops, n);
    SaveRefines(ws[n].s);
    OpenedInv(w);
    assert w.s.fifo[0..] == [];
  }

  /** A crash right after a save, or after an update that saved, loses nothing. */
  lemma CrashAfterSave(ws: seq<World>, ops: seq<Op>, n: nat, w: World)
    requires Execution(ws, ops) && n < |ops| && Pathless(ops) && Opened(w)
    requires ops[n].OpSave? || (ops[n].OpUpdate? && ops[n].save)
    requires w.s.disk == ws[n + 1].s.disk
    ensures Unread(w.s) == Elements(ws[n + 1].accepted) - ws[n + 1].deleted
  {
    assert Follows(ws, ops, n);
    if ops[n].OpUpdate? { FillKeepsDisk(Save(ws[n].s), ops[n].listing); }
    RestartKeepsAll(ws, ops, n, w);
  }

  lemma {:induction false} FillKeepsDisk(s: State, listing: seq<FileId>)
    ensures Fill(s, listing).disk == s.disk
    decreases |listing|
  {
    if listing != [] && |s.fifo| < CAPACITY { FillKeepsDisk(Append(s, Entry(listing[0], true)), listing[1..]); }
  }

  /** A file with a path that went to memory is handed out, but after a restart nobody knows of it. */
  lemma PathIsForgotten()
    ensures var w := World(State([], 0, {}, NO_FILE, NO_FILE), [], [], {});
      var r := Step(w, OpInsert(FileId(1, 1), true));
      && Opened(w) && Allowed(w, OpInsert(FileId(1, 1), true))
      && FileId(1, 1) in Unread(r.s) && Save(r.s).disk == {}
  {
    var w := World(State([], 0, {}, NO_FILE, NO_FILE), [], [], {});
    InsertRefines(w.s, FileId(1, 1), true);
    var r := Insert(w.s, FileId(1, 1), true);
    assert r.fifo == [Entry(FileId(1, 1), true)];
    assert SaveFrom(r, 0) == SaveFrom(r, 1) == r;
  }

  /** After a crash it hands out exactly those of them that had been written to the directory. */
  lemma CrashKeepsSaved(ws: seq<World>, ops: seq<Op>, n: nat, w: World)
    requires Execution(ws, ops) && n < |ws| && Pathless(ops) && Opened(w) && w.s.disk == ws[n].s.disk
    ensures Unread(w.s) == ws[n].s.disk <= Elements(ws[n].accepted) - ws[n].deleted
    ensures forall i :: 0 <= i < |ws[n].s.fifo| && ws[n].s.fifo[i].saved ==> ws[n].s.fifo[i].id in Unread(w.s)
  {
    ExecutionExact(ws, ops, n);
    OpenedInv(w);
    assert w.s.fifo[0..] == [];
    var s := ws[n].s;
    forall d | d in s.disk ensures d in Kept(s) {
      if !Newer(d, s.inMax) {
        var k :| 0 <= k < |s.fifo| && s.fifo[k] == Entry(d, true);
      }
    }
  }
}
