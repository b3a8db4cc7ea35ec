/**
  Cleaning the FIFO file: a copy of the unacknowledged records replaces the file by two
  renames. The program may be stopped between any two system calls; the snapshots a
  cleaning goes through are recorded, and each of them recovers to the same contents.
 */
module FileClean {
  import opened Items
  import opened PermFifoModel
  import opened PermFifoRuns

  /** A file that was created but has no header yet, or one with a header and records. */
  datatype Image = Blank | Data(file: FifoFile)
  datatype Entry = Absent | Present(image: Image)

  /** The three names a cleaning works with: `.fifo`, `.fifo.old` and `.fifo.new`. */
  datatype Snapshot = Snapshot(current: Entry, old_: Entry, new_: Entry)

  /** The file a cleaning works on: `.fifo`, or `.fifo.old` when a rename was left half done. */
  function Source(s: Snapshot): Entry {
    if s.current.Present? then s.current else s.old_
  }

  ghost predicate Sound(s: Snapshot) {
    Source(s).Present? && Source(s).image.Data? && FileOk(Source(s).image.file)
  }

  /** What the directory owes the reader. */
  ghost function Owed(s: Snapshot): seq<seq<char>>
    requires Sound(s)
  {
    Payloads(Pending(Source(s).image.file))
  }

  /** The records the copy writes: the unacknowledged ones, with new ids. */
  function Copy(f: FifoFile): seq<Item> { Renumbered(Drop(f.records, f.lastAckId), 1) }

  /** The disk states a cleaning of file `f` can leave when it is stopped. */
  ghost predicate MidClean(f: FifoFile, t: Snapshot) {
    var before, after := Present(Data(f)), Present(Data(Cleaned(f)));
    || t.current == before
    || (t.current == Absent && t.old_ == before)
    || t.current == after
  }

  /** Wherever a cleaning is stopped, the directory owes the same, in the same order. */
  lemma StoppedOwesTheSame(s: Snapshot, t: Snapshot)
    requires Sound(s) && MidClean(Source(s).image.file, t)
    ensures Sound(t) && Owed(t) == Owed(s)
  {
    var f := Source(s).image.file;
    if t.current == Present(Data(Cleaned(f))) {
      CleanedKeepsPending(f);
      AboveAll(Cleaned(f).records, 0);
    }
  }

  /** Any number of cleanings, each stopped anywhere. */
  ghost predicate StoppedCleanings(ss: seq<Snapshot>) {
    && ss != []
    && Sound(ss[0])
    && forall i :: 0 <= i < |ss| - 1 && Sound(ss[i]) ==> MidClean(Source(ss[i]).image.file, ss[i + 1])
  }

  lemma {:induction false} CleaningsOweTheSame(ss: seq<Snapshot>, n: nat)
    requires StoppedCleanings(ss) && n < |ss|
    ensures Sound(ss[n]) && Owed(ss[n]) == Owed(ss[0])
  {
    if n > 0 {
      CleaningsOweTheSame(ss, n - 1);
      StoppedOwesTheSame(ss[n - 1], ss[n]);
    }
  }

  lemma OneMoreCopied(kept: seq<Item>, id: nat)
    requires id < |kept|
    ensures Renumbered(kept[..id + 1], 1) == Renumbered(kept[..id], 1) + [Item(id + 1, kept[id].data)]
  {
  }

  class Directory {
    var current: Entry
    var old_: Entry
    var new_: Entry
    ghost var seen: seq<Snapshot>  // the disk after every system call

    constructor (s: Snapshot)
      ensures Now() == s && seen == []
    {
      current, old_, new_ := s.current, s.old_, s.new_;
      seen := [];
    }

    ghost function Now(): Snapshot
      reads this
    {
      Snapshot(current, old_, new_)
    }

    /** Every snapshot since `n` satisfies `MidClean`. */
    ghost predicate AllMid(f: FifoFile, n: nat)
      reads this
    {
      n <= |seen| && forall i :: n <= i < |seen| ==> MidClean(f, seen[i])
    }

    method SetCurrent(e: Entry)
      modifies this`current, this`seen
      ensures current == e && seen == old(seen) + [Now()]
    {
      current := e;
      seen := seen + [Now()];
    }

    method SetNew(e: Entry)
      modifies this`new_, this`seen
      ensures new_ == e && seen == old(seen) + [Now()]
    {
      new_ := e;
      seen := seen + [Now()];
    }

    method UnlinkOld()
      modifies this`old_, this`seen
      ensures old_ == Absent && seen == old(seen) + [Now()]
    {
      old_ := Absent;
      seen := seen + [Now()];
    }

    method RenameOldToCurrent()
      modifies this`current, this`old_, this`seen
      ensures current == old(old_) && old_ == Absent && seen == old(seen) + [Now()]
    {
      current, old_ := old_, Absent;
      seen := seen + [Now()];
    }

    method RenameCurrentToOld()
      modifies this`current, this`old_, this`seen
      ensures old_ == old(current) && current == Absent && seen == old(seen) + [Now()]
    {
      current, old_ := Absent, current;
      seen := seen + [Now()];
    }

    method RenameNewToCurrent()
      modifies this`current, this`new_, this`seen
      ensures current == old(new_) && new_ == Absent && seen == old(seen) + [Now()]
    {
      current, new_ := new_, Absent;
      seen := seen + [Now()];
    }

    /** The search loop: how many records are acknowledged. */
    method FirstUnacknowledged(f: FifoFile) returns (pos: nat)
      ensures pos <= |f.records| && f.records[pos..] == Drop(f.records, f.lastAckId)
    {
      pos := 0;
      while pos < |f.records| && f.records[pos].id <= f.lastAckId
        invariant pos <= |f.records|
        invariant Drop(f.records[pos..], f.lastAckId) == Drop(f.records, f.lastAckId)
      {
        assert f.records[pos..][0] == f.records[pos] && f.records[pos..][1..] == f.records[pos + 1..];
        pos := pos + 1;
      }
    }

    /** The copy loop: append the remaining records to `.fifo.new`, one write at a time. */
    method CopyRecords(f: FifoFile, ghost n: nat)
      requires AllMid(f, n) && current == Present(Data(f))
      modifies this`new_, this`seen
      ensures AllMid(f, n) && |seen| >= |old(seen)|
      ensures new_ == Present(Data(FifoFile(0, |Copy(f)|, Copy(f))))
    {
      var pos := FirstUnacknowledged(f);
      SetNew(Present(Blank));
      var copy: seq<Item> := [];
      SetNew(Present(Data(FifoFile(0, 0, copy))));
      ghost var kept := f.records[pos..];
      var id := 0;
      while id < |f.records| - pos
        invariant id <= |f.records| - pos && copy == Renumbered(kept[..id], 1)
        invariant AllMid(f, n) && |seen| >= |old(seen)|
        invariant new_ == Present(Data(FifoFile(0, 0, copy)))
      {
        OneMoreCopied(kept, id);
        copy := copy + [Item(id + 1, f.records[pos + id].data)];
        id := id + 1;
        SetNew(Present(Data(FifoFile(0, 0, copy))));
      }
      assert kept[..id] == kept;
      if id != 0 {
        SetNew(Present(Data(FifoFile(0, id, copy))));
      }
    }

    /**
      `permFIFO_file_clean`. On a valid file it ends with the cleaned file alone, and every
      disk state on the way recovers to the same contents. With no file at all it starts a
      blank one; a blank file without header, left by a stop just there, is refused (code 5).
     */
    method Clean() returns (code: int)
      modifies this
      ensures |seen| >= |old(seen)|
      ensures old(Sound(Now())) ==>
        && code == 0
        && Now() == Snapshot(Present(Data(Cleaned(old(Source(Now())).image.file))), Absent, Absent)
        && CleanFile(current.image.file)
        && Payloads(current.image.file.records) == old(Owed(Now()))
        && forall i :: |old(seen)| <= i < |seen| ==> Sound(seen[i]) && Owed(seen[i]) == old(Owed(Now()))
      ensures old(Source(Now())) == Absent ==> code == 0 && current == Present(Data(FifoFile(0, 0, [])))
      ensures old(Source(Now())) == Present(Blank) <==> code == 5
      ensures code == 5 ==> Source(Now()) == Present(Blank)
    {
      ghost var n, start := |seen|, Now();
      if current == Absent {
        if old_ == Absent {
          SetCurrent(Present(Blank));
          SetCurrent(Present(Data(FifoFile(0, 0, []))));
          return 0;
        }
        RenameOldToCurrent();
      }
      UnlinkOld();
      SetNew(Absent);
      if current.image.Blank? {
        return 5;
      }
      var f := current.image.file;
      if f.lastAckId == 0 {
        if f.records != [] {
          SetCurrent(Present(Data(f.(currentId := LastId(f.records)))));
        }
      } else {
        CopyRecords(f, n);
        RenameCurrentToOld();
        RenameNewToCurrent();
        UnlinkOld();
      }
      code := 0;
      assert AllMid(f, n);
      if Sound(start) {
        CleanedKeepsPending(f);
        forall i | n <= i < |seen| ensures Sound(seen[i]) && Owed(seen[i]) == Owed(start) {
          StoppedOwesTheSame(start, seen[i]);
        }
      }
    }
  }
}
