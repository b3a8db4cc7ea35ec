/**
  The data block aggregator: one thread groups the blocks at the head of several input rings by id
  and pushes the groups to an output ring, while producers keep pushing and a consumer keeps
  popping. Each input is looked at twice in a round; what arrives on it before the first look and
  between the two looks is all of the interleaving that a round can notice.
 */
module Aggregator {
  import opened Options

  datatype Block = Block(id: nat, data: int)
  type DataSet = seq<Block>

  /** What each input showed at one look: its head, or nothing. */
  type Heads = seq<Option<Block>>

  datatype State = State(inputs: seq<seq<Block>>, output: seq<DataSet>, capacity: nat, incompletePending: bool)

  /** What the other threads do during a round, and whether the timer has run out. */
  datatype Round = Round(
    before: seq<seq<Block>>, between: seq<seq<Block>>, poppedBefore: nat, poppedBetween: nat, timedOut: bool)

  function Head(q: seq<Block>): Option<Block> { if q == [] then None else Some(q[0]) }

  function HeadsOf(inputs: seq<seq<Block>>): (h: Heads)
    ensures |h| == |inputs|
    ensures forall i :: 0 <= i < |inputs| ==> h[i] == Head(inputs[i])
  {
    seq(|inputs|, i requires 0 <= i < |inputs| => Head(inputs[i]))
  }

  /** Arrivals, input by input; inputs without an entry get nothing. */
  function Arrive(inputs: seq<seq<Block>>, new_: seq<seq<Block>>): (r: seq<seq<Block>>)
    ensures |r| == |inputs|
    ensures forall i :: 0 <= i < |inputs| ==> r[i] == inputs[i] + (if i < |new_| then new_[i] else [])
  {
    seq(|inputs|, i requires 0 <= i < |inputs| => inputs[i] + (if i < |new_| then new_[i] else []))
  }

  function DropFirst(output: seq<DataSet>, n: nat): seq<DataSet> {
    if n <= |output| then output[n..] else []
  }

  /** The smallest id as the first scan computes it, 0 standing for "none yet". */
  function ScanMin(h: Heads): nat {
    if h == [] then 0
    else
      var m := ScanMin(h[..|h| - 1]);
      match h[|h| - 1]
      case None => m
      case Some(b) => if m == 0 || b.id < m then b.id else m
  }

  /** Last id seen by the first scan, 0 when none. */
  function ScanLast(h: Heads): nat {
    if h == [] then 0 else match h[|h| - 1] case None => ScanLast(h[..|h| - 1]) case Some(b) => b.id
  }

  function ScanSame(h: Heads): bool {
    if h == [] then true
    else
      match h[|h| - 1]
      case None => false
      case Some(b) =>
        ScanSame(h[..|h| - 1]) && !(ScanLast(h[..|h| - 1]) != 0 && b.id != ScanLast(h[..|h| - 1]))
  }

  predicate SomeEmpty(h: Heads) { exists i :: 0 <= i < |h| && h[i].None? }
  predicate AllEmpty(h: Heads) { forall i :: 0 <= i < |h| ==> h[i].None? }

  /** The blocks taken in the second scan, one entry per input. */
  function Row(h: Heads, id: nat): (r: Heads)
    ensures |r| == |h|
    ensures forall i :: 0 <= i < |h| ==> r[i] == if h[i].Some? && h[i].value.id == id then h[i] else None
  {
    seq(|h|, i requires 0 <= i < |h| => if h[i].Some? && h[i].value.id == id then h[i] else None)
  }

  /** The entries that are there, in input order. */
  function Somes(r: Heads): DataSet {
    if r == [] then []
    else Somes(r[..|r| - 1]) + (match r[|r| - 1] case None => [] case Some(b) => [b])
  }

  function Taken(inputs: seq<seq<Block>>, row: Heads): (r: seq<seq<Block>>)
    requires |row| == |inputs| && forall i :: 0 <= i < |row| && row[i].Some? ==> inputs[i] != []
    ensures |r| == |inputs|
    ensures forall i :: 0 <= i < |inputs| ==> r[i] == if row[i].Some? then inputs[i][1..] else inputs[i]
  {
    seq(|inputs|, i requires 0 <= i < |inputs| => if row[i].Some? then inputs[i][1..] else inputs[i])
  }

  function First(s: State, e: Round): seq<seq<Block>> { Arrive(s.inputs, e.before) }
  function Second(s: State, e: Round): seq<seq<Block>> { Arrive(First(s, e), e.between) }

  /** Does this round emit a set? */
  predicate Emits(s: State, e: Round) {
    var h := HeadsOf(First(s, e));
    && |DropFirst(s.output, e.poppedBefore)| < s.capacity
    && !AllEmpty(h)
    && (SomeEmpty(h) ==> e.timedOut)
  }

  /** The set it emits. */
  function Emitted(s: State, e: Round): Heads {
    Row(HeadsOf(Second(s, e)), ScanMin(HeadsOf(First(s, e))))
  }

  /** One call of the thread callback. */
  function Callback(s: State, e: Round): State {
    var h := HeadsOf(First(s, e));
    var out := DropFirst(s.output, e.poppedBefore);
    var pending :=
      if |out| < s.capacity && !AllEmpty(h) then
        (if Emits(s, e) && ScanSame(h) then false else s.incompletePending || SomeEmpty(h))
      else s.incompletePending;
    if Emits(s, e) then
      State(Taken(Second(s, e), Emitted(s, e)), DropFirst(out, e.poppedBetween) + [Somes(Emitted(s, e))], s.capacity, pending)
    else
      State(Second(s, e), DropFirst(out, e.poppedBetween), s.capacity, pending)
  }

  // ---------------------------------------------------------------- the scans

  /** The scanned minimum is the id of one of the heads. */
  lemma {:induction false} ScanMinIsAHead(h: Heads)
    requires !AllEmpty(h)
    ensures exists i :: 0 <= i < |h| && h[i].Some? && h[i].value.id == ScanMin(h)
  {
    var n := |h| - 1;
    if AllEmpty(h[..n]) {
      AllEmptyScan(h[..n]);
      assert h[n].Some?;
    } else {
      ScanMinIsAHead(h[..n]);
      var i :| 0 <= i < n && h[..n][i].Some? && h[..n][i].value.id == ScanMin(h[..n]);
      if ScanMin(h) != ScanMin(h[..n]) {
        assert h[n].Some? && h[n].value.id == ScanMin(h);
      } else {
        assert h[i].Some? && h[i].value.id == ScanMin(h);
      }
    }
  }

  lemma {:induction false} AllEmptyScan(h: Heads)
    requires AllEmpty(h)
    ensures ScanMin(h) == 0
  {
    if h != [] {
      assert AllEmpty(h[..|h| - 1]);
      AllEmptyScan(h[..|h| - 1]);
    }
  }

  ghost predicate Least(h: Heads, m: nat) {
    forall i :: 0 <= i < |h| && h[i].Some? ==> m <= h[i].value.id
  }

  ghost predicate Positive(h: Heads) {
    forall i :: 0 <= i < |h| && h[i].Some? ==> h[i].value.id > 0
  }

  lemma {:induction false} ScanMinIsLeast(h: Heads)
    requires Positive(h)
    ensures Least(h, ScanMin(h))
    ensures ScanMin(h) == 0 <==> AllEmpty(h)
  {
    if h != [] {
      var n := |h| - 1;
      ScanMinIsLeast(h[..n]);
      assert forall i :: 0 <= i < n ==> h[i] == h[..n][i];
      if AllEmpty(h) {
        assert AllEmpty(h[..n]);
      } else if AllEmpty(h[..n]) {
        assert h[n].Some?;
      }
    }
  }

  /** The last head that is there. */
  function LastHead(h: Heads): Option<Block> {
    if h == [] then None else if h[|h| - 1].Some? then h[|h| - 1] else LastHead(h[..|h| - 1])
  }

  /** With 0 doubling as "none", the scan finds the least head exactly unless a zero id is followed by another head. */
  lemma {:induction false} ScanMinLeastIff(h: Heads)
    ensures Least(h, ScanMin(h)) <==> Positive(h) || (LastHead(h).Some? && LastHead(h).value.id == 0)
  {
    if h != [] {
      var n := |h| - 1;
      ScanMinLeastIff(h[..n]);
      assert forall i :: 0 <= i < n ==> h[i] == h[..n][i];
      if h[n].None? {
        assert Least(h, ScanMin(h)) <==> Least(h[..n], ScanMin(h[..n]));
        assert Positive(h) <==> Positive(h[..n]);
      } else if Positive(h) {
        ScanMinIsLeast(h);
      } else if h[n].value.id > 0 {
        var i :| 0 <= i < |h| && h[i].Some? && h[i].value.id == 0;
        ScanPositive(h);
      }
    }
  }

  /** A head with id 0 in front of one with id 5: the scan answers 5. */
  lemma ZeroIdIsSkipped()
    ensures var h := [Some(Block(0, 1)), Some(Block(5, 2))]; ScanMin(h) == 5 && !Least(h, ScanMin(h))
  {
    var h := [Some(Block(0, 1)), Some(Block(5, 2))];
    assert h[..1] == [Some(Block(0, 1))] && h[..1][..0] == [];
    assert ScanMin([]) == 0 && ScanMin(h[..1]) == 0;
    assert h[0] == Some(Block(0, 1));
  }

  /** A head with a positive id at the end leaves a positive minimum. */
  lemma ScanPositive(h: Heads)
    requires h != [] && h[|h| - 1].Some? && h[|h| - 1].value.id > 0
    ensures ScanMin(h) > 0
  {
  }

  // ---------------------------------------------------------------- the callback as it runs

  /** The first scan. */
  method Scan(heads: Heads) returns (minId: nat, someEmpty: bool, allEmpty: bool, allSame: bool)
    ensures minId == ScanMin(heads) && allSame == ScanSame(heads)
    ensures someEmpty == SomeEmpty(heads) && allEmpty == AllEmpty(heads)
  {
    someEmpty, allEmpty, allSame, minId := false, true, true, 0;
    var lastId := 0;
    for i := 0 to |heads|
      invariant minId == ScanMin(heads[..i]) && lastId == ScanLast(heads[..i]) && allSame == ScanSame(heads[..i])
      invariant someEmpty == exists j :: 0 <= j < i && heads[j].None?
      invariant allEmpty == forall j :: 0 <= j < i ==> heads[j].None?
    {
      assert heads[..i + 1][..i] == heads[..i] && heads[..i + 1][i] == heads[i];
      if heads[i].Some? {
        allEmpty := false;
        var newId := heads[i].value.id;
        if minId == 0 || newId < minId {
          minId := newId;
        }
        if lastId != 0 && newId != lastId {
          allSame := false;
        }
        lastId := newId;
      } else {
        someEmpty := true;
        allSame := false;
      }
    }
    assert heads[..|heads|] == heads;
  }

  /** The second scan: take the heads with the given id. */
  method Collect(inputs: seq<seq<Block>>, minId: nat) returns (set_: DataSet, rest: seq<seq<Block>>)
    ensures set_ == Somes(Row(HeadsOf(inputs), minId))
    ensures rest == Taken(inputs, Row(HeadsOf(inputs), minId))
  {
    set_, rest := [], inputs;
    ghost var row := Row(HeadsOf(inputs), minId);
    for i := 0 to |inputs|
      invariant |rest| == |inputs| && rest[i..] == inputs[i..]
      invariant forall j :: 0 <= j < i ==> rest[j] == Taken(inputs, row)[j]
      invariant set_ == Somes(row[..i])
    {
      assert row[..i + 1][..i] == row[..i] && rest[i] == rest[i..][0];
      if rest[i] != [] && rest[i][0].id == minId {
        set_ := set_ + [rest[i][0]];
        rest := rest[i := rest[i][1..]];
      }
    }
    assert row[..|inputs|] == row;
  }

  /** `threadCallback`, with the other threads' doings handed in. */
  method ThreadCallback(s: State, e: Round) returns (t: State)
    ensures t == Callback(s, e)
  {
    var output := DropFirst(s.output, e.poppedBefore);
    var first := Arrive(s.inputs, e.before);
    var second := Arrive(first, e.between);
    var later := DropFirst(output, e.poppedBetween);
    t := State(second, later, s.capacity, s.incompletePending);
    if |output| >= s.capacity {
      return;
    }
    var minId, someEmpty, allEmpty, allSame := Scan(HeadsOf(first));
    if allEmpty {
      return;
    }
    var pending := s.incompletePending;
    if someEmpty {
      pending := true;
      if !e.timedOut {
        return State(second, later, s.capacity, pending);
      }
    }
    if allSame {
      pending := false;
    }
    var set_, rest := Collect(second, minId);
    return State(rest, later + [set_], s.capacity, pending);
  }

  // ---------------------------------------------------------------- conservation

  /** One input's share of the rows emitted so far. */
  function Column(rows: seq<Heads>, i: nat): seq<Block> {
    if rows == [] then []
    else
      var r := rows[|rows| - 1];
      Column(rows[..|rows| - 1], i) + (if i < |r| && r[i].Some? then [r[i].value] else [])
  }

  function Sets(rows: seq<Heads>): seq<DataSet> {
    if rows == [] then [] else Sets(rows[..|rows| - 1]) + [Somes(rows[|rows| - 1])]
  }

  /** `accepted` is all that was ever pushed to each input, `rows` all that was emitted. */
  datatype World = World(state: State, accepted: seq<seq<Block>>, rows: seq<Heads>)

  function Step(w: World, e: Round): World {
    World(Callback(w.state, e), Arrive(Arrive(w.accepted, e.before), e.between),
          if Emits(w.state, e) then w.rows + [Emitted(w.state, e)] else w.rows)
  }

  /** A row holds at least one block, and blocks of one id only. */
  ghost predicate GoodRow(r: Heads, n: nat) {
    && |r| == n
    && (exists i :: 0 <= i < |r| && r[i].Some?)
    && (forall i, j :: 0 <= i < j < |r| && r[i].Some? && r[j].Some? ==> r[i].value.id == r[j].value.id)
  }

  ghost predicate IsSuffix(a: seq<DataSet>, b: seq<DataSet>) {
    |a| <= |b| && a == b[|b| - |a|..]
  }

  ghost predicate Inv(w: World) {
    && |w.accepted| == |w.state.inputs|
    && |w.state.output| <= w.state.capacity
    && (forall k :: 0 <= k < |w.rows| ==> GoodRow(w.rows[k], |w.accepted|))
    && (forall i :: 0 <= i < |w.accepted| ==> w.accepted[i] == Column(w.rows, i) + w.state.inputs[i])
    && IsSuffix(w.state.output, Sets(w.rows))
  }

  lemma ColumnSnoc(rows: seq<Heads>, r: Heads, i: nat)
    ensures Column(rows + [r], i) == Column(rows, i) + (if i < |r| && r[i].Some? then [r[i].value] else [])
    ensures Sets(rows + [r]) == Sets(rows) + [Somes(r)]
  {
    assert (rows + [r])[..|rows|] == rows;
  }

  /** Heads seen at the first look are still there at the second. */
  lemma HeadsStay(s: State, e: Round, i: nat)
    requires i < |s.inputs| && HeadsOf(First(s, e))[i].Some?
    ensures HeadsOf(Second(s, e))[i] == HeadsOf(First(s, e))[i]
  {
  }

  lemma EmittedIsGood(s: State, e: Round)
    requires Emits(s, e)
    ensures GoodRow(Emitted(s, e), |s.inputs|)
  {
    var h := HeadsOf(First(s, e));
    ScanMinIsAHead(h);
    var i :| 0 <= i < |h| && h[i].Some? && h[i].value.id == ScanMin(h);
    HeadsStay(s, e, i);
    assert Emitted(s, e)[i].Some?;
  }

  lemma SuffixAfter(a: seq<DataSet>, b: seq<DataSet>, n: nat, x: DataSet)
    requires IsSuffix(a, b)
    ensures IsSuffix(DropFirst(a, n), b) && IsSuffix(DropFirst(a, n) + [x], b + [x])
  {
  }

  lemma Regroup(x: seq<Block>, q: seq<Block>, b: seq<Block>, c: seq<Block>)
    ensures x + q + b + c == x + (q + b + c)
  {
  }

  /** What is left on an input after a round. */
  lemma InputAfter(s: State, e: Round, i: nat)
    requires i < |s.inputs|
    ensures var q := Second(s, e)[i];
      Callback(s, e).inputs[i] == if Emits(s, e) && Emitted(s, e)[i].Some? then q[1..] else q
    ensures Emitted(s, e)[i].Some? ==> Second(s, e)[i] != [] && Emitted(s, e)[i].value == Second(s, e)[i][0]
  {
  }

  lemma AcceptedAfter(w: World, e: Round, i: nat)
    requires i < |w.accepted| == |w.state.inputs| && w.accepted[i] == Column(w.rows, i) + w.state.inputs[i]
    ensures Step(w, e).accepted[i] == Column(w.rows, i) + Second(w.state, e)[i]
  {
    var b := if i < |e.before| then e.before[i] else [];
    var c := if i < |e.between| then e.between[i] else [];
    Regroup(Column(w.rows, i), w.state.inputs[i], b, c);
  }

  lemma RowsAfter(w: World, e: Round, i: nat)
    requires i < |w.state.inputs|
    ensures Column(Step(w, e).rows, i) ==
      Column(w.rows, i) + (if Emits(w.state, e) && Emitted(w.state, e)[i].Some? then [Emitted(w.state, e)[i].value] else [])
  {
    if Emits(w.state, e) {
      ColumnSnoc(w.rows, Emitted(w.state, e), i);
    }
  }

  lemma MoveHead(x: seq<Block>, q: seq<Block>)
    ensures x + q == (x + []) + q
    ensures q != [] ==> x + q == (x + [q[0]]) + q[1..]
  {
  }

  lemma InputConserved(w: World, e: Round, i: nat)
    requires i < |w.accepted| == |w.state.inputs| && w.accepted[i] == Column(w.rows, i) + w.state.inputs[i]
    ensures Step(w, e).accepted[i] == Column(Step(w, e).rows, i) + Step(w, e).state.inputs[i]
  {
    AcceptedAfter(w, e, i);
    RowsAfter(w, e, i);
    InputAfter(w.state, e, i);
    MoveHead(Column(w.rows, i), Second(w.state, e)[i]);
  }

  /**
    Conservation for any inputs, any arrivals and timeouts: each set emitted is not empty and of one
    id, with at most one block per input in input order; per input, the blocks accepted are those
    emitted followed by those pending; the consumer gets the sets in order; and the final push of
    the round always finds room.
   */
  lemma StepConserves(w: World, e: Round)
    requires Inv(w)
    ensures Inv(Step(w, e))
  {
    var t := Step(w, e);
    forall i | 0 <= i < |t.accepted| ensures t.accepted[i] == Column(t.rows, i) + t.state.inputs[i] {
      InputConserved(w, e, i);
    }
    RowsStayGood(w, e);
    OutputConserved(w, e);
  }

  /** Each row emitted is good. */
  lemma RowsStayGood(w: World, e: Round)
    requires Inv(w)
    ensures |Step(w, e).accepted| == |w.accepted|
    ensures forall k :: 0 <= k < |Step(w, e).rows| ==> GoodRow(Step(w, e).rows[k], |w.accepted|)
  {
    if Emits(w.state, e) {
      EmittedIsGood(w.state, e);
    }
  }

  /** The output ring after a round. */
  lemma OutputAfter(s: State, e: Round)
    ensures var out, t := DropFirst(DropFirst(s.output, e.poppedBefore), e.poppedBetween), Callback(s, e);
      && t.capacity == s.capacity
      && t.output == (if Emits(s, e) then out + [Somes(Emitted(s, e))] else out)
      && (|s.output| <= s.capacity ==> |t.output| <= s.capacity)
  {
  }

  lemma SetsAfter(w: World, e: Round)
    ensures Sets(Step(w, e).rows) == if Emits(w.state, e) then Sets(w.rows) + [Somes(Emitted(w.state, e))] else Sets(w.rows)
    ensures Step(w, e).state == Callback(w.state, e)
  {
    if Emits(w.state, e) {
      ColumnSnoc(w.rows, Emitted(w.state, e), 0);
    }
  }

  /** The consumer's side: what is in the output ring are the last sets emitted, and there was room. */
  lemma OutputConserved(w: World, e: Round)
    requires IsSuffix(w.state.output, Sets(w.rows)) && |w.state.output| <= w.state.capacity
    ensures var t := Step(w, e); IsSuffix(t.state.output, Sets(t.rows)) && |t.state.output| <= t.state.capacity
  {
    var out := DropFirst(w.state.output, e.poppedBefore);
    OutputAfter(w.state, e);
    SetsAfter(w, e);
    SuffixAfter(w.state.output, Sets(w.rows), e.poppedBefore, []);
    SuffixAfter(out, Sets(w.rows), e.poppedBetween, Somes(Emitted(w.state, e)));
  }

  // ---------------------------------------------------------------- when a set goes out

  /** What an input holds at the first look of a round. */
  function AtFirstLook(s: State, e: Round, i: nat): seq<Block>
    requires i < |s.inputs|
  {
    s.inputs[i] + (if i < |e.before| then e.before[i] else [])
  }

  /** Is there room for a set, given what the consumer has taken before the round looks? */
  predicate RoomAtStart(s: State, e: Round) {
    (if e.poppedBefore <= |s.output| then |s.output| - e.poppedBefore else 0) < s.capacity
  }

  ghost predicate SomeInputEmpty(s: State, e: Round) { exists i :: 0 <= i < |s.inputs| && AtFirstLook(s, e, i) == [] }
  ghost predicate EveryInputEmpty(s: State, e: Round) { forall i :: 0 <= i < |s.inputs| ==> AtFirstLook(s, e, i) == [] }

  /** How many sets a round appends to the output. */
  function Appended(s: State, e: Round): int {
    |Callback(s, e).output| - |DropFirst(DropFirst(s.output, e.poppedBefore), e.poppedBetween)|
  }

  lemma HeadsEmptyIff(s: State, e: Round)
    ensures SomeEmpty(HeadsOf(First(s, e))) <==> SomeInputEmpty(s, e)
    ensures AllEmpty(HeadsOf(First(s, e))) <==> EveryInputEmpty(s, e)
  {
    var h := HeadsOf(First(s, e));
    forall i | 0 <= i < |s.inputs| ensures h[i].None? <==> AtFirstLook(s, e, i) == [] {}
  }

  /**
    A round appends one set or none, and one exactly if the output has room, some input has a block,
    and no input is empty or the timer has run out.
   */
  lemma AppendsIff(s: State, e: Round)
    ensures Appended(s, e) == 0 || Appended(s, e) == 1
    ensures Appended(s, e) == 1 <==>
      RoomAtStart(s, e) && !EveryInputEmpty(s, e) && (SomeInputEmpty(s, e) ==> e.timedOut)
  {
    HeadsEmptyIff(s, e);
    OutputAfter(s, e);
  }

  /** Without zero ids the scan says "all the same" exactly when no input is empty and all heads have one id. */
  lemma {:induction false} ScanSameIff(h: Heads)
    requires forall i :: 0 <= i < |h| && h[i].Some? ==> h[i].value.id > 0
    ensures ScanSame(h) <==>
      && (forall i :: 0 <= i < |h| ==> h[i].Some?)
      && (forall i, j :: 0 <= i < j < |h| && h[i].Some? && h[j].Some? ==> h[i].value.id == h[j].value.id)
    ensures h != [] && h[|h| - 1].Some? ==> ScanLast(h) == h[|h| - 1].value.id
  {
    if h != [] {
      var n := |h| - 1;
      ScanSameIff(h[..n]);
      assert forall i :: 0 <= i < n ==> h[..n][i] == h[i];
      if ScanSame(h[..n]) && n > 0 {
        assert h[n - 1].Some? && ScanLast(h[..n]) == h[n - 1].value.id;
      }
    }
  }

  /** All the inputs show a block, and of one id. */
  ghost predicate WholeSet(s: State, e: Round) {
    && (forall i :: 0 <= i < |s.inputs| ==> AtFirstLook(s, e, i) != [])
    && (forall i, j :: 0 <= i < j < |s.inputs| ==> AtFirstLook(s, e, i)[0].id == AtFirstLook(s, e, j)[0].id)
  }

  /**
    The timer is wanted from the first round that finds some inputs empty, but not all, until a round
    that finds a whole set.
   */
  lemma PendingFlag(s: State, e: Round)
    requires forall i :: 0 <= i < |s.inputs| && AtFirstLook(s, e, i) != [] ==> AtFirstLook(s, e, i)[0].id > 0
    ensures Callback(s, e).incompletePending ==
      if !RoomAtStart(s, e) || EveryInputEmpty(s, e) then s.incompletePending
      else SomeInputEmpty(s, e) || (s.incompletePending && !WholeSet(s, e))
  {
    HeadsEmptyIff(s, e);
    SameIffWhole(s, e);
  }

  lemma SameIffWhole(s: State, e: Round)
    requires forall i :: 0 <= i < |s.inputs| && AtFirstLook(s, e, i) != [] ==> AtFirstLook(s, e, i)[0].id > 0
    ensures ScanSame(HeadsOf(First(s, e))) <==> WholeSet(s, e)
  {
    var h := HeadsOf(First(s, e));
    forall i | 0 <= i < |h| ensures h[i] == Head(AtFirstLook(s, e, i)) {}
    ScanSameIff(h);
  }

  /** The other inputs and the output keep what they hold; without an emission nothing is taken. */
  lemma QuietRoundTakesNothing(s: State, e: Round, i: nat)
    requires i < |s.inputs| && Appended(s, e) == 0
    ensures Callback(s, e).inputs[i] == AtFirstLook(s, e, i) + (if i < |e.between| then e.between[i] else [])
  {
    OutputAfter(s, e);
    InputAfter(s, e, i);
  }

  /** What an input holds at the second look. */
  function AtSecondLook(s: State, e: Round, i: nat): seq<Block>
    requires i < |s.inputs|
  {
    AtFirstLook(s, e, i) + (if i < |e.between| then e.between[i] else [])
  }

  /**
    An emitting round takes from every input its oldest block if that has the least id seen at the
    first look, and nothing else.
   */
  lemma TakesTheLeast(s: State, e: Round, m: nat, i: nat)
    requires Appended(s, e) == 1 && i < |s.inputs|
    requires forall k :: 0 <= k < |s.inputs| && AtFirstLook(s, e, k) != [] ==> m <= AtFirstLook(s, e, k)[0].id
    requires exists k :: 0 <= k < |s.inputs| && AtFirstLook(s, e, k) != [] && AtFirstLook(s, e, k)[0].id == m
    requires m > 0
    ensures var q := AtSecondLook(s, e, i);
      Callback(s, e).inputs[i] == if q != [] && q[0].id == m then q[1..] else q
  {
    OutputAfter(s, e);
    InputAfter(s, e, i);
    LeastIsScanned(s, e, m);
    assert Second(s, e)[i] == AtSecondLook(s, e, i);
  }

  lemma LeastIsScanned(s: State, e: Round, m: nat)
    requires forall k :: 0 <= k < |s.inputs| && AtFirstLook(s, e, k) != [] ==> m <= AtFirstLook(s, e, k)[0].id
    requires exists k :: 0 <= k < |s.inputs| && AtFirstLook(s, e, k) != [] && AtFirstLook(s, e, k)[0].id == m
    requires m > 0
    ensures ScanMin(HeadsOf(First(s, e))) == m
  {
    var h := HeadsOf(First(s, e));
    forall k | 0 <= k < |h| ensures h[k] == Head(AtFirstLook(s, e, k)) {}
    var k :| 0 <= k < |s.inputs| && AtFirstLook(s, e, k) != [] && AtFirstLook(s, e, k)[0].id == m;
    assert h[k].Some? && h[k].value.id == m;
    ScanMinIsLeast(h);
    ScanMinIsAHead(h);
  }

  /** Over a run in which the timer never runs out, no set goes out while an input is empty. */
  lemma NoTimeoutNoEarlySet(ws: seq<World>, es: seq<Round>, n: nat)
    requires Execution(ws, es) && n < |es| && (forall i :: 0 <= i < |es| ==> !es[i].timedOut)
    ensures SomeInputEmpty(ws[n].state, es[n]) ==> Appended(ws[n].state, es[n]) == 0 && ws[n + 1].rows == ws[n].rows
    ensures NoEmptyInput(ws[n].state, es[n])
  {
    assert Follows(ws, es, n);
    AppendsIff(ws[n].state, es[n]);
    HeadsEmptyIff(ws[n].state, es[n]);
    OutputAfter(ws[n].state, es[n]);
  }

  // ---------------------------------------------------------------- the merge theorem

  ghost predicate Rising(q: seq<Block>) {
    && (forall i :: 0 <= i < |q| ==> q[i].id > 0)
    && (forall i, j :: 0 <= i < j < |q| ==> q[i].id < q[j].id)
  }

  ghost predicate AllRising(qs: seq<seq<Block>>) {
    forall i :: 0 <= i < |qs| ==> Rising(qs[i])
  }

  /** Every block of the row has this id. */
  ghost predicate HasId(r: Heads, id: nat) {
    forall i :: 0 <= i < |r| && r[i].Some? ==> r[i].value.id == id
  }

  /** `ids` are the ids of the rows, and they rise. */
  ghost predicate RisingIds(rows: seq<Heads>, ids: seq<nat>) {
    && |ids| == |rows|
    && (forall i, j :: 0 <= i < j < |ids| ==> ids[i] < ids[j])
    && (forall k :: 0 <= k < |ids| ==> HasId(rows[k], ids[k]))
  }

  /** Every input has been heard of up to `id`, with nothing as old still pending. */
  ghost predicate AllHeard(w: World, id: nat) {
    && |w.accepted| == |w.state.inputs|
    && forall i :: 0 <= i < |w.accepted| ==> HeardUpTo(w.accepted[i], w.state.inputs[i], id)
  }

  ghost predicate Merged(w: World, ids: seq<nat>) {
    && RisingIds(w.rows, ids)
    && (ids != [] ==> AllHeard(w, ids[|ids| - 1]))
  }

  ghost predicate HeardUpTo(accepted: seq<Block>, pending: seq<Block>, id: nat) {
    && accepted != [] && accepted[|accepted| - 1].id >= id
    && (forall j :: 0 <= j < |pending| ==> pending[j].id > id)
  }

  /** Arrivals on a rising input are younger than anything heard of. */
  lemma ArrivalsAreYounger(accepted: seq<Block>, pending: seq<Block>, new_: seq<Block>, id: nat)
    requires HeardUpTo(accepted, pending, id) && Rising(accepted + new_)
    ensures HeardUpTo(accepted + new_, pending + new_, id)
  {
    var a := accepted + new_;
    assert a[|accepted| - 1] == accepted[|accepted| - 1];
    forall j | 0 <= j < |new_| ensures new_[j].id > id {
      assert a[|accepted| + j] == new_[j];
    }
    assert new_ != [] ==> a[|a| - 1] == new_[|new_| - 1];
  }

  /** The round emits no set while an input is empty. */
  ghost predicate NoEmptyInput(s: State, e: Round) {
    Emits(s, e) ==> !SomeEmpty(HeadsOf(First(s, e)))
  }

  lemma SecondIsAccepted(w: World, e: Round, i: nat)
    requires Inv(w) && i < |w.accepted|
    ensures var new_ := (if i < |e.before| then e.before[i] else []) + (if i < |e.between| then e.between[i] else []);
      Step(w, e).accepted[i] == w.accepted[i] + new_ && Second(w.state, e)[i] == w.state.inputs[i] + new_
  {
    var b := if i < |e.before| then e.before[i] else [];
    var c := if i < |e.between| then e.between[i] else [];
    assert w.accepted[i] + b + c == w.accepted[i] + (b + c);
    assert w.state.inputs[i] + b + c == w.state.inputs[i] + (b + c);
  }

  lemma SuffixRising(x: seq<Block>, q: seq<Block>)
    requires Rising(x + q)
    ensures Rising(q)
  {
    assert forall i :: 0 <= i < |q| ==> q[i] == (x + q)[|x| + i];
  }

  /** With every head at least `m`, removing the heads equal to `m` leaves only younger blocks. */
  lemma AfterTaking(accepted: seq<Block>, x: seq<Block>, q: seq<Block>, m: nat)
    requires accepted == x + q && Rising(accepted) && q != [] && q[0].id >= m
    ensures HeardUpTo(accepted, if q[0].id == m then q[1..] else q, m)
  {
    SuffixRising(x, q);
    assert accepted[|accepted| - 1] == q[|q| - 1];
  }

  lemma MinOfNext(w: World, ids: seq<nat>, e: Round)
    requires Inv(w) && Merged(w, ids) && AllRising(Step(w, e).accepted)
    requires Emits(w.state, e) && NoEmptyInput(w.state, e) && ids != []
    ensures ScanMin(HeadsOf(First(w.state, e))) > ids[|ids| - 1]
  {
    var h := HeadsOf(First(w.state, e));
    ScanMinIsAHead(h);
    var i :| 0 <= i < |h| && h[i].Some? && h[i].value.id == ScanMin(h);
    HeadsStay(w.state, e, i);
    SecondIsAccepted(w, e, i);
    var new_ := (if i < |e.before| then e.before[i] else []) + (if i < |e.between| then e.between[i] else []);
    assert Rising(Step(w, e).accepted[i]);
    ArrivalsAreYounger(w.accepted[i], w.state.inputs[i], new_, ids[|ids| - 1]);
    assert Second(w.state, e)[i][0] == h[i].value;
  }

  lemma HeadsPositive(w: World, e: Round)
    requires Inv(w) && AllRising(Step(w, e).accepted)
    ensures Positive(HeadsOf(First(w.state, e)))
  {
    var h := HeadsOf(First(w.state, e));
    forall i | 0 <= i < |h| && h[i].Some? ensures h[i].value.id > 0 {
      HeadsStay(w.state, e, i);
      AcceptedAfter(w, e, i);
      assert Rising(Step(w, e).accepted[i]);
      SuffixRising(Column(w.rows, i), Second(w.state, e)[i]);
      assert Second(w.state, e)[i][0] == h[i].value;
    }
  }

  /** One input after an emission. */
  lemma HeardAfterEmission(w: World, e: Round, i: nat)
    requires Inv(w) && AllRising(Step(w, e).accepted) && i < |w.accepted|
    requires Emits(w.state, e) && NoEmptyInput(w.state, e)
    ensures HeardUpTo(Step(w, e).accepted[i], Step(w, e).state.inputs[i], ScanMin(HeadsOf(First(w.state, e))))
  {
    var h := HeadsOf(First(w.state, e));
    HeadsPositive(w, e);
    ScanMinIsLeast(h);
    assert h[i].Some?;
    HeadsStay(w.state, e, i);
    AcceptedAfter(w, e, i);
    InputAfter(w.state, e, i);
    assert Rising(Step(w, e).accepted[i]);
    AfterTaking(Step(w, e).accepted[i], Column(w.rows, i), Second(w.state, e)[i], ScanMin(h));
  }

  lemma HeardWithoutEmission(w: World, ids: seq<nat>, e: Round, i: nat)
    requires Inv(w) && Merged(w, ids) && AllRising(Step(w, e).accepted) && i < |w.accepted|
    requires !Emits(w.state, e) && ids != []
    ensures HeardUpTo(Step(w, e).accepted[i], Step(w, e).state.inputs[i], ids[|ids| - 1])
  {
    var new_ := (if i < |e.before| then e.before[i] else []) + (if i < |e.between| then e.between[i] else []);
    SecondIsAccepted(w, e, i);
    InputAfter(w.state, e, i);
    assert Rising(Step(w, e).accepted[i]);
    ArrivalsAreYounger(w.accepted[i], w.state.inputs[i], new_, ids[|ids| - 1]);
  }

  /** The ids of the rows after a round. */
  ghost function IdsAfter(w: World, ids: seq<nat>, e: Round): seq<nat> {
    if Emits(w.state, e) then ids + [ScanMin(HeadsOf(First(w.state, e)))] else ids
  }

  lemma RisingSnoc(rows: seq<Heads>, ids: seq<nat>, r: Heads, id: nat)
    requires RisingIds(rows, ids) && HasId(r, id) && (ids != [] ==> ids[|ids| - 1] < id)
    ensures RisingIds(rows + [r], ids + [id])
  {
  }

  lemma EmissionRows(w: World, e: Round)
    requires Emits(w.state, e)
    ensures Step(w, e).rows == w.rows + [Emitted(w.state, e)]
    ensures HasId(Emitted(w.state, e), ScanMin(HeadsOf(First(w.state, e))))
  {
  }

  lemma EmissionMerges(w: World, ids: seq<nat>, e: Round)
    requires Inv(w) && Merged(w, ids) && AllRising(Step(w, e).accepted)
    requires Emits(w.state, e) && NoEmptyInput(w.state, e)
    ensures Merged(Step(w, e), IdsAfter(w, ids, e))
  {
    var t, m := Step(w, e), ScanMin(HeadsOf(First(w.state, e)));
    EmissionIds(w, ids, e);
    AllHeardAfter(w, e, t, m);
    MergedWith(t, ids + [m], m);
  }

  lemma EmissionIds(w: World, ids: seq<nat>, e: Round)
    requires Inv(w) && Merged(w, ids) && AllRising(Step(w, e).accepted)
    requires Emits(w.state, e) && NoEmptyInput(w.state, e)
    ensures RisingIds(Step(w, e).rows, ids + [ScanMin(HeadsOf(First(w.state, e)))])
  {
    if ids != [] {
      MinOfNext(w, ids, e);
    }
    EmissionRows(w, e);
    RisingSnoc(w.rows, ids, Emitted(w.state, e), ScanMin(HeadsOf(First(w.state, e))));
  }

  lemma MergedWith(t: World, ids: seq<nat>, m: nat)
    requires RisingIds(t.rows, ids) && ids != [] && ids[|ids| - 1] == m && AllHeard(t, m)
    ensures Merged(t, ids)
  {
  }

  lemma AllHeardAfter(w: World, e: Round, t: World, m: nat)
    requires Inv(w) && t == Step(w, e) && AllRising(t.accepted) && m == ScanMin(HeadsOf(First(w.state, e)))
    requires Emits(w.state, e) && NoEmptyInput(w.state, e)
    ensures AllHeard(t, m)
  {
    forall i | 0 <= i < |t.accepted| ensures HeardUpTo(t.accepted[i], t.state.inputs[i], m) {
      HeardAfterEmission(w, e, i);
    }
  }

  /** A round that emits nothing while an input is empty keeps the merge in order. */
  lemma StepMerges(w: World, ids: seq<nat>, e: Round)
    requires Inv(w) && Merged(w, ids) && AllRising(Step(w, e).accepted) && NoEmptyInput(w.state, e)
    ensures Merged(Step(w, e), IdsAfter(w, ids, e))
  {
    if Emits(w.state, e) {
      EmissionMerges(w, ids, e);
    } else if ids != [] {
      var t, m := Step(w, e), ids[|ids| - 1];
      forall i | 0 <= i < |t.accepted| ensures HeardUpTo(t.accepted[i], t.state.inputs[i], m) {
        HeardWithoutEmission(w, ids, e, i);
      }
    }
  }

  lemma {:induction false} ColumnMembers(rows: seq<Heads>, i: nat, b: Block) returns (k: nat)
    requires b in Column(rows, i)
    ensures k < |rows| && i < |rows[k]| && rows[k][i] == Some(b)
  {
    var n := |rows| - 1;
    if b in Column(rows[..n], i) {
      k := ColumnMembers(rows[..n], i, b);
    } else {
      k := n;
    }
  }

  lemma SetIsComplete(w: World, ids: seq<nat>, k: nat, i: nat, b: Block)
    requires Inv(w) && Merged(w, ids) && k < |w.rows| && i < |w.accepted|
    requires b in w.accepted[i] && b.id == ids[k]
    ensures w.rows[k][i] == Some(b)
  {
    assert w.accepted[i] == Column(w.rows, i) + w.state.inputs[i];
    assert HeardUpTo(w.accepted[i], w.state.inputs[i], ids[|ids| - 1]);
    assert b in Column(w.rows, i);
    var k' := ColumnMembers(w.rows, i, b);
    assert HasId(w.rows[k'], ids[k']);
  }

  /** Each set holds every block of its id that was ever accepted, on any input. */
  ghost predicate CompleteSets(w: World, ids: seq<nat>) {
    forall k, i, b :: 0 <= k < |ids| == |w.rows| && 0 <= i < |w.accepted| && b in w.accepted[i] && b.id == ids[k] ==>
      i < |w.rows[k]| && w.rows[k][i] == Some(b)
  }

  lemma SetsAreComplete(w: World, ids: seq<nat>)
    requires Inv(w) && Merged(w, ids)
    ensures CompleteSets(w, ids)
  {
    forall k, i, b | 0 <= k < |ids| == |w.rows| && 0 <= i < |w.accepted| && b in w.accepted[i] && b.id == ids[k]
      ensures i < |w.rows[k]| && w.rows[k][i] == Some(b)
    {
      SetIsComplete(w, ids, k, i, b);
    }
  }

  // ---------------------------------------------------------------- whole runs

  ghost predicate Execution(ws: seq<World>, es: seq<Round>) {
    && |ws| == |es| + 1
    && ws[0].rows == [] && ws[0].state.output == [] && ws[0].accepted == ws[0].state.inputs
    && forall i :: 0 <= i < |es| ==> Follows(ws, es, i)
  }

  ghost predicate Follows(ws: seq<World>, es: seq<Round>, i: nat)
    requires i < |es| && |ws| == |es| + 1
  {
    ws[i + 1] == Step(ws[i], es[i])
  }

  lemma {:induction false} ExecutionConserves(ws: seq<World>, es: seq<Round>, n: nat)
    requires Execution(ws, es) && n < |ws|
    ensures Inv(ws[n])
  {
    if n > 0 {
      ExecutionConserves(ws, es, n - 1);
      assert Follows(ws, es, n - 1);
      StepConserves(ws[n - 1], es[n - 1]);
    } else {
      forall i | 0 <= i < |ws[0].accepted| ensures ws[0].accepted[i] == Column([], i) + ws[0].state.inputs[i] {
        assert [] + ws[0].state.inputs[i] == ws[0].state.inputs[i];
      }
    }
  }

  ghost predicate RisingInputs(ws: seq<World>) {
    forall i :: 0 <= i < |ws| ==> AllRising(ws[i].accepted)
  }

  ghost predicate NeverEmptyInput(ws: seq<World>, es: seq<Round>) {
    forall i :: 0 <= i < |es| && i < |ws| ==> NoEmptyInput(ws[i].state, es[i])
  }

  lemma MergesOn(w: World, t: World, e: Round, before: seq<nat>) returns (ids: seq<nat>)
    requires Inv(w) && t == Step(w, e) && Merged(w, before) && AllRising(t.accepted) && NoEmptyInput(w.state, e)
    ensures Merged(t, ids)
  {
    StepMerges(w, before, e);
    ids := IdsAfter(w, before, e);
  }

  lemma {:induction false} ExecutionMerges(ws: seq<World>, es: seq<Round>, n: nat) returns (ids: seq<nat>)
    requires Execution(ws, es) && n < |ws| && RisingInputs(ws) && NeverEmptyInput(ws, es)
    ensures Merged(ws[n], ids)
  {
    if n == 0 {
      ids := [];
    } else {
      var before := ExecutionMerges(ws, es, n - 1);
      ExecutionConserves(ws, es, n - 1);
      assert Follows(ws, es, n - 1);
      ids := MergesOn(ws[n - 1], ws[n], es[n - 1], before);
    }
  }

  /**
    The merge theorem: when every input carries rising positive ids and no set is emitted while an
    input is empty, the ids of the sets rise strictly and each set holds every block of its id.
   */
  lemma MergeTheorem(ws: seq<World>, es: seq<Round>, n: nat) returns (ids: seq<nat>)
    requires Execution(ws, es) && n < |ws| && RisingInputs(ws) && NeverEmptyInput(ws, es)
    ensures Inv(ws[n]) && RisingIds(ws[n].rows, ids) && CompleteSets(ws[n], ids)
  {
    ids := ExecutionMerges(ws, es, n);
    ExecutionConserves(ws, es, n);
    SetsAreComplete(ws[n], ids);
  }
}
