/**
  The page pool shared by any number of threads. Every atomic load and store is one step; the
  rotating starts are loaded anew in every turn of a search, so a search may be led astray.
 */
module SharedPool {
  import opened MemPools

  /**
    What a thread is doing. Getting: before loading the start for a turn, before testing an index,
    before publishing the page it won. Releasing: before loading the start, with the starts seen so
    far, before clearing the flag, before publishing.
   */
  datatype Activity =
    | Idle
    | GetLook(turn: nat)
    | GetTest(turn: nat, index: nat)
    | GetPublish(index: nat)
    | ReleaseLook(page: nat, seen: seq<int>)
    | ReleaseClear(page: nat)
    | ReleasePublish(page: nat)

  /** Flags, rotating starts, what each thread does and holds; `lost` are pages whose release missed them. */
  datatype State = State(
    used: seq<bool>, lastGet: int, lastRelease: int,
    doing: map<int, Activity>, holds: map<int, set<nat>>, lost: set<nat>)

  /** A thread calls one of the two operations, or does the next step of the one it is in. */
  datatype Event = CallGet(thread: int) | CallRelease(thread: int, page: nat) | Continue(thread: int)

  function Doing(s: State, t: int): Activity { if t in s.doing then s.doing[t] else Idle }
  function Holds(s: State, t: int): set<nat> { if t in s.holds then s.holds[t] else {} }

  function Does(s: State, t: int, a: Activity): State { s.(doing := s.doing[t := a]) }

  function Continued(s: State, t: int): State
    requires Inv(s)
  {
    var n := |s.used|;
    match Doing(s, t)
    case Idle => s
    case GetLook(i) => Does(s, t, GetTest(i, Turn(s.lastGet, i, n)))
    case GetTest(i, k) =>
      if s.used[k] then Does(s, t, if i + 1 < n then GetLook(i + 1) else Idle)
      else Does(s, t, GetPublish(k)).(used := s.used[k := true], holds := s.holds[t := Holds(s, t) + {k}])
    case GetPublish(k) => Does(s, t, Idle).(lastGet := k)
    case ReleaseLook(p, seen) =>
      if Turn(s.lastRelease, |seen|, n) == p then Does(s, t, ReleaseClear(p))
      else if |seen| + 1 < n then Does(s, t, ReleaseLook(p, seen + [s.lastRelease]))
      else Does(s, t, Idle).(lost := s.lost + {p})
    case ReleaseClear(p) => Does(s, t, ReleasePublish(p)).(used := s.used[p := false])
    case ReleasePublish(p) => Does(s, t, Idle).(lastRelease := p)
  }

  /** A thread that is busy calls nothing, and a thread releases only what it holds. */
  function Step(s: State, e: Event): State
    requires Inv(s)
  {
    match e
    case CallGet(t) => if Doing(s, t).Idle? then Does(s, t, GetLook(0)) else s
    case CallRelease(t, p) =>
      if Doing(s, t).Idle? && p in Holds(s, t)
      then Does(s, t, ReleaseLook(p, [])).(holds := s.holds[t := Holds(s, t) - {p}]) else s
    case Continue(t) => Continued(s, t)
  }

  // ---------------------------------------------------------------- what every interleaving keeps

  /** On its way back, with the flag still set. */
  predicate Returning(a: Activity, p: nat) {
    (a.ReleaseLook? || a.ReleaseClear?) && a.page == p
  }

  ghost predicate Has(s: State, t: int, p: nat) { p in Holds(s, t) || Returning(Doing(s, t), p) }

  ghost predicate Both(s: State, t: int, p: nat) { p in Holds(s, t) && Returning(Doing(s, t), p) }

  /** No turn of a search so far led to the page. */
  ghost predicate Missed(p: nat, seen: seq<int>, n: nat) {
    && n > 0
    && forall i :: 0 <= i < |seen| ==> Turn(seen[i], i, n) != p
  }

  ghost predicate ActivityOk(a: Activity, n: nat) {
    match a
    case Idle => true
    case GetLook(i) => i < n
    case GetTest(i, k) => i < n && k < n
    case GetPublish(k) => k < n
    case ReleaseLook(p, seen) => p < n && |seen| < n && Missed(p, seen, n)
    case ReleaseClear(p) => p < n
    case ReleasePublish(p) => p < n
  }

  ghost predicate Ranges(s: State) {
    var n := |s.used|;
    && n > 0 && -1 <= s.lastGet < n && -1 <= s.lastRelease < n
    && (forall t :: ActivityOk(Doing(s, t), n))
  }

  /** Held means set, by one thread only; and a flag set without a holder is that of a page lost. */
  ghost predicate Owners(s: State) {
    && (forall t, p: nat :: Has(s, t, p) ==> p < |s.used| && s.used[p] && p !in s.lost)
    && (forall t, u, p: nat :: Has(s, t, p) && Has(s, u, p) ==> t == u)
    && (forall t, p: nat :: !Both(s, t, p))
    && (forall p :: p in s.lost ==> p < |s.used| && s.used[p])
    && (forall p: nat :: p < |s.used| && s.used[p] ==> p in s.lost || exists t :: Has(s, t, p))
  }

  ghost predicate Inv(s: State) { Ranges(s) && Owners(s) }

  /** One thread moved on; the others do what they did. */
  ghost predicate Moved(s: State, r: State, t: int) {
    && |r.used| == |s.used|
    && (forall u :: u != t ==> Doing(r, u) == Doing(s, u))
    && (forall u :: u != t ==> Holds(r, u) == Holds(s, u))
  }

  lemma StepMoves(s: State, e: Event)
    requires Inv(s)
    ensures Moved(s, Step(s, e), e.thread)
  {
  }

  lemma StepRanges(s: State, e: Event)
    requires Inv(s)
    ensures Ranges(Step(s, e))
  {
    var r, t := Step(s, e), e.thread;
    StepMoves(s, e);
    assert ActivityOk(Doing(s, t), |s.used|);
    if e.CallRelease? && e.page in Holds(s, t) { assert Has(s, t, e.page); }
    assert ActivityOk(Doing(r, t), |r.used|);
    forall u ensures ActivityOk(Doing(r, u), |r.used|) {
      assert ActivityOk(Doing(s, u), |s.used|);
    }
  }

  /** Who has what is as before. */
  lemma SameOwners(s: State, r: State)
    requires Owners(s) && r.used == s.used && r.lost == s.lost
    requires forall u, p: nat :: Has(r, u, p) <==> Has(s, u, p)
    requires forall u, p: nat :: !Both(r, u, p)
    ensures Owners(r)
  {
  }

  /** A page goes to the thread whose test-and-set found its flag clear. */
  lemma WinOwners(s: State, r: State, t: int, k: nat)
    requires Owners(s) && k < |s.used| && !s.used[k] && r.used == s.used[k := true] && r.lost == s.lost
    requires forall u, p: nat :: Has(r, u, p) <==> Has(s, u, p) || (u == t && p == k)
    requires forall u, p: nat :: !Both(r, u, p)
    ensures Owners(r)
  {
    assert Has(r, t, k);
  }

  /** A page whose flag is cleared, or whose search missed it, has no holder any more. */
  lemma GiveUpOwners(s: State, r: State, t: int, p: nat)
    requires Owners(s) && Has(s, t, p)
    requires (r.used == s.used[p := false] && r.lost == s.lost) || (r.used == s.used && r.lost == s.lost + {p})
    requires forall u, q: nat :: Has(r, u, q) <==> Has(s, u, q) && q != p
    requires forall u, q: nat :: !Both(r, u, q)
    ensures Owners(r)
  {
  }

  lemma NotBoth(s: State, r: State, t: int)
    requires Owners(s) && Moved(s, r, t) && forall p: nat :: !Both(r, t, p)
    ensures forall u, p: nat :: !Both(r, u, p)
  {
    forall u, p: nat ensures !Both(r, u, p) {
      assert !Both(s, u, p);
    }
  }

  lemma GetOwners(s: State, t: int)
    requires Inv(s) && (Doing(s, t).Idle? || Doing(s, t).GetLook? || Doing(s, t).GetTest? || Doing(s, t).GetPublish?)
    ensures Owners(Continued(s, t))
  {
    var r := Continued(s, t);
    assert ActivityOk(Doing(s, t), |s.used|);
    StepMoves(s, Continue(t));
    NotBoth(s, r, t);
    if Doing(s, t).GetTest? && !s.used[Doing(s, t).index] {
      forall u, p: nat ensures Has(r, u, p) <==> Has(s, u, p) || (u == t && p == Doing(s, t).index) {}
      WinOwners(s, r, t, Doing(s, t).index);
    } else {
      forall u, p: nat ensures Has(r, u, p) <==> Has(s, u, p) {}
      SameOwners(s, r);
    }
  }

  lemma ReleaseOwners(s: State, t: int)
    requires Inv(s) && (Doing(s, t).ReleaseLook? || Doing(s, t).ReleaseClear? || Doing(s, t).ReleasePublish?)
    ensures Owners(Continued(s, t))
  {
    var r, a := Continued(s, t), Doing(s, t);
    assert ActivityOk(a, |s.used|);
    StepMoves(s, Continue(t));
    assert a.ReleaseLook? || a.ReleaseClear? ==> Has(s, t, a.page) && !Both(s, t, a.page);
    forall p: nat ensures !Both(r, t, p) { assert !Both(s, t, p); }
    NotBoth(s, r, t);
    if a.ReleasePublish? || Returning(Doing(r, t), a.page) {
      forall u, p: nat ensures Has(r, u, p) <==> Has(s, u, p) {}
      SameOwners(s, r);
    } else {
      forall u, q: nat ensures Has(r, u, q) <==> Has(s, u, q) && q != a.page {
        if Has(s, u, q) && q == a.page { assert u == t; }
      }
      GiveUpOwners(s, r, t, a.page);
    }
  }

  lemma CallOwners(s: State, e: Event)
    requires Inv(s) && !e.Continue?
    ensures Owners(Step(s, e))
  {
    var r, t := Step(s, e), e.thread;
    StepMoves(s, e);
    forall p: nat ensures !Both(r, t, p) { assert !Both(s, t, p); }
    NotBoth(s, r, t);
    forall u, p: nat ensures Has(r, u, p) <==> Has(s, u, p) {}
    SameOwners(s, r);
  }

  lemma StepKeeps(s: State, e: Event)
    requires Inv(s)
    ensures Inv(Step(s, e))
  {
    StepRanges(s, e);
    if !e.Continue? {
      CallOwners(s, e);
    } else if Doing(s, e.thread).ReleaseLook? || Doing(s, e.thread).ReleaseClear? || Doing(s, e.thread).ReleasePublish? {
      ReleaseOwners(s, e.thread);
    } else {
      GetOwners(s, e.thread);
    }
  }

  // ---------------------------------------------------------------- whole runs

  function Initial(n: nat): State { State(seq(n, _ => false), -1, -1, map[], map[], {}) }

  lemma InitialInv(n: nat)
    requires n > 0
    ensures Inv(Initial(n))
  {
  }

  /** The state after some events. */
  function Play(s: State, es: seq<Event>): (r: State)
    requires Inv(s)
    ensures Inv(r) && |r.used| == |s.used|
    decreases |es|
  {
    if es == [] then s
    else
      StepKeeps(s, es[0]);
      StepMoves(s, es[0]);
      Play(Step(s, es[0]), es[1..])
  }

  function Run(n: nat, es: seq<Event>): (s: State)
    requires n > 0
    ensures Inv(s)
  {
    InitialInv(n);
    Play(Initial(n), es)
  }

  /**
    Whatever the interleaving: a page in the hands of a thread has its flag set and no other holder,
    and a flag set without a holder belongs to a page that a release has missed.
   */
  lemma NoTwoHolders(n: nat, es: seq<Event>, t: int, u: int, p: nat)
    requires n > 0
    ensures var s := Run(n, es);
      && (Has(s, t, p) ==> p < |s.used| && s.used[p] && p !in s.lost)
      && (Has(s, t, p) && Has(s, u, p) ==> t == u)
      && (p < |s.used| && s.used[p] && p !in s.lost ==> exists v :: Has(s, v, p))
  {
    var s := Run(n, es);
    assert Inv(s);
  }

  /** A flag is cleared only by the thread that has the page. */
  lemma ClearsOwnOnly(s: State, e: Event, p: nat)
    requires Inv(s) && p < |s.used| && s.used[p] && !Step(s, e).used[p]
    ensures Has(s, e.thread, p)
  {
  }

  // ---------------------------------------------------------------- gets that give up

  predicate Searches(s: State, t: int) { Doing(s, t).GetLook? || Doing(s, t).GetTest? }

  /** The starts loaded in the turns of a thread's get, and the indices it has tested and found set. */
  datatype Search = Search(starts: seq<int>, inUse: seq<nat>)

  function Noted(s: State, e: Event, t: int, h: Search): Search
    requires Inv(s)
  {
    if e.thread != t then h
    else if e.CallGet? && Doing(s, t).Idle? then Search([], [])
    else if e.Continue? && Doing(s, t).GetLook? then h.(starts := h.starts + [s.lastGet])
    else if e.Continue? && Doing(s, t).GetTest? && TestsSet(s, t) then h.(inUse := h.inUse + [Doing(s, t).index])
    else h
  }

  /** The flag at the index to be tested is set. */
  predicate TestsSet(s: State, t: int)
    requires Inv(s)
  {
    var a := Doing(s, t);
    a.GetTest? && a.index < |s.used| && s.used[a.index]
  }

  /** What was noted during some events. */
  function Notes(s: State, es: seq<Event>, t: int, h: Search): Search
    requires Inv(s)
    decreases |es|
  {
    if es == [] then h
    else
      StepKeeps(s, es[0]);
      Notes(Step(s, es[0]), es[1..], t, Noted(s, es[0], t, h))
  }

  /** Each index tested was the one of its turn, counted from the start loaded in that turn. */
  ghost predicate InTurn(h: Search, n: nat) {
    && n > 0 && |h.inUse| <= |h.starts|
    && forall i :: 0 <= i < |h.inUse| ==> h.inUse[i] == Turn(h.starts[i], i, n)
  }

  ghost predicate Agrees(s: State, t: int, h: Search) {
    var n := |s.used|;
    match Doing(s, t)
    case GetLook(i) => InTurn(h, n) && |h.starts| == |h.inUse| == i
    case GetTest(i, k) => InTurn(h, n) && |h.starts| == i + 1 && |h.inUse| == i && k == Turn(h.starts[i], i, n)
    case _ => true
  }

  lemma StepAgrees(s: State, e: Event, t: int, h: Search)
    requires Inv(s) && Agrees(s, t, h)
    ensures Agrees(Step(s, e), t, Noted(s, e, t, h))
  {
    assert ActivityOk(Doing(s, t), |s.used|);
    StepMoves(s, e);
  }

  lemma {:induction false} PlayAgrees(s: State, es: seq<Event>, t: int, h: Search)
    requires Inv(s) && Agrees(s, t, h)
    ensures Agrees(Play(s, es), t, Notes(s, es, t, h))
    decreases |es|
  {
    if es != [] {
      StepKeeps(s, es[0]);
      StepAgrees(s, es[0], t, h);
      PlayAgrees(Step(s, es[0]), es[1..], t, Noted(s, es[0], t, h));
    }
  }

  /**
    Over every run: a get ends without a page exactly when it now finds set the flag it tests, and has
    found set the flag of its turn in each of the earlier ones; it goes on to publish a page exactly when
    that flag is clear.
   */
  lemma GivesUpIff(n: nat, es: seq<Event>, t: int)
    requires n > 0 && Searches(Run(n, es), t)
    ensures var s, h := Run(n, es), Notes(Run(n, []), es, t, Search([], [])); var r := Step(s, Continue(t));
      && InTurn(h, n)
      && (Doing(r, t).Idle? <==> Doing(s, t).GetTest? && TestsSet(s, t) && |h.inUse| == n - 1)
      && (Doing(r, t).GetPublish? <==> Doing(s, t).GetTest? && !TestsSet(s, t))
      && (Doing(s, t).GetTest? ==> |h.starts| == |h.inUse| + 1 && Doing(s, t).index == Turn(h.starts[|h.inUse|], |h.inUse|, n))
  {
    InitialInv(n);
    PlayAgrees(Initial(n), es, t, Search([], []));
    assert ActivityOk(Doing(Run(n, es), t), n);
  }

  /** A get during which no other thread published one gives up only after finding every page in use. */
  lemma GaveUpFoundAll(s: State, t: int, h: Search, p: nat)
    requires Inv(s) && Agrees(s, t, h) && p < |s.used|
    requires forall i :: 0 <= i < |h.starts| ==> h.starts[i] == s.lastGet
    requires Searches(s, t) && Doing(Step(s, Continue(t)), t).Idle?
    ensures p in Noted(s, Continue(t), t, h).inUse
  {
    var n := |s.used|;
    assert ActivityOk(Doing(s, t), n);
    var i := TurnOf(s.lastGet, p, n);
    TurnReaches(s.lastGet, p, n);
    var r := Noted(s, Continue(t), t, h);
    assert |r.inUse| == n && r.inUse[i] == p;
  }

  // ---------------------------------------------------------------- releases that miss

  /** All the turns of the search that is in its last one, the last included. */
  function Turns(s: State, t: int): seq<int>
    requires Doing(s, t).ReleaseLook?
  {
    Doing(s, t).seen + [s.lastRelease]
  }

  /** A step loses a page exactly when it ends a search none of whose turns led to the page. */
  lemma LosesIff(s: State, e: Event)
    requires Inv(s)
    ensures Step(s, e).lost != s.lost <==>
      && e.Continue? && Doing(s, e.thread).ReleaseLook?
      && |Turns(s, e.thread)| == |s.used|
      && Missed(Doing(s, e.thread).page, Turns(s, e.thread), |s.used|)
  {
    var t := e.thread;
    assert ActivityOk(Doing(s, t), |s.used|);
    if e.Continue? && Doing(s, t).ReleaseLook? {
      var p, seen, n := Doing(s, t).page, Doing(s, t).seen, |s.used|;
      assert Returning(Doing(s, t), p) && Has(s, t, p);
      if Turn(s.lastRelease, |seen|, n) == p {
        assert Turns(s, t)[|seen|] == s.lastRelease;
      }
    }
  }

  /** Nobody has published a release while the search was on. */
  ghost predicate Undisturbed(s: State, e: Event) {
    e.Continue? && Doing(s, e.thread).ReleaseLook? ==>
      forall i :: 0 <= i < |Doing(s, e.thread).seen| ==> Doing(s, e.thread).seen[i] == s.lastRelease
  }

  /** An undisturbed search finds its page, from any start. */
  lemma UndisturbedFinds(s: State, e: Event)
    requires Inv(s) && Undisturbed(s, e)
    ensures Step(s, e).lost == s.lost
  {
    LosesIff(s, e);
    var t, n := e.thread, |s.used|;
    if e.Continue? && Doing(s, t).ReleaseLook? && |Turns(s, t)| == n {
      assert ActivityOk(Doing(s, t), n);
      var i := TurnOf(s.lastRelease, Doing(s, t).page, n);
      TurnReaches(s.lastRelease, Doing(s, t).page, n);
      assert Turns(s, t)[i] == s.lastRelease;
    }
  }

  /** Throughout the run, no release is published while another thread searches. */
  ghost predicate Calm(s: State, es: seq<Event>)
    requires Inv(s)
    decreases |es|
  {
    es == [] || (Undisturbed(s, es[0]) && (StepKeeps(s, es[0]); Calm(Step(s, es[0]), es[1..])))
  }

  /** Then nothing is lost: a flag is set exactly while a thread has the page. */
  lemma {:induction false} CalmLosesNothing(s: State, es: seq<Event>)
    requires Inv(s) && Calm(s, es)
    ensures Play(s, es).lost == s.lost
    decreases |es|
  {
    if es != [] {
      UndisturbedFinds(s, es[0]);
      StepKeeps(s, es[0]);
      CalmLosesNothing(Step(s, es[0]), es[1..]);
    }
  }

  /** A page that was lost stays lost: its flag is set for ever and nobody gets it. */
  lemma LostForEver(s: State, e: Event, p: nat)
    requires Inv(s) && p in s.lost
    ensures p in Step(s, e).lost && Step(s, e).used[p] && forall t :: !Has(Step(s, e), t, p)
  {
    StepKeeps(s, e);
    assert Owners(Step(s, e));
  }

  lemma {:induction false} PlayConcat(s: State, a: seq<Event>, b: seq<Event>)
    requires Inv(s)
    ensures Play(s, a + b) == Play(Play(s, a), b)
    decreases |a|
  {
    if a == [] {
      assert a + b == b;
    } else {
      StepKeeps(s, a[0]);
      PlayConcat(Step(s, a[0]), a[1..], b);
      assert (a + b)[0] == a[0] && (a + b)[1..] == a[1..] + b;
    }
  }

  lemma PlayOne(s: State, e: Event, es: seq<Event>)
    requires Inv(s)
    ensures Inv(Step(s, e)) && Play(s, [e] + es) == Play(Step(s, e), es)
  {
    StepKeeps(s, e);
    assert ([e] + es)[1..] == es;
  }

  /** The next steps of a thread: three of them, or four. */
  lemma PlayThree(s: State, e: Event, f: Event, g: Event)
    requires Inv(s)
    ensures var r := Step(s, e); Inv(r) && var q := Step(r, f); Inv(q) && Play(s, [e, f, g]) == Step(q, g)
  {
    PlayOne(s, e, [f, g]);
    PlayOne(Step(s, e), f, [g]);
    PlayOne(Step(Step(s, e), f), g, []);
    assert [e] + [f, g] == [e, f, g] && [f] + [g] == [f, g] && [g] + [] == [g];
  }

  lemma PlayFour(s: State, e: Event, f: Event)
    requires Inv(s)
    ensures var r := Step(s, e); Inv(r) && Play(s, [e, f, f, f]) == Play(r, [f, f, f])
  {
    PlayOne(s, e, [f, f, f]);
    assert [e] + [f, f, f] == [e, f, f, f];
  }

  function Got(s: State, t: int, k: nat): State
    requires k < |s.used|
  {
    s.(used := s.used[k := true], lastGet := k, doing := s.doing[t := Idle], holds := s.holds[t := Holds(s, t) + {k}])
  }

  /** A thread that gets page `k` at its first look. */
  lemma GetsAtOnce(s: State, t: int, k: nat)
    requires Inv(s) && Doing(s, t).Idle? && Turn(s.lastGet, 0, |s.used|) == k && !s.used[k]
    ensures Play(s, [CallGet(t), Continue(t), Continue(t), Continue(t)]) == Got(s, t, k)
  {
    PlayFour(s, CallGet(t), Continue(t));
    var r := Step(s, CallGet(t));
    assert r == Does(s, t, GetLook(0));
    PlayThree(r, Continue(t), Continue(t), Continue(t));
  }

  function Freed(s: State, t: int, k: nat): State
    requires k < |s.used|
  {
    s.(used := s.used[k := false], lastRelease := k, doing := s.doing[t := Idle], holds := s.holds[t := Holds(s, t) - {k}])
  }

  /** A thread that finds the page it releases at its first look. */
  lemma ReleasesAtOnce(s: State, t: int, k: nat)
    requires Inv(s) && Doing(s, t).Idle? && k < |s.used| && k in Holds(s, t) && Turn(s.lastRelease, 0, |s.used|) == k
    ensures Play(s, [CallRelease(t, k), Continue(t), Continue(t), Continue(t)]) == Freed(s, t, k)
  {
    PlayFour(s, CallRelease(t, k), Continue(t));
    PlayThree(Step(s, CallRelease(t, k)), Continue(t), Continue(t), Continue(t));
  }

  function LookedTwice(s: State, t: int): State {
    s.(doing := s.doing[t := ReleaseLook(2, [-1, -1])], holds := s.holds[t := Holds(s, t) - {2}])
  }

  /** A thread that looks at the first two of three pages for the last. */
  lemma LooksTwice(s: State, t: int)
    requires Inv(s) && Doing(s, t).Idle? && |s.used| == 3 && 2 in Holds(s, t) && s.lastRelease == -1
    ensures Play(s, [CallRelease(t, 2), Continue(t), Continue(t)]) == LookedTwice(s, t)
  {
    PlayThree(s, CallRelease(t, 2), Continue(t), Continue(t));
    assert Turn(-1, 0, 3) == 0 && Turn(-1, 1, 3) == 1;
    assert [] + [-1] + [-1] == [-1, -1];
  }

  const A := 0
  const B := 1

  /** Three pages: B gets page 0, A gets pages 1 and 2. */
  const GETS := [CallGet(B), Continue(B), Continue(B), Continue(B)]
              + [CallGet(A), Continue(A), Continue(A), Continue(A)]
              + [CallGet(A), Continue(A), Continue(A), Continue(A)]

  lemma ThreePages()
    ensures var s := Run(3, GETS);
      && s.used == [true, true, true] && s.lastRelease == -1 && s.lost == {}
      && Doing(s, A).Idle? && Doing(s, B).Idle? && 2 in Holds(s, A) && 0 in Holds(s, B)
  {
    InitialInv(3);
    var s, b, a := Initial(3), [CallGet(B), Continue(B), Continue(B), Continue(B)], [CallGet(A), Continue(A), Continue(A), Continue(A)];
    PlayConcat(s, b + a, a);
    PlayConcat(s, b, a);
    GetsAtOnce(s, B, 0);
    var s1 := Got(s, B, 0);
    GetsAtOnce(s1, A, 1);
    var s2 := Got(s1, A, 1);
    GetsAtOnce(s2, A, 2);
  }

  /** A looks at 0 and 1 for page 2; B releases page 0; the third look of A leads to 0 again. */
  const MISS := [CallRelease(A, 2), Continue(A), Continue(A)]
              + [CallRelease(B, 0), Continue(B), Continue(B), Continue(B)]
              + [Continue(A)]

  lemma MissLoses(s: State)
    requires Inv(s) && |s.used| == 3 && s.lastRelease == -1 && s.lost == {}
    requires Doing(s, A).Idle? && Doing(s, B).Idle? && 2 in Holds(s, A) && 0 in Holds(s, B)
    ensures Play(s, MISS).lost == {2}
  {
    var a, b := [CallRelease(A, 2), Continue(A), Continue(A)], [CallRelease(B, 0), Continue(B), Continue(B), Continue(B)];
    PlayConcat(s, a + b, [Continue(A)]);
    PlayConcat(s, a, b);
    LooksTwice(s, A);
    var s1 := LookedTwice(s, A);
    ReleasesAtOnce(s1, B, 0);
    var s2 := Freed(s1, B, 0);
    PlayOne(s2, Continue(A), []);
    assert [Continue(A)] + [] == [Continue(A)];
    assert Turn(0, 2, 3) == 0;
  }

  /** A run after which page 2 is in use for ever although nobody has it. */
  lemma ReleaseCanMiss()
    ensures var s := Run(3, GETS + MISS);
      2 in s.lost && 2 < |s.used| && s.used[2] && forall t :: !Has(s, t, 2)
  {
    InitialInv(3);
    PlayConcat(Initial(3), GETS, MISS);
    ThreePages();
    MissLoses(Run(3, GETS));
    assert Owners(Run(3, GETS + MISS));
  }
}
