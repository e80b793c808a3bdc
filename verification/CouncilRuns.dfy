/** An election for a council of n seats, run by any number of processes. */
module CouncilRuns {
  // The store hands out increasing numbers for the nodes created under the election path and may lose any node at
  // any time. A process does one thing per step: between two steps of one process every other process and the
  // store may move, so a process decides on a list of children that may be out of date.

  import opened Basics

  // ----- one process -----

  /** Where a process is in the middle of what it is doing. */
  datatype Phase = Idle | Creating | Listing | Deciding(list: seq<int>) | Erasing(recoverable: bool)

  /** `actual` is the number of its own node, `id` that of its seat; both are negative for none. */
  datatype Process = Process(actual: int, id: int, size: int, tracks: set<int>, phase: Phase)

  function Newcomer(): Process { Process(-1, -1, -1, {}, Idle) }

  /** ResetState. */
  function Reset(p: Process, recoverable: bool): Process {
    if recoverable then p.(id := -1, phase := Idle) else p.(id := -2, size := -1, actual := -1, phase := Idle)
  }

  /** OnFired, up to the erasure of its node if it has one. */
  function Fired(p: Process, recoverable: bool): Process {
    if p.actual >= 0 then p.(phase := Erasing(recoverable)) else Reset(p, recoverable)
  }

  /** The rest of DoQuitClean: a node that could not be erased makes it unrecoverable. */
  function Erased(p: Process, erased: bool): Process
    requires p.phase.Erasing?
  {
    Reset(p.(actual := -1), p.phase.recoverable && erased)
  }

  /** The numbers in the list up to and including `a`, counted from the front. */
  function Position(list: seq<int>, a: int, n: nat): nat
    requires n <= |list|
  {
    if n == 0 then 0 else Position(list, a, n - 1) + if list[n - 1] <= a then 1 else 0
  }

  /** Stands for a seat: the last part of Attend, of whose nodes to track the first `tracked` could be tracked. */
  function Decided(p: Process, tracked: nat): Process
    requires p.phase.Deciding?
  {
    var list := p.phase.list;
    var pos := Position(list, p.actual, |list|);
    if p.actual !in list then Fired(p, false)
    else if pos <= p.size then p.(id := if p.id >= 0 then p.id else p.actual, phase := Idle)
    else
      var wanted := if p.size > 0 then p.size else 0;
      var k := if tracked < wanted then tracked else wanted;
      Reset(p.(tracks := p.tracks + Before(list, pos - 1, k)), k == wanted)
  }

  /** The `k` numbers before the one at `i`. */
  function Before(list: seq<int>, i: int, k: nat): set<int> {
    set j | i - k <= j < i && 0 <= j < |list| :: list[j]
  }

  // ----- the whole -----

  datatype World = World(live: set<int>, next: nat, procs: seq<Process>)

  datatype Event =
    | SizeIs(p: nat)                   // the election node says n
    | BadSize(p: nat)                  // it says something that is no size
    | NoElection(p: nat)               // it is missing
    | Missing(p: nat, w: int)          // a tracked node is missing
    | Create(p: nat)
    | CreateFails(p: nat)
    | List(p: nat, list: seq<int>)
    | ListFails(p: nat)
    | Decide(p: nat, tracked: nat)
    | Erase(p: nat, erased: bool)
    | Trouble(p: nat)                  // an error other than a lost session
    | Lost(p: nat)                     // the session is lost
    | Quit(p: nat)
    | Expire(w: int)                   // the store loses a node

  predicate Has(w: World, p: nat) { p < |w.procs| }

  ghost predicate Enabled(w: World, e: Event) {
    match e
    case Expire(x) => true
    case SizeIs(p) => Has(w, p) && w.procs[p].phase.Idle?
    case BadSize(p) => Has(w, p) && w.procs[p].phase.Idle?
    case NoElection(p) => Has(w, p) && w.procs[p].phase.Idle?
    case Missing(p, x) => Has(w, p) && w.procs[p].phase.Idle? && x in w.procs[p].tracks && x !in w.live
    case Create(p) => Has(w, p) && w.procs[p].phase.Creating?
    case CreateFails(p) => Has(w, p) && w.procs[p].phase.Creating? && w.procs[p].actual < 0
    case List(p, list) => Has(w, p) && w.procs[p].phase.Listing? && Increasing(list) && Elements(list) == w.live
    case ListFails(p) => Has(w, p) && w.procs[p].phase.Listing?
    case Decide(p, tracked) => Has(w, p) && w.procs[p].phase.Deciding?
    case Erase(p, erased) => Has(w, p) && w.procs[p].phase.Erasing?
    case Trouble(p) => Has(w, p) && w.procs[p].phase.Idle?
    case Lost(p) => Has(w, p) && w.procs[p].phase.Idle?
    case Quit(p) => Has(w, p) && w.procs[p].phase.Idle?
  }

  function Put(w: World, p: nat, q: Process): World
    requires Has(w, p)
  {
    w.(procs := w.procs[p := q])
  }

  function Step(w: World, e: Event, n: nat): World
    requires Enabled(w, e)
  {
    if e.Expire? then w.(live := w.live - {e.w})
    else
      var q := w.procs[e.p];
      match e
      case SizeIs(p) => Put(w, p, q.(size := n, phase := Creating))
      case BadSize(p) => Put(w, p, Reset(q.(size := -1), true))
      case NoElection(p) => Put(w, p, Fired(q, true))
      case Missing(p, x) =>
        Put(w, p, q.(tracks := q.tracks - {x}, phase := if q.id >= 0 then Idle else Creating))
      case Create(p) =>
        if q.actual >= 0 then Put(w, p, q.(phase := Listing))
        else World(w.live + {w.next}, w.next + 1, w.procs[p := q.(actual := w.next, phase := Listing)])
      case CreateFails(p) => Put(w, p, Reset(q, false))
      case List(p, list) => Put(w, p, q.(phase := Deciding(list)))
      case ListFails(p) => Put(w, p, q.(size := -1, phase := Idle))
      case Decide(p, tracked) => Put(w, p, Decided(q, tracked))
      case Erase(p, erased) =>
        World(if erased && q.actual >= 0 then w.live - {q.actual} else w.live, w.next, w.procs[p := Erased(q, erased)])
      case Trouble(p) => Put(w, p, Fired(q, false))
      case Lost(p) => Put(w, p, Reset(q, true).(actual := -1, size := -1))
      case Quit(p) => Put(w, p, Fired(q.(tracks := {}), true))
  }

  // ----- counting -----

  /** The elements up to and including `a`. */
  ghost function UpTo(s: set<int>, a: int): set<int> { set x | x in s && x <= a }

  ghost function Rank(s: set<int>, a: int): nat { |UpTo(s, a)| }

  /** The elements below `a`. */
  ghost function Under(s: set<int>, a: int): set<int> { set x | x in s && x < a }

  lemma RankFalls(s: set<int>, t: set<int>, a: int)
    requires forall x :: x in t && x <= a ==> x in s
    ensures Rank(t, a) <= Rank(s, a)
  {
    SubsetSmaller(UpTo(t, a), UpTo(s, a));
  }

  /** In an increasing list the position is the rank. */
  lemma {:induction false} PositionIsRank(list: seq<int>, a: int, n: nat)
    requires n <= |list| && Increasing(list)
    ensures Position(list, a, n) == Rank(Elements(list[..n]), a)
  {
    if n > 0 {
      PositionIsRank(list, a, n - 1);
      var s, x := Elements(list[..n - 1]), list[n - 1];
      assert list[..n] == list[..n - 1] + [x];
      assert Elements(list[..n]) == s + {x};
      assert x !in s;
      RankAdds(s, x, a);
    }
  }

  lemma RankAdds(s: set<int>, x: int, a: int)
    requires x !in s
    ensures Rank(s + {x}, a) == Rank(s, a) + if x <= a then 1 else 0
  {
    if x <= a {
      assert UpTo(s + {x}, a) == UpTo(s, a) + {x};
    } else {
      assert UpTo(s + {x}, a) == UpTo(s, a);
    }
  }

  /** In an increasing list the position of an element is its place, counted from one. */
  lemma {:induction false} PositionOfElement(list: seq<int>, i: nat, n: nat)
    requires i < |list| && n <= |list| && Increasing(list)
    ensures Position(list, list[i], n) == if n <= i then n else i + 1
  {
    if n > 0 {
      PositionOfElement(list, i, n - 1);
    }
  }

  lemma BeforeGrows(list: seq<int>, i: nat, k: nat)
    requires i < |list| && 0 < k <= i
    ensures Before(list, i, k) == Before(list, i, k - 1) + {list[i - k]}
  {
  }

  lemma {:induction false} BeforeCounts(list: seq<int>, i: nat, k: nat)
    requires i < |list| && k <= i && Increasing(list)
    ensures |Before(list, i, k)| == k
  {
    if k == 0 {
      assert Before(list, i, 0) == {};
    } else {
      BeforeCounts(list, i, k - 1);
      BeforeGrows(list, i, k);
      assert list[i - k] !in Before(list, i, k - 1);
    }
  }

  /** The numbers before a place are as many as were asked for, below it, and the nearest ones. */
  lemma BeforeIsNearest(list: seq<int>, i: nat, k: nat)
    requires i < |list| && k <= i && Increasing(list)
    ensures |Before(list, i, k)| == k
    ensures forall x :: x in Before(list, i, k) ==> x in list && x < list[i]
    ensures forall x, y :: x in Before(list, i, k) && y in list && y < list[i] && y !in Before(list, i, k) ==> y < x
  {
    BeforeCounts(list, i, k);
    forall x, y | x in Before(list, i, k) && y in list && y < list[i] && y !in Before(list, i, k) ensures y < x {
      var m: nat :| m < |list| && list[m] == y;
      assert m < i - k;
    }
  }

  // ----- what every run keeps -----

  /** A process on its own: the size it believes in is n or none. */
  ghost predicate Sane(q: Process, next: nat, n: nat) {
    && (q.size == n || q.size == -1)
    && q.actual < next
    && (q.id >= 0 ==> q.id == q.actual)
    && (q.phase.Listing? || q.phase.Deciding? ==> q.actual >= 0)
  }

  /** A seated process is among the first n that live. */
  ghost predicate Seated(q: Process, live: set<int>, n: nat) { q.id >= 0 ==> Rank(live, q.id) <= n }

  /** A list, however old, holds every living node up to its owner's own. */
  ghost predicate Remembers(q: Process, live: set<int>) {
    q.phase.Deciding? ==>
      Increasing(q.phase.list) && forall x :: x in live && x <= q.actual ==> x in q.phase.list
  }

  /** A process that waits its turn tracks n lower nodes. */
  ghost predicate Waits(q: Process, n: nat) {
    q.phase.Idle? && q.id < 0 && q.actual >= 0 && q.size == n ==> |Under(q.tracks, q.actual)| >= n
  }

  ghost predicate Good(q: Process, w: World, n: nat) {
    Sane(q, w.next, n) && Seated(q, w.live, n) && Remembers(q, w.live) && Waits(q, n)
  }

  ghost predicate Distinct(procs: seq<Process>) {
    forall p, q :: 0 <= p < q < |procs| && procs[p].actual >= 0 ==> procs[p].actual != procs[q].actual
  }

  ghost predicate Inv(w: World, n: nat) {
    && (forall x :: x in w.live ==> 0 <= x < w.next)
    && Distinct(w.procs)
    && forall p :: 0 <= p < |w.procs| ==> Good(w.procs[p], w, n)
  }

  /** What becomes of a process that gives up its place. */
  lemma ResetIsGood(q: Process, w: World, recoverable: bool, n: nat)
    requires Sane(q, w.next, n)
    requires q.actual >= 0 && q.size == n && recoverable ==> |Under(q.tracks, q.actual)| >= n
    ensures Good(Reset(q, recoverable), w, n)
  {
  }

  lemma FiredIsGood(q: Process, w: World, recoverable: bool, n: nat)
    requires Sane(q, w.next, n) && Seated(q, w.live, n)
    ensures Good(Fired(q, recoverable), w, n)
  {
  }

  /** Deciding on an old list seats nobody beyond the first n, and tracks n nodes otherwise. */
  lemma DecidedIsGood(q: Process, w: World, tracked: nat, n: nat)
    requires n > 0 && Good(q, w, n) && q.phase.Deciding?
    ensures Good(Decided(q, tracked), w, n)
  {
    var list := q.phase.list;
    if q.actual !in list {
      FiredIsGood(q, w, false, n);
    } else {
      var i: nat :| i < |list| && list[i] == q.actual;
      PositionOfElement(list, i, |list|);
      if i + 1 <= q.size {
        SeatIsSafe(q, w, n);
      } else {
        TrackingIsEnough(q, w, i, tracked, n);
      }
    }
  }

  lemma SeatIsSafe(q: Process, w: World, n: nat)
    requires Good(q, w, n) && q.phase.Deciding? && Position(q.phase.list, q.actual, |q.phase.list|) <= n
    ensures Rank(w.live, q.actual) <= n
  {
    var list := q.phase.list;
    PositionIsRank(list, q.actual, |list|);
    assert list[..|list|] == list;
    RankFalls(Elements(list), w.live, q.actual);
  }

  lemma TrackingIsEnough(q: Process, w: World, i: nat, tracked: nat, n: nat)
    requires n > 0 && Good(q, w, n) && q.phase.Deciding?
    requires i < |q.phase.list| && q.phase.list[i] == q.actual && i + 1 > q.size
    ensures var wanted := if q.size > 0 then q.size else 0;
      var k := if tracked < wanted then tracked else wanted;
      Good(Reset(q.(tracks := q.tracks + Before(q.phase.list, i, k)), k == wanted), w, n)
  {
    var wanted := if q.size > 0 then q.size else 0;
    var k := if tracked < wanted then tracked else wanted;
    var q' := q.(tracks := q.tracks + Before(q.phase.list, i, k));
    BeforeIsNearest(q.phase.list, i, k);
    SubsetSmaller(Before(q.phase.list, i, k), Under(q'.tracks, q.actual));
    ResetIsGood(q', w, k == wanted, n);
  }

  /** Losing nodes only improves everybody's place. */
  lemma LossIsGood(q: Process, w: World, w': World, n: nat)
    requires Good(q, w, n) && w'.live <= w.live && w'.next == w.next
    ensures Good(q, w', n)
  {
    RankFalls(w.live, w'.live, q.id);
  }

  /** A new node stands behind everybody. */
  lemma NewNodeIsGood(q: Process, w: World, w': World, n: nat)
    requires Good(q, w, n) && w'.live == w.live + {w.next} && w'.next == w.next + 1
    ensures Good(q, w', n)
  {
    RankFalls(w.live, w'.live, q.id);
  }

  /** Putting a good process in its own place keeps the rest. */
  lemma PutKeeps(w: World, p: nat, q: Process, n: nat)
    requires Inv(w, n) && Has(w, p) && Good(q, w, n) && (q.actual == w.procs[p].actual || q.actual < 0)
    ensures Inv(Put(w, p, q), n)
  {
    var w' := Put(w, p, q);
    forall i | 0 <= i < |w'.procs| ensures Good(w'.procs[i], w', n) {
      assert Good(w.procs[i], w, n);
    }
  }

  lemma ExpireKeeps(w: World, live: set<int>, n: nat)
    requires Inv(w, n) && live <= w.live
    ensures Inv(w.(live := live), n)
  {
    var w' := w.(live := live);
    forall i | 0 <= i < |w'.procs| ensures Good(w'.procs[i], w', n) {
      LossIsGood(w.procs[i], w, w', n);
    }
  }

  lemma CreateKeeps(w: World, p: nat, n: nat)
    requires Inv(w, n) && Enabled(w, Create(p))
    ensures Inv(Step(w, Create(p), n), n)
  {
    var q, w' := w.procs[p], Step(w, Create(p), n);
    assert Good(q, w, n);
    if q.actual >= 0 {
      PutKeeps(w, p, q.(phase := Listing), n);
    } else {
      forall i | 0 <= i < |w'.procs| ensures Good(w'.procs[i], w', n) {
        assert Good(w.procs[i], w, n);
        NewNodeIsGood(w.procs[i], w, w', n);
      }
    }
  }

  lemma EraseKeeps(w: World, p: nat, erased: bool, n: nat)
    requires Inv(w, n) && Enabled(w, Erase(p, erased))
    ensures Inv(Step(w, Erase(p, erased), n), n)
  {
    var q := w.procs[p];
    var live := if erased && q.actual >= 0 then w.live - {q.actual} else w.live;
    assert Good(q, w, n);
    ExpireKeeps(w, live, n);
    PutKeeps(w.(live := live), p, Erased(q, erased), n);
  }

  lemma StepKeeps(w: World, e: Event, n: nat)
    requires n > 0 && Inv(w, n) && Enabled(w, e)
    ensures Inv(Step(w, e, n), n)
  {
    if e.Expire? {
      ExpireKeeps(w, w.live - {e.w}, n);
    } else if e.Create? {
      CreateKeeps(w, e.p, n);
    } else if e.Erase? {
      EraseKeeps(w, e.p, e.erased, n);
    } else {
      OwnStepKeeps(w, e, n);
    }
  }

  /** Steps that change nothing but the process. */
  lemma OwnStepKeeps(w: World, e: Event, n: nat)
    requires n > 0 && Inv(w, n) && Enabled(w, e) && !e.Expire? && !e.Create? && !e.Erase?
    ensures Inv(Step(w, e, n), n)
  {
    var q := w.procs[e.p];
    assert Good(q, w, n);
    match e
    case SizeIs(p) => PutKeeps(w, p, q.(size := n, phase := Creating), n);
    case BadSize(p) => PutKeeps(w, p, Reset(q.(size := -1), true), n);
    case NoElection(p) =>
      FiredIsGood(q, w, true, n);
      PutKeeps(w, p, Fired(q, true), n);
    case Missing(p, x) =>
      PutKeeps(w, p, q.(tracks := q.tracks - {x}, phase := if q.id >= 0 then Idle else Creating), n);
    case CreateFails(p) => PutKeeps(w, p, Reset(q, false), n);
    case List(p, list) => PutKeeps(w, p, q.(phase := Deciding(list)), n);
    case ListFails(p) => PutKeeps(w, p, q.(size := -1, phase := Idle), n);
    case Decide(p, tracked) =>
      DecidedIsGood(q, w, tracked, n);
      PutKeeps(w, p, Decided(q, tracked), n);
    case Trouble(p) =>
      FiredIsGood(q, w, false, n);
      PutKeeps(w, p, Fired(q, false), n);
    case Lost(p) => PutKeeps(w, p, Reset(q, true).(actual := -1, size := -1), n);
    case Quit(p) =>
      FiredIsGood(q.(tracks := {}), w, true, n);
      PutKeeps(w, p, Fired(q.(tracks := {}), true), n);
  }

  // ----- whole runs -----

  /** Nobody has done anything yet. */
  ghost predicate Initial(w: World) {
    w.live == {} && w.next == 0 && forall p :: 0 <= p < |w.procs| ==> w.procs[p] == Newcomer()
  }

  /** The world after the first `k` events, if each was possible in its turn. */
  ghost function Run(w: World, events: seq<Event>, k: nat, n: nat): World
    requires k <= |events|
  {
    if k == 0 then w
    else
      var w' := Run(w, events, k - 1, n);
      if Enabled(w', events[k - 1]) then Step(w', events[k - 1], n) else w'
  }

  lemma {:induction false} RunKeeps(w: World, events: seq<Event>, k: nat, n: nat)
    requires n > 0 && Inv(w, n) && k <= |events|
    ensures Inv(Run(w, events, k, n), n)
  {
    if k > 0 {
      var w' := Run(w, events, k - 1, n);
      RunKeeps(w, events, k - 1, n);
      if Enabled(w', events[k - 1]) {
        StepKeeps(w', events[k - 1], n);
      }
    }
  }

  /** Among the first `k` processes, those with a seat whose node lives. */
  predicate HoldsSeat(w: World, p: nat)
    requires Has(w, p)
  {
    w.procs[p].id >= 0 && w.procs[p].id in w.live
  }

  function Seats(w: World, k: nat): nat
    requires k <= |w.procs|
  {
    if k == 0 then 0 else Seats(w, k - 1) + if HoldsSeat(w, k - 1) then 1 else 0
  }

  /** The numbers of those seats. */
  function SeatIds(w: World, k: nat): set<int>
    requires k <= |w.procs|
  {
    if k == 0 then {} else SeatIds(w, k - 1) + if HoldsSeat(w, k - 1) then {w.procs[k - 1].id} else {}
  }

  /** Each of those numbers is held by somebody. */
  lemma {:induction false} SeatHolder(w: World, k: nat, x: int) returns (p: nat)
    requires k <= |w.procs| && x in SeatIds(w, k)
    ensures p < k && HoldsSeat(w, p) && w.procs[p].id == x
  {
    if x in SeatIds(w, k - 1) {
      p := SeatHolder(w, k - 1, x);
    } else {
      p := k - 1;
    }
  }

  /** No two seats have the same number. */
  lemma SeatIsNew(w: World, k: nat, n: nat)
    requires k < |w.procs| && Inv(w, n) && HoldsSeat(w, k)
    ensures w.procs[k].id !in SeatIds(w, k)
  {
    assert Good(w.procs[k], w, n);
    forall x | x in SeatIds(w, k) ensures x != w.procs[k].id {
      var p := SeatHolder(w, k, x);
      assert Good(w.procs[p], w, n);
    }
  }

  lemma OneMore(s: set<int>, x: int)
    requires x !in s
    ensures |s + {x}| == |s| + 1
  {
  }

  ghost predicate AllNew(w: World) {
    forall i :: 0 <= i < |w.procs| && HoldsSeat(w, i) ==> w.procs[i].id !in SeatIds(w, i)
  }

  lemma {:induction false} SeatsAreIds(w: World, k: nat)
    requires k <= |w.procs| && AllNew(w)
    ensures |SeatIds(w, k)| == Seats(w, k)
  {
    if k > 0 {
      SeatsAreIds(w, k - 1);
      if HoldsSeat(w, k - 1) {
        OneMore(SeatIds(w, k - 1), w.procs[k - 1].id);
      }
    }
  }

  /** In no reachable state do more than n processes hold a seat while their node lives. */
  lemma ElectionSafety(w: World, events: seq<Event>, n: nat)
    requires n > 0 && Initial(w)
    ensures var w' := Run(w, events, |events|, n); Seats(w', |w'.procs|) <= n
  {
    RunKeeps(w, events, |events|, n);
    AtMostN(Run(w, events, |events|, n), n);
  }

  lemma AtMostN(w: World, n: nat)
    requires Inv(w, n)
    ensures Seats(w, |w.procs|) <= n
  {
    var ids := SeatIds(w, |w.procs|);
    forall i | 0 <= i < |w.procs| && HoldsSeat(w, i) ensures w.procs[i].id !in SeatIds(w, i) {
      SeatIsNew(w, i, n);
    }
    SeatsAreIds(w, |w.procs|);
    if |ids| > 0 {
      var m := Greatest(ids);
      var p := SeatHolder(w, |w.procs|, m);
      assert Good(w.procs[p], w, n);
      forall x | x in ids ensures x in UpTo(w.live, m) {
        var i := SeatHolder(w, |w.procs|, x);
      }
      SubsetSmaller(ids, UpTo(w.live, m));
    }
  }

  // ----- nobody is forgotten -----

  /** A waiting process whose turn has come tracks a node that is gone: it is about to hear of it and to stand again. */
  lemma NoMissedElection(w: World, events: seq<Event>, n: nat, p: nat)
    requires n > 0 && Initial(w)
    ensures var w' := Run(w, events, |events|, n);
      Has(w', p) && Waiting(w', p, n) && Rank(w'.live, w'.procs[p].actual) <= n ==>
        exists x :: Enabled(w', Missing(p, x)) && Step(w', Missing(p, x), n).procs[p].phase == Creating
  {
    var w' := Run(w, events, |events|, n);
    RunKeeps(w, events, |events|, n);
    if Has(w', p) && Waiting(w', p, n) && Rank(w'.live, w'.procs[p].actual) <= n {
      var x := GoneTrack(w', p, n);
      assert Enabled(w', Missing(p, x));
    }
  }

  /** It waits its turn with a living node, and knows the size. */
  predicate Waiting(w: World, p: nat, n: nat)
    requires Has(w, p)
  {
    var q := w.procs[p];
    q.phase.Idle? && q.id < 0 && q.actual in w.live && q.size == n
  }

  lemma GoneTrack(w: World, p: nat, n: nat) returns (x: int)
    requires Inv(w, n) && Has(w, p) && Waiting(w, p, n) && Rank(w.live, w.procs[p].actual) <= n
    ensures x in w.procs[p].tracks && x !in w.live && x < w.procs[p].actual
  {
    var q := w.procs[p];
    assert Good(q, w, n);
    var lower := Under(q.tracks, q.actual);
    TooManyLower(lower, w.live, q.actual, n);
    x :| x in lower && x !in w.live;
  }

  lemma TooManyLower(lower: set<int>, live: set<int>, a: int, n: nat)
    requires |lower| >= n && a in live && Rank(live, a) <= n && forall x :: x in lower ==> x < a
    ensures exists x :: x in lower && x !in live
  {
    if forall x :: x in lower ==> x in live {
      SubsetSmaller(lower + {a}, UpTo(live, a));
    }
  }

  /** Standing again, with a list in which it is among the first n, it takes its seat. */
  lemma StandingIsElected(q: Process, n: nat, tracked: nat)
    requires q.phase.Deciding? && Increasing(q.phase.list)
    requires q.actual in q.phase.list && q.actual >= 0 && q.size == n > 0
    ensures Decided(q, tracked).id >= 0 <==> Rank(Elements(q.phase.list), q.actual) <= n
  {
    var list := q.phase.list;
    PositionIsRank(list, q.actual, |list|);
    assert list[..|list|] == list;
  }

  // ----- exactly who can still be seated -----

  /** Idle without a seat, its node lives and is among the first n: its turn has come. */
  ghost predicate InTurn(w: World, p: nat, n: nat)
    requires Has(w, p)
  {
    var q := w.procs[p];
    q.phase.Idle? && q.id < 0 && q.actual in w.live && Rank(w.live, q.actual) <= n
  }

  /** These events seat it, and in none of them does the election node tell it the size. */
  ghost predicate SeatsWithoutWord(w: World, events: seq<Event>, n: nat, p: nat) {
    var w' := Run(w, events, |events|, n);
    SizeIs(p) !in events && Has(w', p) && w'.procs[p].id >= 0
  }

  ghost predicate CanBeSeated(w: World, n: nat, p: nat) {
    exists events: seq<Event> :: SeatsWithoutWord(w, events, n, p)
  }

  /** A size that was lost stays lost, whatever happens, until the election node tells it again; so does the seat. */
  lemma {:induction false} SizeStaysLost(w: World, events: seq<Event>, k: nat, n: nat, p: nat)
    requires k <= |events| && Has(w, p) && w.procs[p].size == -1 && w.procs[p].id < 0 && SizeIs(p) !in events
    ensures var w' := Run(w, events, k, n); Has(w', p) && w'.procs[p].size == -1 && w'.procs[p].id < 0
  {
    if k > 0 {
      var w' := Run(w, events, k - 1, n);
      SizeStaysLost(w, events, k - 1, n, p);
      assert events[k - 1] != SizeIs(p);
      if Enabled(w', events[k - 1]) {
        StepWithoutSize(w', events[k - 1], n, p);
      }
    }
  }

  lemma StepWithoutSize(w: World, e: Event, n: nat, p: nat)
    requires Enabled(w, e) && Has(w, p) && w.procs[p].size == -1 && w.procs[p].id < 0 && e != SizeIs(p)
    ensures var w' := Step(w, e, n); Has(w', p) && w'.procs[p].size == -1 && w'.procs[p].id < 0
  {
  }

  /** A process whose turn has come and that knows the size takes its seat in four steps of its own. */
  lemma TurnIsTaken(w: World, n: nat, p: nat) returns (events: seq<Event>)
    requires n > 0 && Inv(w, n) && Has(w, p) && InTurn(w, p, n) && w.procs[p].size == n
    ensures |events| == 4 && forall k :: 0 <= k < 4 ==> !events[k].Expire? && !events[k].SizeIs? && events[k].p == p
    ensures var w' := Run(w, events, 4, n);
      && w'.live == w.live && Has(w', p) && w'.procs[p].id == w.procs[p].actual >= 0
  {
    var q := w.procs[p];
    var x := GoneTrack(w, p, n);
    var list := InAList(w.live);
    events := [Missing(p, x), Create(p), List(p, list), Decide(p, 0)];
    var q1 := q.(tracks := q.tracks - {x}, phase := Creating);
    assert Run(w, events, 0, n) == w;
    assert Run(w, events, 1, n) == Put(w, p, q1);
    assert Run(w, events, 2, n) == Put(w, p, q1.(phase := Listing));
    var q3 := q1.(phase := Deciding(list));
    assert Run(w, events, 3, n) == Put(w, p, q3);
    assert q.actual in Elements(list);
    StandingIsElected(q3, n, 0);
    assert Run(w, events, 4, n) == Put(w, p, Decided(q3, 0));
  }

  /** Whose turn has come can be seated without a new word from the election node exactly when it knows the size. */
  lemma SeatedExactlyIfSizeKnown(w: World, events: seq<Event>, n: nat, p: nat)
    requires n > 0 && Initial(w)
    ensures var w' := Run(w, events, |events|, n);
      Has(w', p) && InTurn(w', p, n) ==> (CanBeSeated(w', n, p) <==> w'.procs[p].size == n)
  {
    var w' := Run(w, events, |events|, n);
    RunKeeps(w, events, |events|, n);
    if Has(w', p) && InTurn(w', p, n) {
      SeatedIffSizeKnown(w', n, p);
    }
  }

  lemma SeatedIffSizeKnown(w: World, n: nat, p: nat)
    requires n > 0 && Inv(w, n) && Has(w, p) && InTurn(w, p, n)
    ensures CanBeSeated(w, n, p) <==> w.procs[p].size == n
  {
    assert Good(w.procs[p], w, n);
    if w.procs[p].size == n {
      var events := TurnIsTaken(w, n, p);
      assert SeatsWithoutWord(w, events, n, p);
    } else {
      NeverWithoutWord(w, n, p);
    }
  }

  lemma NeverWithoutWord(w: World, n: nat, p: nat)
    requires Has(w, p) && w.procs[p].size == -1 && w.procs[p].id < 0
    ensures !CanBeSeated(w, n, p)
  {
    forall events: seq<Event> ensures !SeatsWithoutWord(w, events, n, p) {
      if SizeIs(p) !in events {
        SizeStaysLost(w, events, |events|, n, p);
      }
    }
  }

  // ----- what becomes of a node -----

  /** Someone's own node. */
  ghost predicate Owned(w: World, x: int) { exists p :: 0 <= p < |w.procs| && w.procs[p].actual == x }

  /** It stands behind the seats and cannot track as many nodes as it has to. */
  ghost predicate TrackingFails(q: Process, tracked: nat)
    requires q.phase.Deciding?
  {
    q.actual in q.phase.list && tracked < q.size < Rank(Elements(q.phase.list), q.actual)
  }

  /** What makes a process forget a node it leaves behind: an erasure that fails, a lost session, failing to track. */
  ghost predicate Abandons(w: World, e: Event) {
    match e
    case Erase(p, erased) => !erased
    case Lost(p) => true
    case Decide(p, tracked) => Has(w, p) && w.procs[p].phase.Deciding? && TrackingFails(w.procs[p], tracked)
    case _ => false
  }

  /** A living node is left behind by its process exactly by such an event; every other step keeps it or erases it. */
  lemma LeftBehindExactly(w: World, e: Event, n: nat, p: nat)
    requires n > 0 && Inv(w, n) && Enabled(w, e) && Has(w, p) && w.procs[p].actual in w.live
    ensures var x, w' := w.procs[p].actual, Step(w, e, n);
      x in w'.live && w'.procs[p].actual != x <==> Abandons(w, e) && e.p == p
  {
    assert Good(w.procs[p], w, n);
    if e.Decide? && e.p == p {
      var q := w.procs[p];
      PositionIsRank(q.phase.list, q.actual, |q.phase.list|);
      assert q.phase.list[..|q.phase.list|] == q.phase.list;
      SomewhereCounted(q.phase.list, q.actual);
    }
  }

  lemma SomewhereCounted(list: seq<int>, a: int)
    requires a in list
    ensures Rank(Elements(list), a) > 0
  {
    assert a in UpTo(Elements(list), a);
  }

  /** What happens to the node of a process that quits, is told there is no election, or meets trouble. */
  ghost predicate GivesUp(w: World, e: Event) {
    match e
    case NoElection(p) => true
    case Trouble(p) => true
    case Quit(p) => true
    case Decide(p, tracked) =>
      Has(w, p) && w.procs[p].phase.Deciding? && w.procs[p].actual !in w.procs[p].phase.list
    case _ => false
  }

  /** It does nothing next but ask the store to erase its node. */
  lemma GivingUpErases(w: World, e: Event, n: nat)
    requires Enabled(w, e) && GivesUp(w, e) && w.procs[e.p].actual >= 0
    ensures var w' := Step(w, e, n);
      && w'.live == w.live && Has(w', e.p) && w'.procs[e.p].actual == w.procs[e.p].actual
      && forall own: Event :: Enabled(w', own) && !own.Expire? && own.p == e.p ==> own.Erase?
    ensures forall erased :: Enabled(Step(w, e, n), Erase(e.p, erased))
  {
  }

  /** The node is gone if that succeeds, and nothing else is; if it fails the process is out for good. */
  lemma ErasureFreesTheNode(w: World, p: nat, erased: bool, n: nat)
    requires Enabled(w, Erase(p, erased)) && w.procs[p].actual >= 0
    ensures var q, w' := w.procs[p], Step(w, Erase(p, erased), n);
      && Has(w', p) && |w'.procs| == |w.procs|
      && w'.procs[p].actual < 0 && w'.procs[p].id < 0 && w'.procs[p].phase.Idle?
      && w'.live == (if erased then w.live - {q.actual} else w.live)
      && (!erased ==> w'.procs[p].id == -2)
      && forall i :: 0 <= i < |w.procs| && i != p ==> w'.procs[i] == w.procs[i]
  {
  }

  /** Out for good: without seat, node and size, and never to stand again. */
  ghost predicate Out(q: Process) { q.id == -2 && q.actual < 0 && q.size == -1 && q.phase.Idle? }

  /** Without a seat and a node, but ready to stand again. */
  ghost predicate Ready(q: Process) { q.id == -1 && q.actual < 0 && q.phase.Idle? }

  /**
   * After giving up, with the erasure if it had a node, a process is ready to stand again exactly if it quit
   * or there was no election, and the erasure did not fail; otherwise it is out for good.
   * Only quitting ends what it tracks.
   */
  lemma GivingUpEnds(w: World, e: Event, erased: bool, n: nat)
    requires Enabled(w, e) && GivesUp(w, e)
    ensures var q, w1 := w.procs[e.p], Step(w, e, n);
      && (q.actual >= 0 ==> Enabled(w1, Erase(e.p, erased)))
      && var q' := if q.actual >= 0 then Step(w1, Erase(e.p, erased), n).procs[e.p] else w1.procs[e.p];
      && q'.tracks == (if e.Quit? then {} else q.tracks)
      && if (e.Quit? || e.NoElection?) && (q.actual < 0 || erased) then Ready(q') && q'.size == q.size else Out(q')
  {
  }

  /** A lost session leaves a process ready, with the size to be told again; a bad size leaves it its node. */
  lemma LossEnds(w: World, p: nat, n: nat)
    ensures Enabled(w, Lost(p)) ==> var q := Step(w, Lost(p), n).procs[p];
      Ready(q) && q.size == -1 && q.tracks == w.procs[p].tracks
    ensures Enabled(w, BadSize(p)) ==> var q := Step(w, BadSize(p), n).procs[p];
      q == w.procs[p].(id := -1, size := -1)
    ensures Enabled(w, CreateFails(p)) ==> Out(Step(w, CreateFails(p), n).procs[p])
  {
  }

  /** Whoever has a seat only notes that a tracked node is gone; whoever has none stands again. */
  lemma MissingEnds(w: World, p: nat, x: int, n: nat)
    requires Enabled(w, Missing(p, x))
    ensures var q, q' := w.procs[p], Step(w, Missing(p, x), n).procs[p];
      && q'.tracks == q.tracks - {x} && q'.id == q.id && q'.actual == q.actual && q'.size == q.size
      && (q'.phase.Idle? <==> q.id >= 0) && (q'.phase.Creating? <==> q.id < 0)
  {
  }

  /** A decision on a list with the own node in it takes the seat, or waits its turn, or cannot track and is out. */
  lemma DecisionEnds(w: World, p: nat, tracked: nat, n: nat)
    requires n > 0 && Inv(w, n) && Enabled(w, Decide(p, tracked)) && w.procs[p].actual in w.procs[p].phase.list
    ensures var q, q' := w.procs[p], Step(w, Decide(p, tracked), n).procs[p];
      && q'.phase.Idle?
      && (Rank(Elements(q.phase.list), q.actual) <= q.size ==> q' == q.(id := q.actual, phase := Idle))
      && (Rank(Elements(q.phase.list), q.actual) > q.size ==>
            if TrackingFails(q, tracked) then Out(q') else q'.id == -1 && q'.actual == q.actual && q'.size == q.size)
  {
    var q := w.procs[p];
    assert Good(q, w, n);
    PositionIsRank(q.phase.list, q.actual, |q.phase.list|);
    assert q.phase.list[..|q.phase.list|] == q.phase.list;
  }

  /** None of the first `k` events makes a process leave its node behind. */
  ghost predicate NothingAbandoned(w: World, events: seq<Event>, k: nat, n: nat)
    requires k <= |events|
  {
    forall i :: 0 <= i < k ==> !Abandons(Run(w, events, i, n), events[i])
  }

  /** Unless some process abandons a node, every living node belongs to a process, in every run. */
  lemma {:induction false} NoOrphans(w: World, events: seq<Event>, k: nat, n: nat, x: int)
    requires n > 0 && Initial(w) && k <= |events| && NothingAbandoned(w, events, k, n)
    ensures x in Run(w, events, k, n).live ==> Owned(Run(w, events, k, n), x)
  {
    if k > 0 {
      var w' := Run(w, events, k - 1, n);
      NoOrphans(w, events, k - 1, n, x);
      RunKeeps(w, events, k - 1, n);
      if Enabled(w', events[k - 1]) {
        StillOwned(w', events[k - 1], n, x);
      }
    }
  }

  lemma StillOwned(w: World, e: Event, n: nat, x: int)
    requires n > 0 && Inv(w, n) && Enabled(w, e) && !Abandons(w, e) && (x in w.live ==> Owned(w, x))
    ensures x in Step(w, e, n).live ==> Owned(Step(w, e, n), x)
  {
    var w' := Step(w, e, n);
    if x in w.live {
      var p :| 0 <= p < |w.procs| && w.procs[p].actual == x;
      LeftBehindExactly(w, e, n, p);
      SameProcesses(w, e, n);
    } else if x in w'.live {
      CreatorOwns(w, e, n, x);
    }
  }

  lemma SameProcesses(w: World, e: Event, n: nat)
    requires Enabled(w, e)
    ensures |Step(w, e, n).procs| == |w.procs|
  {
  }

  lemma CreatorOwns(w: World, e: Event, n: nat, x: int)
    requires Enabled(w, e) && x !in w.live && x in Step(w, e, n).live
    ensures Owned(Step(w, e, n), x)
  {
    assert e.Create? && Step(w, e, n).procs[e.p].actual == x;
  }

  // ----- where the source falls short -----

  /** Two processes and a council of one. */
  function TwoProcesses(): World { World({}, 0, [Newcomer(), Newcomer()]) }

  /** Its list could not be read: its turn has come, and no continuation seats it unless the election node changes. */
  lemma UnreadListStrands()
    ensures var w := Run(TwoProcesses(), [SizeIs(0), Create(0), ListFails(0)], 3, 1);
      && w.procs[0] == Process(0, -1, -1, {}, Idle)
      && InTurn(w, 0, 1) && !CanBeSeated(w, 1, 0)
  {
    var w, events := TwoProcesses(), [SizeIs(0), Create(0), ListFails(0)];
    assert Run(w, events, 0, 1) == w;
    var w1 := World({}, 0, [Newcomer().(size := 1, phase := Creating), Newcomer()]);
    assert Run(w, events, 1, 1) == w1;
    var w2 := World({0}, 1, [Process(0, -1, 1, {}, Listing), Newcomer()]);
    assert Run(w, events, 2, 1) == w2;
    var w3 := World({0}, 1, [Process(0, -1, -1, {}, Idle), Newcomer()]);
    assert Run(w, events, 3, 1) == w3;
    assert UpTo({0}, 0) == {0};
    NeverWithoutWord(w3, 1, 0);
  }

  /** The walk over the predecessors needs one in front of the own node. */
  ghost predicate WalkCanStart(q: Process)
    requires q.phase.Deciding?
  {
    var pos := Position(q.phase.list, q.actual, |q.phase.list|);
    q.actual in q.phase.list && pos > q.size ==> q.phase.list[0] != q.actual
  }

  /** It has one unless the process stands first and has lost the size; knowing it, it never walks past the front. */
  lemma WalkStartsUnlessSizeLost(q: Process, next: nat, n: nat)
    requires n > 0 && Sane(q, next, n) && q.phase.Deciding? && Increasing(q.phase.list) && q.actual in q.phase.list
    ensures !WalkCanStart(q) <==> q.size == -1 && q.phase.list[0] == q.actual
    ensures q.size == n && Position(q.phase.list, q.actual, |q.phase.list|) > n ==>
      exists i :: n <= i < |q.phase.list| && q.phase.list[i] == q.actual
  {
    var list := q.phase.list;
    var i: nat :| i < |list| && list[i] == q.actual;
    PositionOfElement(list, i, |list|);
  }

  /** And that does happen. */
  lemma WalkCanFail() returns (events: seq<Event>)
    ensures WalkFails(Run(TwoProcesses(), events, |events|, 1))
  {
    var w := TwoProcesses();
    var first, second := Process(0, -1, 1, {}, Listing), Process(1, -1, 1, {}, Listing);
    var w4 := World({0, 1}, 2, [first, second]);
    var w8 := World({0, 1}, 2, [first, second.(tracks := {0})]);
    var w12 := World({1}, 2, [first, second.(size := -1)]);
    var w13 := World({1}, 2, [first, second.(size := -1, phase := Deciding([1]))]);
    var start := [SizeIs(0), Create(0), SizeIs(1), Create(1)];
    var track := [List(1, [0, 1]), Decide(1, 1), SizeIs(1), Create(1)];
    var lose := [ListFails(1), Expire(0), Missing(1, 0), Create(1)];
    BothCreated(start, w4);
    SecondTracks(w4, track, w8);
    SecondLosesSize(w8, lose, w12);
    SecondLists(w12, w13);
    FourRuns(w, start, track, lose, [List(1, [1])], w4, w8, w12, w13);
    events := start + track + (lose + [List(1, [1])]);
  }

  lemma FourRuns(w: World, a: seq<Event>, b: seq<Event>, c: seq<Event>, d: seq<Event>,
                 wa: World, wb: World, wc: World, wd: World)
    requires Run(w, a, |a|, 1) == wa && Run(wa, b, |b|, 1) == wb && Run(wb, c, |c|, 1) == wc && Run(wc, d, |d|, 1) == wd
    ensures Run(w, a + b + (c + d), |a + b + (c + d)|, 1) == wd
  {
    RunTwice(w, a, b, wa, wb);
    RunTwice(wb, c, d, wc, wd);
    RunTwice(w, a + b, c + d, wb, wd);
  }

  ghost predicate WalkFails(w: World) {
    && Has(w, 1) && w.procs[1].phase.Deciding?
    && w.procs[1].actual in w.procs[1].phase.list && !WalkCanStart(w.procs[1])
  }

  lemma SecondLists(w: World, w': World)
    requires w == World({1}, 2, [Process(0, -1, 1, {}, Listing), Process(1, -1, -1, {}, Listing)])
    requires w' == World({1}, 2, [Process(0, -1, 1, {}, Listing), Process(1, -1, -1, {}, Deciding([1]))])
    ensures Run(w, [List(1, [1])], 1, 1) == w' && WalkFails(w')
  {
    assert Run(w, [List(1, [1])], 0, 1) == w;
    assert Elements([1]) == {1};
    PositionOfElement([1], 0, 1);
  }

  lemma RunTwice(w: World, a: seq<Event>, b: seq<Event>, wa: World, wb: World)
    requires Run(w, a, |a|, 1) == wa && Run(wa, b, |b|, 1) == wb
    ensures Run(w, a + b, |a + b|, 1) == wb
  {
    RunOn(w, a, b, |b|, 1);
  }

  /** A run goes on from where it is. */
  lemma {:induction false} RunOn(w: World, a: seq<Event>, b: seq<Event>, k: nat, n: nat)
    requires k <= |b|
    ensures Run(w, a + b, |a| + k, n) == Run(Run(w, a, |a|, n), b, k, n)
  {
    if k > 0 {
      RunOn(w, a, b, k - 1, n);
    } else {
      RunPrefix(w, a, b, |a|, n);
    }
  }

  lemma {:induction false} RunPrefix(w: World, a: seq<Event>, b: seq<Event>, k: nat, n: nat)
    requires k <= |a|
    ensures Run(w, a + b, k, n) == Run(w, a, k, n)
  {
    if k > 0 {
      RunPrefix(w, a, b, k - 1, n);
    }
  }

  lemma BothCreated(events: seq<Event>, w': World)
    requires events == [SizeIs(0), Create(0), SizeIs(1), Create(1)]
    requires w' == World({0, 1}, 2, [Process(0, -1, 1, {}, Listing), Process(1, -1, 1, {}, Listing)])
    ensures Run(TwoProcesses(), events, 4, 1) == w'
  {
    var w := TwoProcesses();
    var p := Process(0, -1, 1, {}, Listing);
    assert Run(w, events, 0, 1) == w;
    assert Run(w, events, 1, 1) == World({}, 0, [Newcomer().(size := 1, phase := Creating), Newcomer()]);
    assert Run(w, events, 2, 1) == World({0}, 1, [p, Newcomer()]);
    assert Run(w, events, 3, 1) == World({0}, 1, [p, Newcomer().(size := 1, phase := Creating)]);
    assert {0} + {1} == {0, 1};
  }

  lemma SecondTracks(w: World, events: seq<Event>, w': World)
    requires w == World({0, 1}, 2, [Process(0, -1, 1, {}, Listing), Process(1, -1, 1, {}, Listing)])
    requires events == [List(1, [0, 1]), Decide(1, 1), SizeIs(1), Create(1)]
    requires w' == World({0, 1}, 2, [w.procs[0], Process(1, -1, 1, {0}, Listing)])
    ensures Run(w, events, 4, 1) == w'
  {
    var p := w.procs[0];
    assert Run(w, events, 0, 1) == w;
    assert Elements([0, 1]) == {0, 1};
    var q := Process(1, -1, 1, {}, Deciding([0, 1]));
    assert Run(w, events, 1, 1) == w.(procs := [p, q]);
    PositionOfElement([0, 1], 1, 2);
    assert [0, 1][1] in [0, 1];
    assert Before([0, 1], 1, 1) == {0};
    assert Decided(q, 1) == Process(1, -1, 1, {0}, Idle);
    assert Run(w, events, 2, 1) == w.(procs := [p, Process(1, -1, 1, {0}, Idle)]);
    assert Run(w, events, 3, 1) == w.(procs := [p, Process(1, -1, 1, {0}, Creating)]);
  }

  lemma SecondLosesSize(w: World, events: seq<Event>, w': World)
    requires w == World({0, 1}, 2, [Process(0, -1, 1, {}, Listing), Process(1, -1, 1, {0}, Listing)])
    requires events == [ListFails(1), Expire(0), Missing(1, 0), Create(1)]
    requires w' == World({1}, 2, [w.procs[0], Process(1, -1, -1, {}, Listing)])
    ensures Run(w, events, 4, 1) == w'
  {
    var p := w.procs[0];
    assert Run(w, events, 0, 1) == w;
    assert Run(w, events, 1, 1) == w.(procs := [p, Process(1, -1, -1, {0}, Idle)]);
    assert {0, 1} - {0} == {1};
    assert Run(w, events, 2, 1) == World({1}, 2, [p, Process(1, -1, -1, {0}, Idle)]);
    assert {0} - {0} == {};
    assert Run(w, events, 3, 1) == World({1}, 2, [p, Process(1, -1, -1, {}, Creating)]);
  }
}
