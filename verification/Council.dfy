/** A councilman-to-be as the source runs it: one object per process, updated in place. */
module Councils {
  import opened Basics
  import opened DecimalText
  import opened CouncilNodes
  import opened CouncilRuns

  /** What creating the own node comes to: the process goes on, or is out. */
  function CreatedSpec(q: Process, created: Option<int>): Process {
    if q.actual >= 0 then q else if created.None? then Reset(q, false) else q.(actual := created.value)
  }

  /** What deciding on the candidates comes to, erasure included. */
  function StandSpec(q: Process, list: Option<seq<int>>, tracked: nat, erased: bool): Process {
    if list.None? then q.(size := -1)
    else
      var d := Decided(q.(phase := Deciding(list.value)), tracked);
      if d.phase.Erasing? then Erased(d, erased) else d
  }

  /** Attend from end to end: create, list, decide. */
  function AttendSpec(q: Process, created: Option<int>, list: Option<seq<int>>, tracked: nat, erased: bool): Process {
    var c := CreatedSpec(q, created);
    if c.actual < 0 then c else StandSpec(c, list, tracked, erased)
  }

  /** Fired, with its node erased if it has one. */
  function FiredSpec(q: Process, recoverable: bool, erased: bool): Process {
    var f := Fired(q, recoverable);
    if f.phase.Erasing? then Erased(f, erased) else f
  }

  /** The number in the full path of a node just created, if it is one. */
  function CreatedId(actual: string, offset: nat): Option<int> {
    if |actual| != offset + 10 || Atoi32(actual[offset..]) < 0 then None else Some(Atoi32(actual[offset..]))
  }

  /** The number in the store's reply, if it made a node. */
  function ReplyId(created: Option<string>, offset: nat): Option<int> {
    if created.Some? then CreatedId(created.value, offset) else None
  }

  /** The node the store makes of the asked-for path is understood. */
  lemma CreatedIsUnderstood(election: string, name: string, i: nat)
    requires i <= INT32_MAX
    ensures CreatedId(election + ("/" + NodeName(name, i)), |election| + 1 + |name| + 1) == Some(i)
  {
    var s, t := election + ("/" + NodeName(name, i)), Padded(i, 10);
    PaddedAre(i, 10);
    TenDigits(i);
    assert s[|election| + 1 + |name| + 1..] == t;
  }

  // ----- the same steps as in the runs -----

  /** The events of one process alone, without a word from the election node. */
  ghost predicate OwnEvents(events: seq<Event>, p: nat) {
    forall k :: 0 <= k < |events| ==> !events[k].Expire? && !events[k].SizeIs? && events[k].p == p
  }

  /** The number the store would give, and the nodes it would list, to a process about to attend. */
  ghost predicate StoreAnswers(w: World, q: Process, created: Option<int>, list: Option<seq<int>>) {
    && (q.actual < 0 && created.Some? ==> created.value == w.next)
    && (list.Some? ==>
          Increasing(list.value) && Elements(list.value) == if q.actual >= 0 then w.live else w.live + {w.next})
  }

  /** Attending from end to end is a run of single steps of the process, whatever is answered in them. */
  lemma AttendIsARun(w: World, p: nat, q: Process, created: Option<int>, list: Option<seq<int>>,
                     tracked: nat, erased: bool, n: nat) returns (events: seq<Event>)
    requires Has(w, p) && q.phase.Idle? && w.procs[p] == q.(phase := Creating) && StoreAnswers(w, q, created, list)
    ensures OwnEvents(events, p)
    ensures Run(w, events, |events|, n).procs == w.procs[p := AttendSpec(q, created, list, tracked, erased)]
    ensures Run(w, events, |events|, n).live ==
      (var own := CreatedSpec(q, created).actual;
       var live := if q.actual < 0 && own >= 0 then w.live + {own} else w.live;
       if list.Some? && own >= 0 && own !in list.value && erased then live - {own} else live)
    ensures var own, w' := CreatedSpec(q, created).actual, Run(w, events, |events|, n);
      list.Some? && own >= 0 && own !in list.value ==> w'.procs[p].actual < 0 && w'.procs[p].id == -2
  {
    if q.actual < 0 && created.None? {
      events := [CreateFails(p)];
      assert Run(w, events, 0, n) == w;
    } else {
      var c := CreatedSpec(q, created);
      var w1 := Step(w, Create(p), n);
      assert w1.procs == w.procs[p := c.(phase := Listing)];
      var own := StandIsARun(w1, p, c, list, tracked, erased, n);
      events := [Create(p)] + own;
      RunFirst(w, Create(p), own, |own|, n);
    }
  }

  lemma StandIsARun(w: World, p: nat, q: Process, list: Option<seq<int>>, tracked: nat, erased: bool, n: nat)
    returns (events: seq<Event>)
    requires Has(w, p) && q.phase.Idle? && w.procs[p] == q.(phase := Listing)
    requires list.Some? ==> Increasing(list.value) && Elements(list.value) == w.live
    ensures OwnEvents(events, p)
    ensures Run(w, events, |events|, n).procs == w.procs[p := StandSpec(q, list, tracked, erased)]
    ensures Run(w, events, |events|, n).live ==
      if list.Some? && q.actual >= 0 && q.actual !in list.value && erased then w.live - {q.actual} else w.live
    ensures list.Some? && q.actual >= 0 && q.actual !in list.value ==>
      StandSpec(q, list, tracked, erased).actual < 0 && StandSpec(q, list, tracked, erased).id == -2
  {
    if list.None? {
      events := [ListFails(p)];
      assert Run(w, events, 0, n) == w;
    } else {
      var q1 := q.(phase := Deciding(list.value));
      var d := Decided(q1, tracked);
      events := [List(p, list.value), Decide(p, tracked)];
      assert Run(w, events, 0, n) == w;
      assert Run(w, events, 1, n) == Put(w, p, q1);
      var w2 := Put(Put(w, p, q1), p, d);
      assert Run(w, events, 2, n) == w2;
      if d.phase.Erasing? {
        events := events + [Erase(p, erased)];
        RunPrefix(w, [List(p, list.value), Decide(p, tracked)], [Erase(p, erased)], 2, n);
        assert Run(w, events, 3, n) == Step(w2, Erase(p, erased), n);
      }
    }
  }

  /** A run that starts with one event that can happen. */
  lemma RunFirst(w: World, e: Event, events: seq<Event>, k: nat, n: nat)
    requires k <= |events| && CouncilRuns.Enabled(w, e)
    ensures Run(w, [e] + events, 1 + k, n) == Run(Step(w, e, n), events, k, n)
  {
    assert Run(w, [e], 0, n) == w;
    RunOn(w, [e], events, k, n);
  }

  /** So is giving the place up, with the erasure of its node. */
  lemma FiredIsARun(w: World, p: nat, recoverable: bool, erased: bool, n: nat) returns (events: seq<Event>)
    requires Has(w, p) && w.procs[p].phase.Idle?
    ensures OwnEvents(events, p)
    ensures Run(w, events, |events|, n).procs == w.procs[p := FiredSpec(w.procs[p], recoverable, erased)]
    ensures var q, w' := w.procs[p], Run(w, events, |events|, n);
      && w'.live == (if q.actual >= 0 && erased then w.live - {q.actual} else w.live)
      && |w'.procs| == |w.procs| && w'.procs[p].actual < 0 && w'.procs[p].id < 0
      && (q.actual >= 0 && !erased ==> w'.procs[p].id == -2)
  {
    var e := if recoverable then NoElection(p) else Trouble(p);
    var own := if w.procs[p].actual >= 0 then [Erase(p, erased)] else [];
    events := [e] + own;
    RunFirst(w, e, own, |own|, n);
    assert Run(Step(w, e, n), own, 0, n) == Step(w, e, n);
  }

  class Council {
    var actualId: int
    var id: int
    var size: int
    var tracks: set<int>
    /** The nodes the store was asked to erase. */
    ghost var erasures: seq<int>

    /** The process between two callbacks. */
    ghost function Local(): Process
      reads this
    {
      Process(actualId, id, size, tracks, Idle)
    }

    constructor ()
      ensures Local() == Newcomer() && erasures == []
    {
      actualId, id, size, tracks, erasures := -1, -1, -1, {}, [];
    }

    method ResetState(recoverable: bool)
      modifies this
      ensures erasures == old(erasures)
      ensures Local() == Reset(old(Local()), recoverable)
    {
      if recoverable {
        id := -1;
      } else {
        id := -2;
        size := -1;
        actualId := -1;
      }
    }

    /** Tells whether the client is to be told. */
    method DoLostClean(recoverable: bool) returns (notify: bool)
      modifies this
      ensures Local() == Reset(old(Local()), recoverable) && erasures == old(erasures)
      ensures notify <==> old(id) >= 0 || !recoverable
    {
      notify := id >= 0 || !recoverable;
      ResetState(recoverable);
    }

    /** `erased` is what the store says to the erasure of the own node. */
    method DoQuitClean(recoverable: bool, erased: bool) returns (notify: bool)
      modifies this
      ensures Local() == FiredSpec(old(Local()), recoverable, erased)
      ensures erasures == old(erasures) + if old(actualId) >= 0 then [old(actualId)] else []
    {
      var still := recoverable;
      if actualId >= 0 {
        erasures := erasures + [actualId];
        if !erased {
          still := false;
        }
        actualId := -1;
      }
      notify := DoLostClean(still);
    }

    /** A lost session: the node is deleted by the store. */
    method OnLost()
      modifies this
      ensures Local() == Reset(old(Local()), true).(actual := -1, size := -1) && erasures == old(erasures)
    {
      var _ := DoLostClean(true);
      actualId := -1;
      size := -1;
    }

    /** `created` is the path the store made, or nothing if it failed. */
    method CreateNodeAsNeeded(created: Option<string>, offset: nat) returns (ok: bool)
      modifies this
      ensures ok <==> old(actualId) >= 0 || (created.Some? && CreatedId(created.value, offset).Some?)
      ensures ok ==> Local() == CreatedSpec(old(Local()), ReplyId(created, offset))
      ensures ok ==> actualId >= 0
      ensures !ok ==> actualId < 0 && tracks == old(tracks) && id == old(id)
    {
      if actualId >= 0 {
        return true;
      }
      if created.None? {
        size := -1;
        return false;
      }
      var actual := created.value;
      if |actual| != offset + 10 {
        return false;
      }
      actualId := Atoi32(actual[offset..]);
      ok := actualId >= 0;
    }

    /** The loop that counts the candidates up to the own number. */
    method CountPosition(list: seq<int>) returns (pos: nat)
      requires Increasing(list)
      ensures pos == Position(list, actualId, |list|)
    {
      pos := 0;
      var p := 0;
      while p < |list| && list[p] <= actualId
        invariant p <= |list| && pos == p == Position(list, actualId, p)
      {
        pos := pos + 1;
        p := p + 1;
      }
      PositionStays(list, actualId, p, |list|);
    }

    /** The loop that tracks the nodes in front, the nearest first, as far as tracking works. */
    method TrackBefore(list: seq<int>, i: nat, tracked: nat) returns (recoverable: bool)
      requires Increasing(list) && i < |list| && list[i] == actualId && size <= i
      modifies `tracks
      ensures var wanted := if size > 0 then size else 0; var k := if tracked < wanted then tracked else wanted;
        tracks == old(tracks) + Before(list, i, k) && (recoverable <==> k == wanted)
    {
      recoverable := true;
      var p, j := i, 0;
      assert Before(list, i, 0) == {};
      while j < size
        invariant 0 <= j && p == i - j && (size > 0 ==> j <= size) && (size <= 0 ==> j == 0) && j <= tracked
        invariant recoverable && tracks == old(tracks) + Before(list, i, j)
      {
        if j >= tracked {
          recoverable := false;
          break;
        }
        BeforeGrows(list, i, j + 1);
        p := p - 1;
        tracks := tracks + {list[p]};
        j := j + 1;
      }
    }

    /** Attend after the candidates are known. */
    method Stand(candidates: map<int, string>, tracked: nat, erased: bool) returns (ghost list: seq<int>)
      requires actualId >= 0
      modifies this
      ensures Increasing(list) && Elements(list) == candidates.Keys
      ensures Local() == StandSpec(old(Local()), Some(list), tracked, erased)
      ensures erasures == old(erasures) + if old(actualId) in list then [] else [old(actualId)]
    {
      var order := InOrder(candidates.Keys);
      list := order;
      assert actualId in candidates <==> actualId in Elements(order);
      if actualId !in candidates {
        var _ := DoQuitClean(false, erased);
        return;
      }
      var pos := CountPosition(order);
      ghost var i: nat :| i < |order| && order[i] == actualId;
      PositionOfElement(order, i, |order|);
      if pos <= size {
        if id >= 0 {
          return;
        }
        id := actualId;
      } else {
        var recoverable := TrackBefore(order, pos - 1, tracked);
        var _ := DoLostClean(recoverable);
      }
    }

    /** Everything set, try to attend: the replies of the store and of the tracker are given. */
    method Attend(created: Option<string>, offset: nat, children: Option<seq<string>>, tracked: nat, erased: bool)
      returns (ghost list: Option<seq<int>>)
      modifies this
      ensures list.Some? ==> children.Some? && Increasing(list.value)
      ensures list.Some? ==> Elements(list.value) == Candidates(children.value, |children.value|).Keys
      ensures list.None? ==> children.None? || actualId < 0
      ensures Local() == AttendSpec(old(Local()), ReplyId(created, offset), list, tracked, erased)
    {
      list := None;
      var ok := CreateNodeAsNeeded(created, offset);
      if !ok {
        var _ := DoQuitClean(false, erased);
        return;
      }
      if children.None? {
        size := -1;
        return;
      }
      var candidates := FindCandidates(children.value);
      ghost var order := Stand(candidates, tracked, erased);
      list := Some(order);
    }

    /** OnData for the election node: its data is the size, if it is there. */
    method OnElectionNode(data: Option<string>, created: Option<string>, offset: nat,
                          children: Option<seq<string>>, tracked: nat, erased: bool)
      returns (ghost list: Option<seq<int>>)
      modifies this
      ensures data.None? ==> Local() == FiredSpec(old(Local()), true, erased)
      ensures data.None? ==> erasures == old(erasures) + if old(actualId) >= 0 then [old(actualId)] else []
      ensures data.Some? && Atoi32(data.value) <= 0 ==> Local() == Reset(old(Local()).(size := -1), true)
      ensures data.Some? && Atoi32(data.value) > 0 ==> Local() == AttendSpec(old(Local()).(size := Atoi32(data.value)),
        ReplyId(created, offset), list, tracked, erased)
    {
      list := None;
      if data.None? {
        var _ := DoQuitClean(true, erased);
        return;
      }
      var newSize := Atoi32(data.value);
      if newSize <= 0 {
        size := -1;
        var _ := DoLostClean(true);
        return;
      }
      size := newSize;
      list := Attend(created, offset, children, tracked, erased);
    }

    /** OnData for a tracked node that is missing; the tracker has dropped it. */
    method OnMissingNode(w: int, created: Option<string>, offset: nat,
                         children: Option<seq<string>>, tracked: nat, erased: bool)
      returns (ghost list: Option<seq<int>>)
      modifies this
      ensures old(id) >= 0 ==> Local() == old(Local()).(tracks := old(tracks) - {w})
      ensures old(id) < 0 ==> Local() == AttendSpec(old(Local()).(tracks := old(tracks) - {w}),
        ReplyId(created, offset), list, tracked, erased)
    {
      list := None;
      tracks := tracks - {w};
      if id >= 0 {
        return;
      }
      list := Attend(created, offset, children, tracked, erased);
    }

    /** OnError: a lost session can be resumed, anything else ends the membership. */
    method OnError(sessionExpired: bool, erased: bool)
      modifies this
      ensures sessionExpired ==> Local() == Reset(old(Local()), true).(actual := -1, size := -1)
      ensures !sessionExpired ==> Local() == FiredSpec(old(Local()), false, erased)
      ensures erasures == old(erasures) + if !sessionExpired && old(actualId) >= 0 then [old(actualId)] else []
    {
      if sessionExpired {
        OnLost();
      } else {
        var _ := DoQuitClean(false, erased);
      }
    }
  }

  lemma {:induction false} PositionStays(list: seq<int>, a: int, p: nat, n: nat)
    requires p <= n <= |list| && Increasing(list) && (p < |list| ==> list[p] > a)
    ensures Position(list, a, n) == Position(list, a, p)
  {
    if p < n {
      PositionStays(list, a, p, n - 1);
    }
  }
}
