/** References to connections, across the three layers of the asynchronous router. */
module RouterRuns {
  // The layers are the map that counts them, the pool of pending calls that holds them, and the threads that carry
  // them from one to the other. A ticket is handed out with every reference taken and ends when that reference is
  // given back. Each step is one section under one lock, so any number of threads may be in the middle of a call.

  import opened Basics

  // ----- the object map -----

  datatype Entry = Entry(obj: nat, count: int)

  datatype Dropped = Dropped(key: int, count: int)

  /** Objects in use by key, those no longer in the map but referred to, the cursor, and what has been destroyed. */
  datatype Objects = Objects(
    entries: map<int, Entry>, drop: map<nat, Dropped>, ptr: Option<int>, next: nat, destroyed: seq<nat>)

  /** DoErase: a key leaves the map; its object is destroyed now or when the last reference ends. */
  function EraseSpec(m: Objects, key: int): Objects {
    if key !in m.entries then m
    else
      var e := m.entries[key];
      var m' := m.(entries := m.entries - {key}, ptr := None);
      if e.count == 0 then m'.(destroyed := m.destroyed + [e.obj])
      else m'.(drop := m.drop[e.obj := Dropped(key, e.count)])
  }

  /** Release: one reference less, and the last one to a dropped object destroys it. */
  function ReleaseSpec(m: Objects, key: int, obj: nat): Objects {
    if key in m.entries && m.entries[key].obj == obj then
      m.(entries := m.entries[key := Entry(obj, m.entries[key].count - 1)])
    else if obj in m.drop && m.drop[obj].key == key then
      var left := m.drop[obj].count - 1;
      if left == 0 then m.(drop := m.drop - {obj}, destroyed := m.destroyed + [obj])
      else m.(drop := m.drop[obj := Dropped(key, left)])
    else m
  }

  /** DoAdd: another reference to the object of a key, or a new object unless it cannot be created. */
  function AddSpec(m: Objects, key: int, init: nat, created: bool): Objects {
    if key in m.entries then m.(entries := m.entries[key := m.entries[key].(count := m.entries[key].count + 1)])
    else if !created then m
    else m.(entries := m.entries[key := Entry(m.next, init)], ptr := None, next := m.next + 1)
  }

  /** GetNext moves the cursor to `k` and takes a reference. */
  function NextSpec(m: Objects, k: int): Objects
    requires k in m.entries
  {
    m.(entries := m.entries[k := m.entries[k].(count := m.entries[k].count + 1)], ptr := Some(k))
  }

  /** Going up from the cursor and around, `k` is met no later than `j`. */
  predicate NoLater(ptr: Option<int>, k: int, j: int) {
    if ptr.None? then k <= j
    else if k > ptr.value then j <= ptr.value || k <= j
    else j <= ptr.value && k <= j
  }

  /** The first key going up from the cursor and around. */
  ghost predicate Follows(keys: set<int>, ptr: Option<int>, k: int) {
    k in keys && forall j :: j in keys ==> NoLater(ptr, k, j)
  }

  ghost predicate IsNext(m: Objects, k: int) { Follows(m.entries.Keys, m.ptr, k) }

  // ----- the router -----

  datatype Purpose = Inserting | PuttingBack | TimingOut | Adding

  datatype Place = InPool(seqNo: int, deadline: int) | InHand(purpose: Purpose)

  datatype Ref = Ref(key: int, obj: nat, place: Place)

  datatype Manner = ByPut | ByTimeout | ByAdd

  datatype Ending = Ending(ticket: nat, manner: Manner)

  datatype Router = Router(objects: Objects, pool: map<int, nat>, refs: map<nat, Ref>, tickets: nat, ended: seq<Ending>)

  datatype Event =
    | Take(k: int)                                     // Get: a reference to the next object
    | Insert(t: nat, seqNo: int, deadline: int)        // Get: the call is pending
    | TakeBack(seqNo: int)                             // Put: the call is no longer pending
    | Expire(seqNo: int)                               // Check or Shutdown: the same, by timeout
    | Release(t: nat)                                  // Put, OnTimeout, Add: the reference is given back
    | AddHost(key: int, created: bool)                 // Add: a reference to an old or a new object
    | AddIdle(key: int, created: bool)                 // SetAll: a new object nobody refers to
    | Erase(key: int)                                  // Del, SetAll, Shutdown

  ghost predicate Enabled(r: Router, e: Event) {
    match e
    case Take(k) => IsNext(r.objects, k)
    case Insert(t, s, d) => t in r.refs && r.refs[t].place == InHand(Inserting)
    case TakeBack(s) => s in r.pool
    case Expire(s) => s in r.pool
    case Release(t) => t in r.refs && r.refs[t].place.InHand? && r.refs[t].place.purpose != Inserting
    case AddHost(key, created) => key in r.objects.entries || created
    case AddIdle(key, created) => key !in r.objects.entries
    case Erase(key) => true
  }

  /** A pending call leaves the pool for the hands of whoever ends it. */
  function Leave(r: Router, s: int, purpose: Purpose): Router
    requires s in r.pool && r.pool[s] in r.refs
  {
    var t := r.pool[s];
    r.(pool := r.pool - {s}, refs := r.refs[t := r.refs[t].(place := InHand(purpose))])
  }

  /** Inserting under a number that is still pending ends the old call by timeout. */
  function InsertSpec(r: Router, t: nat, s: int, deadline: int): Router
    requires t in r.refs
  {
    var r' := if s in r.pool && r.pool[s] in r.refs then Leave(r, s, TimingOut) else r;
    r'.(pool := r'.pool[s := t], refs := r'.refs[t := r.refs[t].(place := InPool(s, deadline))])
  }

  function TakeSpec(r: Router, k: int): Router
    requires k in r.objects.entries
  {
    r.(objects := NextSpec(r.objects, k), tickets := r.tickets + 1,
       refs := r.refs[r.tickets := Ref(k, r.objects.entries[k].obj, InHand(Inserting))])
  }

  function AddHostSpec(r: Router, key: int, created: bool): Router
    requires key in r.objects.entries || created
  {
    var m := AddSpec(r.objects, key, 1, created);
    r.(objects := m, tickets := r.tickets + 1,
       refs := r.refs[r.tickets := Ref(key, m.entries[key].obj, InHand(Adding))])
  }

  function MannerOf(p: Purpose): Manner {
    match p
    case PuttingBack => ByPut
    case Adding => ByAdd
    case _ => ByTimeout
  }

  function GiveBack(r: Router, t: nat): Router
    requires t in r.refs && r.refs[t].place.InHand?
  {
    r.(objects := ReleaseSpec(r.objects, r.refs[t].key, r.refs[t].obj), refs := r.refs - {t},
       ended := r.ended + [Ending(t, MannerOf(r.refs[t].place.purpose))])
  }

  ghost function Step(r: Router, e: Event): Router
    requires Enabled(r, e)
  {
    match e
    case Take(k) => TakeSpec(r, k)
    case Insert(t, s, d) => InsertSpec(r, t, s, d)
    case TakeBack(s) => if r.pool[s] in r.refs then Leave(r, s, PuttingBack) else r
    case Expire(s) => if r.pool[s] in r.refs then Leave(r, s, TimingOut) else r
    case Release(t) => GiveBack(r, t)
    case AddHost(key, created) => AddHostSpec(r, key, created)
    case AddIdle(key, created) => r.(objects := AddSpec(r.objects, key, 0, created))
    case Erase(key) => r.(objects := EraseSpec(r.objects, key))
  }

  // ----- what is kept -----

  /** The outstanding references to an object. */
  ghost function Holders(refs: map<nat, Ref>, obj: nat): set<nat> { set t | t in refs && refs[t].obj == obj }

  /** The map knows the object under that key, in use or dropped. */
  ghost predicate Known(m: Objects, key: int, obj: nat) {
    (key in m.entries && m.entries[key].obj == obj) || (obj in m.drop && m.drop[obj].key == key)
  }

  /** No object is in two places, and a destroyed one is nowhere. */
  ghost predicate Apart(m: Objects) {
    && (forall k :: k in m.entries ==>
          m.entries[k].obj < m.next && m.entries[k].obj !in m.drop && m.entries[k].obj !in m.destroyed)
    && (forall j, k :: j in m.entries && k in m.entries && j != k ==> m.entries[j].obj != m.entries[k].obj)
    && (forall o :: o in m.drop ==> o < m.next && o !in m.destroyed)
    && (forall o :: o in m.destroyed ==> o < m.next)
    && (forall i, j :: 0 <= i < j < |m.destroyed| ==> m.destroyed[i] != m.destroyed[j])
  }

  ghost predicate InUse(m: Objects, o: nat) { exists k :: k in m.entries && m.entries[k].obj == o }

  /** No object is lost: each is in use, dropped or destroyed. */
  ghost predicate Complete(m: Objects) {
    forall o: nat :: o < m.next ==> o in m.destroyed || o in m.drop || InUse(m, o)
  }

  /** Every count is the number of outstanding references; a dropped object has at least one. */
  ghost predicate Counted(m: Objects, refs: map<nat, Ref>) {
    && (forall k :: k in m.entries ==> m.entries[k].count == |Holders(refs, m.entries[k].obj)|)
    && (forall o :: o in m.drop ==> m.drop[o].count == |Holders(refs, o)| > 0)
    && forall t :: t in refs ==> Known(m, refs[t].key, refs[t].obj)
  }

  /** The pool holds the pending references, each under its own number. */
  ghost predicate Pooled(r: Router) {
    && (forall s :: s in r.pool ==>
          r.pool[s] in r.refs && r.refs[r.pool[s]].place.InPool? && r.refs[r.pool[s]].place.seqNo == s)
    && forall t :: t in r.refs && r.refs[t].place.InPool? ==>
         r.refs[t].place.seqNo in r.pool && r.pool[r.refs[t].place.seqNo] == t
  }

  /** Every ticket given out is outstanding or has ended, once. */
  ghost predicate Ticketed(r: Router) {
    && (forall t :: t in r.refs ==> t < r.tickets)
    && (forall i :: 0 <= i < |r.ended| ==> r.ended[i].ticket < r.tickets && r.ended[i].ticket !in r.refs)
    && (forall i, j :: 0 <= i < j < |r.ended| ==> r.ended[i].ticket != r.ended[j].ticket)
    && forall t: nat :: t < r.tickets ==> t in r.refs || exists i :: 0 <= i < |r.ended| && r.ended[i].ticket == t
  }

  ghost predicate Inv(r: Router) {
    Apart(r.objects) && Complete(r.objects) && Counted(r.objects, r.refs) && Pooled(r) && Ticketed(r)
  }

  // ----- one section -----

  lemma AddComplete(m: Objects, key: int, init: nat, created: bool)
    requires Complete(m)
    ensures Complete(AddSpec(m, key, init, created))
  {
    var m' := AddSpec(m, key, init, created);
    forall o: nat | o < m'.next ensures o in m'.destroyed || o in m'.drop || InUse(m', o) {
      if o == m.next {
        assert key in m'.entries && m'.entries[key].obj == o;
      } else if InUse(m, o) {
        var k :| k in m.entries && m.entries[k].obj == o;
        assert k in m'.entries && m'.entries[k].obj == o;
      }
    }
  }

  lemma NextComplete(m: Objects, k: int)
    requires Complete(m) && k in m.entries
    ensures Complete(NextSpec(m, k))
  {
    AddComplete(m, k, 0, false);
    var m', m0 := NextSpec(m, k), AddSpec(m, k, 0, false);
    forall o: nat | InUse(m0, o) ensures InUse(m', o) {
    }
  }

  lemma EraseComplete(m: Objects, key: int)
    requires Complete(m)
    ensures Complete(EraseSpec(m, key))
  {
    var m' := EraseSpec(m, key);
    forall o: nat | o < m'.next ensures o in m'.destroyed || o in m'.drop || InUse(m', o) {
      if InUse(m, o) {
        var k :| k in m.entries && m.entries[k].obj == o;
        assert k != key ==> k in m'.entries && m'.entries[k].obj == o;
      }
    }
  }

  lemma ReleaseComplete(m: Objects, key: int, obj: nat)
    requires Complete(m)
    ensures Complete(ReleaseSpec(m, key, obj))
  {
    var m' := ReleaseSpec(m, key, obj);
    forall o: nat | o < m'.next ensures o in m'.destroyed || o in m'.drop || InUse(m', o) {
      if InUse(m, o) {
        var k :| k in m.entries && m.entries[k].obj == o;
        assert k in m'.entries && m'.entries[k].obj == o;
      }
    }
  }

  lemma HoldersOfNew(refs: map<nat, Ref>, t: nat, ref: Ref, o: nat)
    requires t !in refs
    ensures Holders(refs[t := ref], o) == if ref.obj == o then Holders(refs, o) + {t} else Holders(refs, o)
    ensures |Holders(refs[t := ref], o)| == |Holders(refs, o)| + if ref.obj == o then 1 else 0
  {
    assert Holders(refs[t := ref], o) == if ref.obj == o then Holders(refs, o) + {t} else Holders(refs, o);
  }

  lemma HoldersOfMoved(refs: map<nat, Ref>, t: nat, place: Place, o: nat)
    requires t in refs
    ensures Holders(refs[t := refs[t].(place := place)], o) == Holders(refs, o)
  {
  }

  lemma HoldersOfOld(refs: map<nat, Ref>, t: nat, o: nat)
    requires t in refs
    ensures |Holders(refs - {t}, o)| == |Holders(refs, o)| - if refs[t].obj == o then 1 else 0
  {
    if refs[t].obj == o {
      assert Holders(refs, o) == Holders(refs - {t}, o) + {t};
    } else {
      assert Holders(refs, o) == Holders(refs - {t}, o);
    }
  }

  /** A new ticket, in somebody's hand. */
  lemma NewTicket(r: Router, ref: Ref, m: Objects)
    requires Pooled(r) && Ticketed(r) && ref.place.InHand?
    ensures var r' := r.(objects := m, tickets := r.tickets + 1, refs := r.refs[r.tickets := ref]);
      Pooled(r') && Ticketed(r')
  {
  }

  /** One more reference to an object in use. */
  lemma OneMore(m: Objects, refs: map<nat, Ref>, k: int, t: nat, ref: Ref, ptr: Option<int>)
    requires Apart(m) && Counted(m, refs) && t !in refs && k in m.entries && ref.key == k && ref.obj == m.entries[k].obj
    ensures var m' := m.(entries := m.entries[k := m.entries[k].(count := m.entries[k].count + 1)], ptr := ptr);
      Apart(m') && Counted(m', refs[t := ref])
  {
    forall o: nat ensures |Holders(refs[t := ref], o)| == |Holders(refs, o)| + if ref.obj == o then 1 else 0 {
      HoldersOfNew(refs, t, ref, o);
    }
  }

  /** A new object, with as many references as there are new tickets to it. */
  lemma NewObject(m: Objects, refs: map<nat, Ref>, key: int)
    requires Apart(m) && Counted(m, refs) && key !in m.entries
    ensures var m' := AddSpec(m, key, 0, true); Apart(m') && Counted(m', refs)
  {
    assert Holders(refs, m.next) == {};
  }

  lemma TakeKeeps(r: Router, k: int)
    requires Inv(r) && k in r.objects.entries
    ensures Inv(TakeSpec(r, k))
  {
    var ref := Ref(k, r.objects.entries[k].obj, InHand(Inserting));
    NextComplete(r.objects, k);
    OneMore(r.objects, r.refs, k, r.tickets, ref, Some(k));
    NewTicket(r, ref, NextSpec(r.objects, k));
  }

  lemma AddHostKeeps(r: Router, key: int, created: bool)
    requires Inv(r) && (key in r.objects.entries || created)
    ensures Inv(AddHostSpec(r, key, created))
  {
    var m := AddSpec(r.objects, key, 1, created);
    AddComplete(r.objects, key, 1, created);
    HostCounted(r.objects, r.refs, key, created, r.tickets);
    NewTicket(r, Ref(key, m.entries[key].obj, InHand(Adding)), m);
  }

  lemma HostCounted(m: Objects, refs: map<nat, Ref>, key: int, created: bool, t: nat)
    requires Apart(m) && Counted(m, refs) && t !in refs && (key in m.entries || created)
    ensures var m' := AddSpec(m, key, 1, created);
      Apart(m') && Counted(m', refs[t := Ref(key, m'.entries[key].obj, InHand(Adding))])
  {
    if key in m.entries {
      OneMore(m, refs, key, t, Ref(key, m.entries[key].obj, InHand(Adding)), m.ptr);
    } else {
      NewHost(m, refs, key, t);
    }
  }

  lemma NewHost(m: Objects, refs: map<nat, Ref>, key: int, t: nat)
    requires Apart(m) && Counted(m, refs) && key !in m.entries && t !in refs
    ensures Apart(AddSpec(m, key, 1, true))
    ensures Counted(AddSpec(m, key, 1, true), refs[t := Ref(key, m.next, InHand(Adding))])
  {
    var m0 := AddSpec(m, key, 0, true);
    NewObject(m, refs, key);
    OneMore(m0, refs, key, t, Ref(key, m.next, InHand(Adding)), None);
    assert m0.entries[key := Entry(m.next, 1)] == m.entries[key := Entry(m.next, 1)];
  }

  lemma NoHolders(refs: map<nat, Ref>, o: nat)
    requires |Holders(refs, o)| == 0
    ensures forall t :: t in refs ==> refs[t].obj != o
  {
    assert Holders(refs, o) == {};
    forall t | t in refs ensures refs[t].obj != o {
      assert t in Holders(refs, o) <==> refs[t].obj == o;
    }
  }

  lemma EraseCounts(m: Objects, refs: map<nat, Ref>, key: int)
    requires Apart(m) && Counted(m, refs) && key in m.entries
    ensures Counted(EraseSpec(m, key), refs)
  {
    if m.entries[key].count == 0 {
      NoHolders(refs, m.entries[key].obj);
    }
  }

  lemma EraseApart(m: Objects, refs: map<nat, Ref>, key: int)
    requires Apart(m) && key in m.entries
    ensures Apart(EraseSpec(m, key))
  {
  }

  lemma MoveCounts(m: Objects, refs: map<nat, Ref>, t: nat, place: Place)
    requires Counted(m, refs) && t in refs
    ensures Counted(m, refs[t := refs[t].(place := place)])
  {
    forall o: nat ensures Holders(refs[t := refs[t].(place := place)], o) == Holders(refs, o) {
      HoldersOfMoved(refs, t, place, o);
    }
  }

  lemma LeaveKeeps(r: Router, s: int, purpose: Purpose)
    requires Inv(r) && s in r.pool
    ensures Inv(Leave(r, s, purpose))
  {
    MoveCounts(r.objects, r.refs, r.pool[s], InHand(purpose));
  }

  lemma InsertKeeps(r: Router, t: nat, s: int, deadline: int)
    requires Inv(r) && t in r.refs && r.refs[t].place == InHand(Inserting)
    ensures Inv(InsertSpec(r, t, s, deadline))
  {
    if s in r.pool {
      LeaveKeeps(r, s, TimingOut);
      InsertFree(Leave(r, s, TimingOut), t, s, deadline);
    } else {
      InsertFree(r, t, s, deadline);
    }
  }

  lemma InsertFree(r: Router, t: nat, s: int, deadline: int)
    requires Inv(r) && t in r.refs && r.refs[t].place.InHand? && s !in r.pool
    ensures Inv(r.(pool := r.pool[s := t], refs := r.refs[t := r.refs[t].(place := InPool(s, deadline))]))
  {
    MoveCounts(r.objects, r.refs, t, InPool(s, deadline));
  }

  lemma OneLess(refs: map<nat, Ref>, t: nat)
    requires t in refs
    ensures forall o: nat :: |Holders(refs - {t}, o)| == |Holders(refs, o)| - if refs[t].obj == o then 1 else 0
  {
    forall o: nat ensures |Holders(refs - {t}, o)| == |Holders(refs, o)| - if refs[t].obj == o then 1 else 0 {
      HoldersOfOld(refs, t, o);
    }
  }

  lemma ReleaseInUse(m: Objects, refs: map<nat, Ref>, t: nat)
    requires Apart(m) && Counted(m, refs) && t in refs
    requires refs[t].key in m.entries && m.entries[refs[t].key].obj == refs[t].obj
    ensures Counted(ReleaseSpec(m, refs[t].key, refs[t].obj), refs - {t})
  {
    OneLess(refs, t);
  }

  lemma ReleaseDropped(m: Objects, refs: map<nat, Ref>, t: nat)
    requires Apart(m) && Counted(m, refs) && t in refs
    requires !(refs[t].key in m.entries && m.entries[refs[t].key].obj == refs[t].obj)
    ensures Counted(ReleaseSpec(m, refs[t].key, refs[t].obj), refs - {t})
  {
    var obj := refs[t].obj;
    assert Known(m, refs[t].key, obj);
    OneLess(refs, t);
    if m.drop[obj].count == 1 {
      NoHolders(refs - {t}, obj);
    }
  }

  /** Giving back a reference that was counted leaves the rest counted. */
  lemma ReleaseCounts(m: Objects, refs: map<nat, Ref>, t: nat)
    requires Apart(m) && Counted(m, refs) && t in refs
    ensures Counted(ReleaseSpec(m, refs[t].key, refs[t].obj), refs - {t})
  {
    if refs[t].key in m.entries && m.entries[refs[t].key].obj == refs[t].obj {
      ReleaseInUse(m, refs, t);
    } else {
      ReleaseDropped(m, refs, t);
    }
  }

  lemma ReleaseApart(m: Objects, key: int, obj: nat)
    requires Apart(m)
    ensures Apart(ReleaseSpec(m, key, obj))
  {
  }

  lemma TicketEnds(r: Router, t: nat, m: Objects, manner: Manner)
    requires Pooled(r) && Ticketed(r) && t in r.refs && r.refs[t].place.InHand?
    ensures var r' := r.(objects := m, refs := r.refs - {t}, ended := r.ended + [Ending(t, manner)]);
      Pooled(r') && Ticketed(r')
  {
    var r' := r.(objects := m, refs := r.refs - {t}, ended := r.ended + [Ending(t, manner)]);
    forall u: nat | u < r'.tickets && u !in r'.refs ensures exists i :: 0 <= i < |r'.ended| && r'.ended[i].ticket == u {
      if u == t {
        assert r'.ended[|r.ended|].ticket == u;
      } else {
        var i :| 0 <= i < |r.ended| && r.ended[i].ticket == u;
        assert r'.ended[i].ticket == u;
      }
    }
  }

  lemma GiveBackKeeps(r: Router, t: nat)
    requires Inv(r) && t in r.refs && r.refs[t].place.InHand?
    ensures Inv(GiveBack(r, t))
  {
    var ref := r.refs[t];
    ReleaseCounts(r.objects, r.refs, t);
    ReleaseApart(r.objects, ref.key, ref.obj);
    ReleaseComplete(r.objects, ref.key, ref.obj);
    TicketEnds(r, t, ReleaseSpec(r.objects, ref.key, ref.obj), MannerOf(ref.place.purpose));
  }

  lemma EraseKeeps(r: Router, key: int)
    requires Inv(r)
    ensures Inv(r.(objects := EraseSpec(r.objects, key)))
  {
    if key in r.objects.entries {
      EraseComplete(r.objects, key);
      EraseCounts(r.objects, r.refs, key);
      EraseApart(r.objects, r.refs, key);
    }
  }

  lemma StepKeeps(r: Router, e: Event)
    requires Inv(r) && Enabled(r, e)
    ensures Inv(Step(r, e))
  {
    match e
    case Take(k) => TakeKeeps(r, k);
    case Insert(t, s, d) => InsertKeeps(r, t, s, d);
    case TakeBack(s) => LeaveKeeps(r, s, PuttingBack);
    case Expire(s) => LeaveKeeps(r, s, TimingOut);
    case Release(t) => GiveBackKeeps(r, t);
    case AddHost(key, created) => AddHostKeeps(r, key, created);
    case AddIdle(key, created) =>
      AddComplete(r.objects, key, 0, created);
      if created {
        NewObject(r.objects, r.refs, key);
      }
    case Erase(key) => EraseKeeps(r, key);
  }

  // ----- whole runs -----

  function NewRouter(): Router { Router(Objects(map[], map[], None, 0, []), map[], map[], 0, []) }

  ghost function Run(events: seq<Event>, n: nat): Router
    requires n <= |events|
  {
    if n == 0 then NewRouter()
    else
      var r := Run(events, n - 1);
      if Enabled(r, events[n - 1]) then Step(r, events[n - 1]) else r
  }

  lemma {:induction false} RunKeeps(events: seq<Event>, n: nat)
    requires n <= |events|
    ensures Inv(Run(events, n))
  {
    if n > 0 {
      var r := Run(events, n - 1);
      RunKeeps(events, n - 1);
      if Enabled(r, events[n - 1]) {
        StepKeeps(r, events[n - 1]);
      }
    }
  }

  /**
   * In every run each count, of objects in use and of dropped ones, is the number of
   * references outstanding, and no reference is to a destroyed object.
   */
  lemma ReferencesAreConserved(events: seq<Event>)
    ensures var r := Run(events, |events|);
      && (forall k :: k in r.objects.entries ==>
            r.objects.entries[k].count == |Holders(r.refs, r.objects.entries[k].obj)|)
      && (forall o :: o in r.objects.drop ==> r.objects.drop[o].count == |Holders(r.refs, o)| > 0)
      && (forall t :: t in r.refs ==> r.refs[t].obj !in r.objects.destroyed)
      && (forall i, j :: 0 <= i < j < |r.objects.destroyed| ==> r.objects.destroyed[i] != r.objects.destroyed[j])
      && forall o: nat :: o < r.objects.next ==> o in r.objects.destroyed || o in r.objects.drop || InUse(r.objects, o)
  {
    RunKeeps(events, |events|);
    var r := Run(events, |events|);
    forall t | t in r.refs ensures r.refs[t].obj !in r.objects.destroyed {
      assert Known(r.objects, r.refs[t].key, r.refs[t].obj);
    }
  }

  /** With nobody in the middle of a call, each count is the number of pending calls to that object. */
  lemma CountsArePendingCalls(events: seq<Event>, k: int)
    requires var r := Run(events, |events|);
      k in r.objects.entries && forall t :: t in r.refs ==> r.refs[t].place.InPool?
    ensures var r := Run(events, |events|);
      r.objects.entries[k].count ==
        |set s | s in r.pool && r.pool[s] in r.refs && r.refs[r.pool[s]].obj == r.objects.entries[k].obj|
  {
    RunKeeps(events, |events|);
    var r := Run(events, |events|);
    PendingAreHolders(r, r.objects.entries[k].obj, r.pool);
  }

  /** The pending numbers of an object are as many as its pending references. */
  lemma {:induction false} PendingAreHolders(r: Router, o: nat, pool: map<int, nat>)
    requires Pooled(r) && (forall t :: t in r.refs ==> r.refs[t].place.InPool?) && pool == r.pool
    ensures |set s | s in pool && pool[s] in r.refs && r.refs[pool[s]].obj == o| == |Holders(r.refs, o)|
  {
    var numbers := set s | s in pool && pool[s] in r.refs && r.refs[pool[s]].obj == o;
    var tickets := Holders(r.refs, o);
    Bijection(numbers, tickets, r.pool, r.refs);
  }

  lemma {:induction false} Bijection(numbers: set<int>, tickets: set<nat>, pool: map<int, nat>, refs: map<nat, Ref>)
    requires forall s :: s in numbers ==> s in pool && pool[s] in tickets
    requires forall s :: s in numbers ==>
               pool[s] in refs && refs[pool[s]].place.InPool? && refs[pool[s]].place.seqNo == s
    requires forall t :: t in tickets ==> t in refs && refs[t].place.InPool? && refs[t].place.seqNo in numbers
    requires forall t :: t in tickets ==> pool[refs[t].place.seqNo] == t
    ensures |numbers| == |tickets|
    decreases |numbers|
  {
    if |numbers| > 0 {
      SomeElement(numbers);
      var s :| s in numbers;
      Bijection(numbers - {s}, tickets - {pool[s]}, pool, refs);
    } else {
      NoTickets(numbers, tickets, refs);
    }
  }

  lemma NoTickets(numbers: set<int>, tickets: set<nat>, refs: map<nat, Ref>)
    requires forall t :: t in tickets ==> t in refs && refs[t].place.InPool? && refs[t].place.seqNo in numbers
    requires |numbers| == 0
    ensures |tickets| == 0
  {
    assert numbers == {};
    assert tickets == {};
  }

  /** Every reference ever taken is outstanding, or has ended in exactly one way. */
  lemma EachEndsOnce(events: seq<Event>, t: nat)
    requires t < Run(events, |events|).tickets
    ensures var r := Run(events, |events|);
      && (t in r.refs <==> !exists i :: 0 <= i < |r.ended| && r.ended[i].ticket == t)
      && forall i, j :: 0 <= i < j < |r.ended| && r.ended[i].ticket == t ==> r.ended[j].ticket != t
  {
    RunKeeps(events, |events|);
  }

  // ----- what each section is for -----

  /** A key is in the map after a section exactly if it was added in it, or was there and was not erased. */
  lemma KeysExactly(r: Router, e: Event, k: int)
    requires Enabled(r, e)
    ensures k in Step(r, e).objects.entries <==>
      || (e.AddHost? && e.key == k)
      || (e.AddIdle? && e.key == k && e.created)
      || (k in r.objects.entries && e != Erase(k))
  {
  }

  /** A call ends in the manner in which it left the pool; a reference taken to add a host ends as that. */
  lemma EndsAsItLeft(r: Router, s: int)
    requires Inv(r) && s in r.pool
    ensures var t := r.pool[s];
      && Step(Step(r, TakeBack(s)), Release(t)).ended == r.ended + [Ending(t, ByPut)]
      && Step(Step(r, Expire(s)), Release(t)).ended == r.ended + [Ending(t, ByTimeout)]
      && s !in Step(r, TakeBack(s)).pool && s !in Step(r, Expire(s)).pool
  {
  }

  lemma AddingEndsAtOnce(r: Router, key: int, created: bool)
    requires Inv(r) && Enabled(r, AddHost(key, created))
    ensures var r' := Step(r, AddHost(key, created));
      Enabled(r', Release(r.tickets)) && Step(r', Release(r.tickets)).ended == r.ended + [Ending(r.tickets, ByAdd)]
  {
  }

  /** A nonempty set has a least element. */
  lemma {:induction false} Least(s: set<int>) returns (m: int)
    requires |s| > 0
    ensures m in s && forall x :: x in s ==> m <= x
    decreases |s|
  {
    SomeElement(s);
    var x :| x in s;
    var t := s - {x};
    assert s == t + {x};
    if |t| == 0 {
      assert t == {};
      m := x;
    } else {
      m := Least(t);
      if x < m {
        m := x;
      }
    }
  }

  /** There is exactly one next key, unless there are no keys. */
  lemma NextIsOne(keys: set<int>, ptr: Option<int>) returns (k: int)
    requires |keys| > 0
    ensures Follows(keys, ptr, k) && forall j :: Follows(keys, ptr, j) ==> j == k
  {
    k := Least(keys);
    if ptr.Some? {
      var above := set j | j in keys && j > ptr.value;
      if |above| > 0 {
        k := Least(above);
        assert forall j :: j in keys && j > ptr.value ==> j in above;
      } else {
        assert above == {};
        assert forall j :: j in keys ==> j !in above;
      }
    }
    assert Follows(keys, ptr, k);
    forall j | Follows(keys, ptr, j) ensures j == k {
      assert NoLater(ptr, j, k) && NoLater(ptr, k, j);
    }
  }

  /** A key that comes or goes rewinds the cursor, so that the next call takes the least key. */
  lemma CursorRewinds(m: Objects, key: int, init: nat, k: int)
    ensures key !in m.entries && IsNext(AddSpec(m, key, init, true), k) ==>
      forall j :: j in m.entries ==> k <= j
    ensures key in m.entries && IsNext(EraseSpec(m, key), k) ==>
      forall j :: j in m.entries && j != key ==> k <= j
    ensures key in m.entries ==> AddSpec(m, key, init, true).ptr == m.ptr
    ensures key !in m.entries ==> AddSpec(m, key, init, false) == m == EraseSpec(m, key)
  {
    if key in m.entries {
      FromTheFront(EraseSpec(m, key), k);
      assert forall j :: j in m.entries && j != key ==> j in EraseSpec(m, key).entries;
    } else {
      FromTheFront(AddSpec(m, key, init, true), k);
      assert forall j :: j in m.entries ==> j in AddSpec(m, key, init, true).entries;
    }
  }

  lemma FromTheFront(m: Objects, k: int)
    requires m.ptr.None?
    ensures IsNext(m, k) ==> forall j :: j in m.entries ==> k <= j
  {
    if IsNext(m, k) {
      forall j | j in m.entries ensures k <= j {
        assert j in m.entries.Keys && NoLater(m.ptr, k, j);
      }
    }
  }

  // ----- taking turns -----

  /** After a call has taken `k` the next one takes the least key above it, or the least of all if there is none. */
  lemma NextAfter(m: Objects, k: int, next: int)
    requires IsNext(m, k) && IsNext(NextSpec(m, k), next)
    ensures next in m.entries
    ensures if exists j :: j in m.entries && j > k
            then next > k && forall j :: j in m.entries && j > k ==> next <= j
            else forall j :: j in m.entries ==> next <= j
  {
    assert NextSpec(m, k).entries.Keys == m.entries.Keys;
    assert forall j :: j in m.entries ==> NoLater(Some(k), next, j);
  }

  /** The keys taken by the events from `i` up to `n`, in order. */
  ghost function TakenKeys(events: seq<Event>, i: nat, n: nat): seq<int>
    requires i <= n <= |events|
  {
    if n == i then []
    else
      var e := events[n - 1];
      var ks := TakenKeys(events, i, n - 1);
      if e.Take? && Enabled(Run(events, n - 1), e) then ks + [e.k] else ks
  }

  /** Nothing is added or erased by the events from `i` up to `n`. */
  ghost predicate Steady(events: seq<Event>, i: nat, n: nat)
    requires i <= n <= |events|
  {
    forall x :: i <= x < n ==> !events[x].AddHost? && !events[x].AddIdle? && !events[x].Erase?
  }

  /** Where the cursor stands after the first `n` of these keys. */
  function Behind(ptr: Option<int>, ks: seq<int>, n: nat): Option<int>
    requires n <= |ks|
  {
    if n == 0 then ptr else Some(ks[n - 1])
  }

  /** Each of the first `n` keys follows the one before it. */
  ghost predicate InTurn(keys: set<int>, ptr: Option<int>, ks: seq<int>, n: nat)
    requires n <= |ks|
  {
    n > 0 ==> InTurn(keys, ptr, ks, n - 1) && Follows(keys, Behind(ptr, ks, n - 1), ks[n - 1])
  }

  lemma {:induction false} InTurnAt(keys: set<int>, ptr: Option<int>, ks: seq<int>, n: nat, x: nat)
    requires x < n <= |ks| && InTurn(keys, ptr, ks, n)
    ensures Follows(keys, Behind(ptr, ks, x), ks[x])
  {
    if x < n - 1 {
      InTurnAt(keys, ptr, ks, n - 1, x);
    }
  }

  lemma {:induction false} InTurnPrefix(keys: set<int>, ptr: Option<int>, ks: seq<int>, k: int, n: nat)
    requires n <= |ks| && InTurn(keys, ptr, ks, n)
    ensures InTurn(keys, ptr, ks + [k], n) && Behind(ptr, ks + [k], n) == Behind(ptr, ks, n)
  {
    if n > 0 {
      InTurnPrefix(keys, ptr, ks, k, n - 1);
    }
  }

  lemma QuietStep(r: Router, e: Event)
    requires Enabled(r, e) && !e.Take? && !e.AddHost? && !e.AddIdle? && !e.Erase?
    ensures var r' := Step(r, e);
      r'.objects.entries.Keys == r.objects.entries.Keys && r'.objects.ptr == r.objects.ptr
  {
  }

  lemma TakeMoves(r: Router, k: int)
    requires Enabled(r, Take(k))
    ensures var m := Step(r, Take(k)).objects;
      m.entries.Keys == r.objects.entries.Keys && m.ptr == Some(k)
  {
  }

  /** The keys `ks` were taken in turn since the map was `m`, and nothing was added or erased. */
  ghost predicate TookInTurn(m: Objects, m': Objects, ks: seq<int>) {
    && InTurn(m.entries.Keys, m.ptr, ks, |ks|) && m'.entries.Keys == m.entries.Keys
    && m'.ptr == Behind(m.ptr, ks, |ks|)
  }

  lemma OneMoreTurn(m: Objects, m': Objects, m'': Objects, ks: seq<int>, k: int)
    requires TookInTurn(m, m', ks) && IsNext(m', k)
    requires m''.entries.Keys == m'.entries.Keys && m''.ptr == Some(k)
    ensures TookInTurn(m, m'', ks + [k])
  {
    InTurnPrefix(m.entries.Keys, m.ptr, ks, k, |ks|);
  }

  lemma {:induction false} TakenInTurn(events: seq<Event>, i: nat, n: nat)
    requires i <= n <= |events| && Steady(events, i, n)
    ensures TookInTurn(Run(events, i).objects, Run(events, n).objects, TakenKeys(events, i, n))
    decreases n
  {
    if n > i {
      var r, e := Run(events, n - 1), events[n - 1];
      TakenInTurn(events, i, n - 1);
      if Enabled(r, e) {
        if e.Take? {
          TakeMoves(r, e.k);
          OneMoreTurn(Run(events, i).objects, r.objects, Step(r, e).objects, TakenKeys(events, i, n - 1), e.k);
        } else {
          QuietStep(r, e);
        }
      }
    }
  }

  /** In an increasing list of the keys, the next key stands one place on, or in front after the last. */
  lemma NextPlace(list: seq<int>, keys: set<int>, p: nat, k: int)
    requires Increasing(list) && Elements(list) == keys && p < |list| && Follows(keys, Some(list[p]), k)
    ensures k == list[if p + 1 < |list| then p + 1 else 0]
  {
    assert forall q :: 0 <= q < |list| ==> list[q] in keys;
    var q: nat :| q < |list| && list[q] == k;
    if p + 1 < |list| {
      assert list[p + 1] > list[p];
    }
  }

  /** Where the key taken `n` calls after the one at `p` stands, no further than once around. */
  function Around(size: nat, p: nat, n: nat): (q: nat)
    requires p < size && n < size
    ensures q < size
  {
    if p + n < size then p + n else p + n - size
  }

  lemma {:induction false} PlaceOf(
    list: seq<int>, keys: set<int>, ptr: Option<int>, ks: seq<int>, a: nat, p: nat, n: nat)
    requires Increasing(list) && Elements(list) == keys && InTurn(keys, ptr, ks, |ks|)
    requires p < |list| && n < |list| && a + n < |ks| && ks[a] == list[p]
    ensures ks[a + n] == list[Around(|list|, p, n)]
  {
    if n > 0 {
      PlaceOf(list, keys, ptr, ks, a, p, n - 1);
      InTurnAt(keys, ptr, ks, |ks|, a + n);
      NextPlace(list, keys, Around(|list|, p, n - 1), ks[a + n]);
    }
  }

  /** From the one at `a` on, as many takes as there are keys take every key, and none twice. */
  ghost predicate EveryKeyOnce(keys: set<int>, ks: seq<int>, a: nat)
    requires a + |keys| <= |ks|
  {
    && Elements(ks[a..a + |keys|]) == keys
    && forall x, y :: a <= x < y < a + |keys| ==> ks[x] != ks[y]
  }

  lemma OnceAround(keys: set<int>, ptr: Option<int>, ks: seq<int>, a: nat)
    requires InTurn(keys, ptr, ks, |ks|) && a + |keys| <= |ks|
    ensures EveryKeyOnce(keys, ks, a)
  {
    if |keys| > 0 {
      var list := InAList(keys);
      IncreasingCounts(list);
      forall x | 0 <= x < |ks| ensures ks[x] in keys {
        InTurnAt(keys, ptr, ks, |ks|, x);
      }
      var p: nat :| p < |list| && list[p] == ks[a];
      var size := |list|;
      forall n: nat | n < size ensures ks[a + n] == list[Around(size, p, n)] {
        PlaceOf(list, keys, ptr, ks, a, p, n);
      }
      forall x, y | a <= x < y < a + size ensures ks[x] != ks[y] {
        assert ks[a + (x - a)] == list[Around(size, p, x - a)] && ks[a + (y - a)] == list[Around(size, p, y - a)];
      }
      forall k | k in keys ensures k in Elements(ks[a..a + size]) {
        AroundFinds(list, ks, a, p, k);
      }
    } else {
      assert keys == {};
    }
  }

  lemma AroundFinds(list: seq<int>, ks: seq<int>, a: nat, p: nat, k: int)
    requires k in Elements(list) && p < |list| && a + |list| <= |ks|
    requires forall n: nat :: n < |list| ==> ks[a + n] == list[Around(|list|, p, n)]
    ensures k in Elements(ks[a..a + |list|])
  {
    var q: nat :| q < |list| && list[q] == k;
    var n := if q >= p then q - p else q + |list| - p;
    assert Around(|list|, p, n) == q;
    assert ks[a..a + |list|][n] == ks[a + n] == k;
  }

  /**
   * In every run, while nothing is added or erased, any as many consecutive calls as there
   * are keys take every key exactly once, whatever other threads do in between.
   */
  lemma EveryKeyInTurn(events: seq<Event>, i: nat, n: nat, a: nat)
    requires i <= n <= |events| && Steady(events, i, n)
    requires a + |Run(events, i).objects.entries.Keys| <= |TakenKeys(events, i, n)|
    ensures EveryKeyOnce(Run(events, i).objects.entries.Keys, TakenKeys(events, i, n), a)
  {
    TakenInTurn(events, i, n);
    TurnsGoAround(Run(events, i).objects, Run(events, n).objects, TakenKeys(events, i, n), a);
  }

  lemma TurnsGoAround(m: Objects, m': Objects, ks: seq<int>, a: nat)
    requires TookInTurn(m, m', ks) && a + |m.entries.Keys| <= |ks|
    ensures EveryKeyOnce(m.entries.Keys, ks, a)
  {
    OnceAround(m.entries.Keys, m.ptr, ks, a);
  }

  // ----- many keys at once -----

  /** The first `n` keys erased, one after another. */
  function EraseMany(m: Objects, keys: seq<int>, n: nat): Objects
    requires n <= |keys|
  {
    if n == 0 then m else EraseSpec(EraseMany(m, keys, n - 1), keys[n - 1])
  }

  /** Idle objects made for the first `n` keys, where there is none and one can be made. */
  function AddMany(m: Objects, keys: seq<int>, makes: set<int>, n: nat): Objects
    requires n <= |keys|
  {
    if n == 0 then m
    else
      var m' := AddMany(m, keys, makes, n - 1);
      if keys[n - 1] in m'.entries then m' else AddSpec(m', keys[n - 1], 0, keys[n - 1] in makes)
  }

  lemma {:induction false} EraseManyKeys(m: Objects, keys: seq<int>, n: nat)
    requires n <= |keys|
    ensures EraseMany(m, keys, n).entries.Keys == m.entries.Keys - Elements(keys[..n])
  {
    if n > 0 {
      EraseManyKeys(m, keys, n - 1);
      assert keys[..n] == keys[..n - 1] + [keys[n - 1]];
      assert Elements(keys[..n]) == Elements(keys[..n - 1]) + {keys[n - 1]};
    }
  }

  lemma {:induction false} AddManyKeys(m: Objects, keys: seq<int>, makes: set<int>, n: nat)
    requires n <= |keys|
    ensures AddMany(m, keys, makes, n).entries.Keys == m.entries.Keys + Elements(keys[..n]) * makes
  {
    if n > 0 {
      AddManyKeys(m, keys, makes, n - 1);
      assert keys[..n] == keys[..n - 1] + [keys[n - 1]];
      assert Elements(keys[..n]) == Elements(keys[..n - 1]) + {keys[n - 1]};
    }
  }

  lemma {:induction false} EraseManyKeeps(r: Router, keys: seq<int>, n: nat)
    requires Inv(r) && n <= |keys|
    ensures Inv(r.(objects := EraseMany(r.objects, keys, n)))
  {
    if n > 0 {
      EraseManyKeeps(r, keys, n - 1);
      EraseKeeps(r.(objects := EraseMany(r.objects, keys, n - 1)), keys[n - 1]);
    }
  }

  lemma {:induction false} AddManyKeeps(r: Router, keys: seq<int>, makes: set<int>, n: nat)
    requires Inv(r) && n <= |keys|
    ensures Inv(r.(objects := AddMany(r.objects, keys, makes, n)))
  {
    if n > 0 {
      var m := AddMany(r.objects, keys, makes, n - 1);
      AddManyKeeps(r, keys, makes, n - 1);
      if keys[n - 1] !in m.entries {
        StepKeeps(r.(objects := m), AddIdle(keys[n - 1], keys[n - 1] in makes));
      }
    }
  }

  /** With no reference outstanding and no key left, everything ever made has been destroyed. */
  lemma NothingLeft(r: Router)
    requires Inv(r) && r.refs == map[] && r.objects.entries == map[]
    ensures r.objects.drop == map[]
    ensures forall o: nat :: o < r.objects.next ==> o in r.objects.destroyed
  {
    forall o: nat ensures Holders(r.refs, o) == {} {
    }
    assert r.objects.drop.Keys == {};
  }
}
