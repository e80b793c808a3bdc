/** The map of counted objects, the pool of pending calls and the router over both, updated in place. */
module Routers {
  import opened Basics
  import opened RouterRuns

  /** Objects by key, with reference counts; one that is in use when its key goes is kept aside until it is not. */
  class ObjectMap {
    var entries: map<int, Entry>
    var drop: map<nat, Dropped>
    var ptr: Option<int>
    var next: nat
    ghost var destroyed: seq<nat>

    ghost function View(): Objects
      reads this
    {
      Objects(entries, drop, ptr, next, destroyed)
    }

    constructor ()
      ensures View() == Objects(map[], map[], None, 0, [])
    {
      entries, drop, ptr, next, destroyed := map[], map[], None, 0, [];
    }

    /** `created` tells whether Create makes an object. */
    method DoAdd(key: int, init: nat, created: bool) returns (obj: Option<nat>)
      modifies this
      ensures View() == AddSpec(old(View()), key, init, created)
      ensures obj == if key in entries then Some(entries[key].obj) else None
    {
      if key in entries {
        entries := entries[key := entries[key].(count := entries[key].count + 1)];
        return Some(entries[key].obj);
      }
      if !created {
        return None;
      }
      var made := next;
      next := next + 1;
      entries := entries[key := Entry(made, init)];
      ptr := None;
      return Some(made);
    }

    method Add(key: int, created: bool) returns (obj: Option<nat>)
      modifies this
      ensures View() == AddSpec(old(View()), key, 1, created)
      ensures obj == if key in entries then Some(entries[key].obj) else None
    {
      obj := DoAdd(key, 1, created);
    }

    method DoErase(key: int)
      modifies this
      ensures View() == EraseSpec(old(View()), key)
    {
      if key !in entries {
        return;
      }
      var e := entries[key];
      if e.count == 0 {
        destroyed := destroyed + [e.obj];
      } else {
        drop := drop[e.obj := Dropped(key, e.count)];
      }
      entries := entries - {key};
      ptr := None;
    }

    method Release(key: int, obj: nat)
      modifies this
      ensures View() == ReleaseSpec(old(View()), key, obj)
      ensures ptr == old(ptr) && entries.Keys == old(entries).Keys
    {
      if key in entries {
        if entries[key].obj == obj {
          entries := entries[key := entries[key].(count := entries[key].count - 1)];
          return;
        }
      }
      if obj in drop && drop[obj].key == key {
        var left := drop[obj].count - 1;
        if left == 0 {
          destroyed := destroyed + [obj];
          drop := drop - {obj};
        } else {
          drop := drop[obj := Dropped(key, left)];
        }
      }
    }

    /** Erases every key; whether what was in use is still to be waited for is in `drop`. */
    method EraseAll() returns (ghost order: seq<int>)
      modifies this
      ensures Elements(order) == old(entries).Keys && entries == map[]
      ensures View() == EraseMany(old(View()), order, |order|)
    {
      ghost var m := View();
      var keys := InOrder(entries.Keys);
      order := keys;
      var i := 0;
      while i < |keys|
        invariant i <= |keys| && View() == EraseMany(m, keys, i)
      {
        DoErase(keys[i]);
        i := i + 1;
      }
      EraseManyKeys(m, keys, |keys|);
      assert keys[..|keys|] == keys;
      assert entries.Keys == {};
    }

    /** Makes the keys those of `hosts`; `makes` are the keys for which an object can be made. */
    method SetAll(hosts: seq<int>, makes: set<int>) returns (ghost gone: seq<int>)
      modifies this
      ensures View() == EraseMany(AddMany(old(View()), hosts, makes, |hosts|), gone, |gone|)
      ensures entries.Keys == Elements(hosts) * (old(entries).Keys + makes)
    {
      ghost var m := View();
      var i := 0;
      while i < |hosts|
        invariant i <= |hosts| && View() == AddMany(m, hosts, makes, i)
      {
        if hosts[i] !in entries {
          var _ := DoAdd(hosts[i], 0, hosts[i] in makes);
        }
        i := i + 1;
      }
      AddManyKeys(m, hosts, makes, |hosts|);
      assert hosts[..|hosts|] == hosts;
      ghost var m' := View();
      var keys := InOrder(set k | k in entries && k !in hosts);
      gone := keys;
      i := 0;
      while i < |keys|
        invariant i <= |keys| && View() == EraseMany(m', keys, i)
      {
        DoErase(keys[i]);
        i := i + 1;
      }
      EraseManyKeys(m', keys, |keys|);
      assert keys[..|keys|] == keys;
    }

    method Get(key: int) returns (obj: Option<nat>)
      modifies this
      ensures key !in old(entries) ==> obj == None && View() == old(View())
      ensures key in old(entries) ==>
        obj == Some(old(entries)[key].obj) && View() == AddSpec(old(View()), key, 1, false)
    {
      if key !in entries {
        return None;
      }
      entries := entries[key := entries[key].(count := entries[key].count + 1)];
      return Some(entries[key].obj);
    }

    /** The least key above the cursor, or the least of all. */
    method NextKey() returns (k: int)
      requires |entries.Keys| > 0
      ensures IsNext(View(), k)
    {
      k := LeastAbove(entries.Keys, ptr);
    }

    /** A reference to the object behind the cursor, which goes around. */
    method GetNext() returns (k: int, obj: Option<nat>)
      modifies this
      ensures obj.None? <==> old(entries) == map[]
      ensures obj.None? ==> View() == old(View())
      ensures obj.Some? ==>
        IsNext(old(View()), k) && View() == NextSpec(old(View()), k) && obj.value == old(entries)[k].obj
      ensures obj.Some? ==> ptr == Some(k) && entries.Keys == old(entries).Keys
    {
      if |entries.Keys| == 0 {
        assert entries.Keys == {};
        return 0, None;
      }
      k := NextKey();
      ptr := Some(k);
      entries := entries[k := entries[k].(count := entries[k].count + 1)];
      obj := Some(entries[k].obj);
    }
  }

  method LeastAbove(keys: set<int>, ptr: Option<int>) returns (k: int)
    requires |keys| > 0
    ensures Follows(keys, ptr, k)
  {
    if ptr.Some? {
      var above := set j | j in keys && j > ptr.value;
      if |above| > 0 {
        k := Smallest(above);
        assert k in above;
        forall j | j in keys && j > ptr.value ensures k <= j {
          assert j in above;
        }
        return;
      }
      assert above == {};
      assert forall j :: j in keys ==> j !in above;
    }
    k := Smallest(keys);
  }

  // ----- pending calls -----

  datatype Track = Track(task: int, key: int, obj: nat)

  datatype Pending = Pending(deadline: int, track: Track)

  /** What is pending, by number, until a deadline. */
  class TimeoutPool {
    const defaultTimeout: int
    var pool: map<int, Pending>

    constructor (defaultTimeout: int)
      ensures this.defaultTimeout == defaultTimeout && pool == map[]
    {
      this.defaultTimeout := defaultTimeout;
      pool := map[];
    }

    /** A number that is still pending gives up what it held. */
    method Insert(k: int, v: Track, timeout: int, now: int) returns (replaced: Option<Pending>)
      modifies this
      ensures replaced == if k in old(pool) then Some(old(pool)[k]) else None
      ensures pool == old(pool)[k := Pending(now + if timeout > 0 then timeout else defaultTimeout, v)]
    {
      var deadline := now + if timeout > 0 then timeout else defaultTimeout;
      replaced := if k in pool then Some(pool[k]) else None;
      pool := pool[k := Pending(deadline, v)];
    }

    method Erase(k: int) returns (v: Option<Pending>)
      modifies this
      ensures v == if k in old(pool) then Some(old(pool)[k]) else None
      ensures pool == old(pool) - {k}
    {
      if k !in pool {
        assert pool - {k} == pool;
        return None;
      }
      v := Some(pool[k]);
      pool := pool - {k};
    }

    /** The first pass of Check: the numbers of what is due. */
    method Due(now: int) returns (drop: seq<int>)
      ensures forall s :: s in drop <==> s in pool && pool[s].deadline <= now
      ensures NoDuplicates(drop)
    {
      drop := [];
      var left := pool.Keys;
      while |left| > 0
        invariant left <= pool.Keys
        invariant forall s :: s in drop <==> s in pool && s !in left && pool[s].deadline <= now
        invariant NoDuplicates(drop)
        decreases |left|
      {
        var s := Smallest(left);
        if pool[s].deadline <= now {
          drop := drop + [s];
        }
        left := left - {s};
      }
      assert left == {};
    }

    /** The second pass. */
    method EraseEach(drop: seq<int>)
      modifies this
      ensures pool == old(pool) - Elements(drop)
    {
      var i := 0;
      while i < |drop|
        invariant i <= |drop| && pool == old(pool) - Elements(drop[..i])
      {
        assert Elements(drop[..i + 1]) == Elements(drop[..i]) + {drop[i]};
        pool := pool - {drop[i]};
        i := i + 1;
      }
      assert drop[..|drop|] == drop;
    }

    /** Drops exactly what is due; returns the numbers dropped, each once. */
    method Check(now: int) returns (drop: seq<int>)
      modifies this
      ensures forall s :: s in drop <==> s in old(pool) && old(pool)[s].deadline <= now
      ensures NoDuplicates(drop)
      ensures pool == old(pool) - Elements(drop)
    {
      drop := Due(now);
      EraseEach(drop);
    }

    /** Drops everything. */
    method Clear() returns (drop: seq<int>)
      modifies this
      ensures forall s :: s in drop <==> s in old(pool)
      ensures NoDuplicates(drop) && pool == map[]
    {
      drop := [];
      var left := pool.Keys;
      while |left| > 0
        invariant left <= pool.Keys && pool == old(pool)
        invariant forall s :: s in drop <==> s in pool && s !in left
        invariant NoDuplicates(drop)
        decreases |left|
      {
        var s := Smallest(left);
        drop := drop + [s];
        left := left - {s};
      }
      assert left == {};
      pool := map[];
    }
  }

  ghost predicate NoDuplicates(s: seq<int>) { forall i, j :: 0 <= i < j < |s| ==> s[i] != s[j] }

  // ----- the router -----

  ghost predicate PendingAs(r: Router, s: int, p: Pending) {
    && s in r.pool && r.pool[s] in r.refs
    && r.refs[r.pool[s]] == Ref(p.track.key, p.track.obj, InPool(s, p.deadline))
  }

  /** The value `r` is that of a router over these objects and pending calls, with nobody in the middle of a call. */
  ghost predicate Mirrors(r: Router, m: Objects, pool: map<int, Pending>) {
    && Inv(r) && r.objects == m && r.pool.Keys == pool.Keys
    && (forall s :: s in pool ==> PendingAs(r, s, pool[s]))
    && forall t :: t in r.refs ==> r.refs[t].place.InPool?
  }

  /** A call that takes a reference to the object of `k` and waits under `s`; one that waited there before times out. */
  function GetSpec(r: Router, k: int, s: int, deadline: int): Router
    requires k in r.objects.entries
  {
    var r' := InsertSpec(TakeSpec(r, k), r.tickets, s, deadline);
    if s in r.pool && r.pool[s] in r'.refs && r'.refs[r.pool[s]].place.InHand? then GiveBack(r', r.pool[s]) else r'
  }

  /** A host is added and the reference to it given back. */
  function AddHostMap(m: Objects, key: int, created: bool): Objects {
    var m' := AddSpec(m, key, 1, created);
    if key in m'.entries then ReleaseSpec(m', key, m'.entries[key].obj) else m
  }

  lemma AddedAndReleased(m: Objects, key: int, created: bool)
    ensures var m' := AddHostMap(m, key, created);
      && m'.entries.Keys == m.entries.Keys + (if created then {key} else {})
      && (forall k :: k in m.entries ==> m'.entries[k] == m.entries[k])
      && (created && key !in m.entries ==> m'.entries[key].count == 0)
      && m'.drop == m.drop && m'.destroyed == m.destroyed
  {
  }

  /** A pending call ends. */
  function EndSpec(r: Router, s: int, purpose: Purpose): Router
    requires s in r.pool && r.pool[s] in r.refs
  {
    GiveBack(Leave(r, s, purpose), r.pool[s])
  }

  class AsyncRouter {
    const objects: ObjectMap
    const timeout: TimeoutPool
    /** The router as a value, with its tickets. */
    ghost var state: Router

    ghost predicate Valid()
      reads this, objects, timeout
    {
      Mirrors(state, objects.View(), timeout.pool)
    }

    constructor (defaultTimeout: int)
      ensures Valid() && fresh(objects) && fresh(timeout) && state == NewRouter()
    {
      objects := new ObjectMap();
      timeout := new TimeoutPool(defaultTimeout);
      state := NewRouter();
    }

    /** The end of a pending call that has left the pool: its reference is given back. */
    method EndTrack(track: Track, ghost s: int, ghost purpose: Purpose, ghost pool: map<int, Pending>)
      requires Mirrors(state, objects.View(), pool) && s in pool && pool[s].track == track
      modifies this, objects
      ensures Mirrors(state, objects.View(), pool - {s}) && state == EndSpec(old(state), s, purpose)
    {
      EndMirrors(state, objects.View(), pool, s, purpose);
      objects.Release(track.key, track.obj);
      state := EndSpec(state, s, purpose);
    }

    /** Sends the next object's way; nothing to take means no object. */
    method Get(s: int, task: int, wait: int, now: int) returns (obj: Option<nat>, ghost k: int)
      requires Valid()
      modifies this, objects, timeout
      ensures Valid()
      ensures obj.None? <==> old(objects.entries) == map[]
      ensures obj.None? ==> state == old(state) && timeout.pool == old(timeout.pool)
      ensures obj.Some? ==> IsNext(old(objects.View()), k) && obj.value == old(objects.entries)[k].obj
      ensures obj.Some? ==> s in timeout.pool && timeout.pool[s].track == Track(task, k, obj.value)
      ensures obj.Some? ==> timeout.pool[s].deadline == now + if wait > 0 then wait else timeout.defaultTimeout
      ensures obj.Some? ==> objects.ptr == Some(k) && objects.entries.Keys == old(objects.entries).Keys
      ensures obj.Some? ==> state == GetSpec(old(state), k, s, timeout.pool[s].deadline)
    {
      var key;
      key, obj := objects.GetNext();
      k := key;
      if obj.None? {
        return;
      }
      ghost var pool := timeout.pool;
      var was := timeout.Insert(s, Track(task, key, obj.value), wait, now);
      ghost var deadline := timeout.pool[s].deadline;
      GetMirrors(state, old(objects.View()), pool, key, s, task, deadline);
      if was.Some? {
        objects.Release(was.value.track.key, was.value.track.obj);
      }
      state := GetSpec(state, key, s, deadline);
    }

    /** Ends a pending call and returns its task; a number that is not pending is refused. */
    method Put(s: int) returns (ok: bool, task: int)
      requires Valid()
      modifies this, objects, timeout
      ensures Valid() && (ok <==> s in old(timeout.pool))
      ensures !ok ==> state == old(state) && timeout.pool == old(timeout.pool)
      ensures ok ==> task == old(timeout.pool)[s].track.task && timeout.pool == old(timeout.pool) - {s}
      ensures ok ==> s in old(state).pool && old(state).pool[s] in old(state).refs
      ensures ok ==> state == EndSpec(old(state), s, PuttingBack)
    {
      ghost var pool := timeout.pool;
      var found := timeout.Erase(s);
      if found.None? {
        assert pool - {s} == pool;
        return false, 0;
      }
      EndTrack(found.value.track, s, PuttingBack, pool);
      return true, found.value.track.task;
    }

    /** Times the calls of `drop` out, which have left the pool `was`. */
    method TimeOut(drop: seq<int>, was: map<int, Pending>)
      requires Mirrors(state, objects.View(), was) && NoDuplicates(drop) && forall s :: s in drop ==> s in was
      modifies this, objects
      ensures Mirrors(state, objects.View(), was - Elements(drop))
      ensures state.ended == old(state).ended + Timeouts(old(state).pool, drop, |drop|)
    {
      ghost var r := state;
      var i := 0;
      assert was - Elements(drop[..0]) == was && r.pool - Elements(drop[..0]) == r.pool;
      while i < |drop|
        invariant i <= |drop| && Mirrors(state, objects.View(), was - Elements(drop[..i]))
        invariant state.ended == r.ended + Timeouts(r.pool, drop, i)
        invariant state.pool == r.pool - Elements(drop[..i])
      {
        var s := drop[i];
        StillThere(drop, i, was);
        OneMoreTimeout(r, state, drop, i);
        EndTrack(was[s].track, s, TimingOut, was - Elements(drop[..i]));
        i := i + 1;
      }
      assert drop[..|drop|] == drop;
    }

    /** Times out exactly the calls whose deadline has come. */
    method Cleanup(now: int) returns (ghost ended: seq<int>)
      requires Valid()
      modifies this, objects, timeout
      ensures Valid()
      ensures forall s :: s in ended <==> s in old(timeout.pool) && old(timeout.pool)[s].deadline <= now
      ensures NoDuplicates(ended) && state.ended == old(state).ended + Timeouts(old(state).pool, ended, |ended|)
      ensures forall s :: s in timeout.pool <==> s in old(timeout.pool) && old(timeout.pool)[s].deadline > now
      ensures forall s :: s in timeout.pool ==> timeout.pool[s] == old(timeout.pool)[s]
    {
      var was := timeout.pool;
      var drop := timeout.Check(now);
      TimeOut(drop, was);
      ended := drop;
    }

    /** Times every call out and erases every object: all ever made are destroyed, and there is nothing to wait for. */
    method Shutdown() returns (ghost ended: seq<int>)
      requires Valid()
      modifies this, objects, timeout
      ensures forall s :: s in ended <==> s in old(timeout.pool)
      ensures NoDuplicates(ended) && state.ended == old(state).ended + Timeouts(old(state).pool, ended, |ended|)
      ensures Valid() && timeout.pool == map[] && objects.entries == map[] && objects.drop == map[]
      ensures forall o: nat :: o < objects.next ==> o in objects.destroyed
    {
      var was := timeout.pool;
      var drop := timeout.Clear();
      TimeOut(drop, was);
      ended := drop;
      NothingPending(was, drop);
      ghost var order := objects.EraseAll();
      EraseManyKeeps(state, order, |order|);
      state := state.(objects := objects.View());
      NoRefs(state);
      NothingLeft(state);
    }

    /** A host is added; the reference that comes with it is given back at once. */
    method AddHost(key: int, created: bool)
      requires Valid()
      modifies this, objects
      ensures Valid() && timeout.pool == old(timeout.pool)
      ensures objects.entries.Keys == old(objects.entries).Keys + if created then {key} else {}
      ensures forall k :: k in old(objects.entries) ==> objects.entries[k] == old(objects.entries)[k]
      ensures created && key !in old(objects.entries) ==> objects.entries[key].count == 0
      ensures objects.drop == old(objects.drop) && objects.destroyed == old(objects.destroyed)
    {
      AddedAndReleased(objects.View(), key, created);
      AddAndRelease(key, created);
    }

    method AddAndRelease(key: int, created: bool)
      requires Valid()
      modifies this, objects
      ensures Valid() && timeout.pool == old(timeout.pool)
      ensures objects.View() == AddHostMap(old(objects.View()), key, created)
    {
      ghost var m := objects.View();
      var c := objects.Add(key, created);
      if c.None? {
        return;
      }
      AddMirrors(state, m, timeout.pool, key, created);
      objects.Release(key, c.value);
      state := GiveBack(AddHostSpec(state, key, created), state.tickets);
    }

    method Del(key: int)
      requires Valid()
      modifies this, objects
      ensures Valid() && timeout.pool == old(timeout.pool)
      ensures objects.View() == EraseSpec(old(objects.View()), key)
    {
      objects.DoErase(key);
      EraseKeeps(state, key);
      state := state.(objects := objects.View());
    }

    method SetAll(hosts: seq<int>, makes: set<int>)
      requires Valid()
      modifies this, objects
      ensures Valid() && timeout.pool == old(timeout.pool)
      ensures objects.entries.Keys == Elements(hosts) * (old(objects.entries).Keys + makes)
    {
      ghost var gone := objects.SetAll(hosts, makes);
      AddManyKeeps(state, hosts, makes, |hosts|);
      ghost var r := state.(objects := AddMany(state.objects, hosts, makes, |hosts|));
      EraseManyKeeps(r, gone, |gone|);
      state := r.(objects := objects.View());
    }
  }

  /** The first `n` of the dropped calls, each ended by timeout, in order. */
  ghost function Timeouts(pool: map<int, nat>, drop: seq<int>, n: nat): seq<Ending>
    requires n <= |drop|
  {
    if n == 0 then []
    else Timeouts(pool, drop, n - 1) + if drop[n - 1] in pool then [Ending(pool[drop[n - 1]], ByTimeout)] else []
  }

  /** Between calls the count of an object is the number of pending calls to it. */
  lemma CountIsPending(r: Router, m: Objects, pool: map<int, Pending>, k: int)
    requires Mirrors(r, m, pool) && k in m.entries
    ensures m.entries[k].count == |set s | s in pool && pool[s].track.obj == m.entries[k].obj|
  {
    var o := m.entries[k].obj;
    PendingAreHolders(r, o, r.pool);
    forall s | s in pool ensures PendingAs(r, s, pool[s]) {
    }
    assert (set s | s in r.pool && r.pool[s] in r.refs && r.refs[r.pool[s]].obj == o)
        == set s | s in pool && pool[s].track.obj == o;
  }

  /** Ending a pending call leaves the others pending. */
  lemma EndMirrors(r: Router, m: Objects, pool: map<int, Pending>, s: int, purpose: Purpose)
    requires Mirrors(r, m, pool) && s in pool
    ensures Mirrors(EndSpec(r, s, purpose), ReleaseSpec(m, pool[s].track.key, pool[s].track.obj), pool - {s})
  {
    assert PendingAs(r, s, pool[s]);
    var r', t := Leave(r, s, purpose), r.pool[s];
    LeaveKeeps(r, s, purpose);
    GiveBackKeeps(r', t);
    var e := GiveBack(r', t);
    forall u | u in pool - {s} ensures PendingAs(e, u, pool[u]) {
      assert PendingAs(r, u, pool[u]);
    }
  }

  lemma TakenAndInserted(r: Router, k: int, s: int, deadline: int)
    requires Inv(r) && k in r.objects.entries
    ensures Inv(InsertSpec(TakeSpec(r, k), r.tickets, s, deadline))
  {
    TakeKeeps(r, k);
    InsertKeeps(TakeSpec(r, k), r.tickets, s, deadline);
  }

  lemma InsertedShape(r: Router, m: Objects, pool: map<int, Pending>, k: int, s: int, deadline: int)
    requires Mirrors(r, m, pool) && k in m.entries
    ensures var r' := InsertSpec(TakeSpec(r, k), r.tickets, s, deadline);
      && r'.objects == NextSpec(m, k) && r'.pool == r.pool[s := r.tickets]
      && (s in pool ==>
            r.pool[s] in r'.refs && r'.refs[r.pool[s]] == Ref(pool[s].track.key, pool[s].track.obj, InHand(TimingOut)))
  {
    assert s in pool ==> PendingAs(r, s, pool[s]);
    assert (r.pool - {s})[s := r.tickets] == r.pool[s := r.tickets];
  }

  lemma OthersStay(r: Router, m: Objects, pool: map<int, Pending>, k: int, s: int, deadline: int, u: int)
    requires Mirrors(r, m, pool) && k in m.entries && u in pool && u != s
    ensures PendingAs(InsertSpec(TakeSpec(r, k), r.tickets, s, deadline), u, pool[u])
  {
    assert PendingAs(r, u, pool[u]);
    assert s in pool ==> PendingAs(r, s, pool[s]);
    InsertedShape(r, m, pool, k, s, deadline);
  }

  lemma InsertedRefs(r: Router, m: Objects, pool: map<int, Pending>, k: int, s: int, deadline: int)
    requires Mirrors(r, m, pool) && k in m.entries
    ensures var r' := InsertSpec(TakeSpec(r, k), r.tickets, s, deadline);
      && r.tickets in r'.refs && r'.refs[r.tickets] == Ref(k, m.entries[k].obj, InPool(s, deadline))
      && forall t :: t in r'.refs && !r'.refs[t].place.InPool? ==> s in pool && t == r.pool[s]
  {
    assert s in pool ==> PendingAs(r, s, pool[s]);
  }

  /** A call that gets an object waits for its answer; one that waited under its number is over. */
  lemma GetMirrors(r: Router, m: Objects, pool: map<int, Pending>, k: int, s: int, task: int, deadline: int)
    requires Mirrors(r, m, pool) && k in m.entries
    ensures var m' := NextSpec(m, k);
      Mirrors(GetSpec(r, k, s, deadline),
              if s in pool then ReleaseSpec(m', pool[s].track.key, pool[s].track.obj) else m',
              pool[s := Pending(deadline, Track(task, k, m.entries[k].obj))])
  {
    var r' := InsertSpec(TakeSpec(r, k), r.tickets, s, deadline);
    var pool' := pool[s := Pending(deadline, Track(task, k, m.entries[k].obj))];
    TakenAndInserted(r, k, s, deadline);
    InsertedShape(r, m, pool, k, s, deadline);
    InsertedRefs(r, m, pool, k, s, deadline);
    forall u | u in pool' ensures PendingAs(r', u, pool'[u]) {
      if u != s {
        OthersStay(r, m, pool, k, s, deadline, u);
      }
    }
    if s in pool {
      OldOneEnds(r', r.pool[s], pool');
    }
  }

  /** The one reference in hand is given back. */
  lemma OldOneEnds(r: Router, t: nat, pool: map<int, Pending>)
    requires Inv(r) && t in r.refs && r.refs[t].place.InHand? && r.pool.Keys == pool.Keys
    requires forall u :: u in pool ==> PendingAs(r, u, pool[u])
    requires forall u :: u in r.refs && !r.refs[u].place.InPool? ==> u == t
    ensures Mirrors(GiveBack(r, t), ReleaseSpec(r.objects, r.refs[t].key, r.refs[t].obj), pool)
  {
    var e := GiveBack(r, t);
    GiveBackKeeps(r, t);
    forall u | u in pool ensures PendingAs(e, u, pool[u]) {
      assert PendingAs(r, u, pool[u]);
    }
  }

  lemma AddMirrors(r: Router, m: Objects, pool: map<int, Pending>, key: int, created: bool)
    requires Mirrors(r, m, pool) && (key in m.entries || created)
    ensures var m' := AddSpec(m, key, 1, created);
      Mirrors(GiveBack(AddHostSpec(r, key, created), r.tickets), ReleaseSpec(m', key, m'.entries[key].obj), pool)
  {
    var r' := AddHostSpec(r, key, created);
    AddHostKeeps(r, key, created);
    forall u | u in pool ensures PendingAs(r', u, pool[u]) {
      assert PendingAs(r, u, pool[u]) && r.pool[u] < r.tickets;
    }
    OldOneEnds(r', r.tickets, pool);
  }

  /** The next call to be dropped is still pending, and then one fewer are. */
  lemma StillThere(drop: seq<int>, i: nat, was: map<int, Pending>)
    requires i < |drop| && NoDuplicates(drop) && drop[i] in was
    ensures drop[i] in was - Elements(drop[..i])
    ensures (was - Elements(drop[..i])) - {drop[i]} == was - Elements(drop[..i + 1])
  {
    assert Elements(drop[..i + 1]) == Elements(drop[..i]) + {drop[i]};
  }

  lemma OneMoreTimeout(r: Router, r': Router, drop: seq<int>, i: nat)
    requires i < |drop| && NoDuplicates(drop) && drop[i] in r'.pool && r'.pool[drop[i]] in r'.refs
    requires r'.ended == r.ended + Timeouts(r.pool, drop, i) && r'.pool == r.pool - Elements(drop[..i])
    ensures var e := EndSpec(r', drop[i], TimingOut);
      e.ended == r.ended + Timeouts(r.pool, drop, i + 1) && e.pool == r.pool - Elements(drop[..i + 1])
  {
    assert Elements(drop[..i + 1]) == Elements(drop[..i]) + {drop[i]};
    assert (r.pool - Elements(drop[..i])) - {drop[i]} == r.pool - Elements(drop[..i + 1]);
    Assoc(r.ended, Timeouts(r.pool, drop, i), [Ending(r.pool[drop[i]], ByTimeout)]);
  }

  lemma NothingPending(was: map<int, Pending>, drop: seq<int>)
    requires forall s :: s in drop <==> s in was
    ensures was - Elements(drop) == map[]
  {
    assert forall s :: s in was ==> s in Elements(drop);
    assert (was - Elements(drop)).Keys == {};
  }

  lemma InTheirPlaces(r: Router)
    requires Inv(r) && forall t :: t in r.refs ==> r.refs[t].place.InPool?
    ensures forall t :: t in r.refs ==> r.refs[t].place.seqNo in r.pool
  {
  }

  lemma NoRefs(r: Router)
    requires Inv(r) && r.pool == map[] && forall t :: t in r.refs ==> r.refs[t].place.InPool?
    ensures r.refs == map[]
  {
    InTheirPlaces(r);
    assert r.refs.Keys == {};
  }
}
