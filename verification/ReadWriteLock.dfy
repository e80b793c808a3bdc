/** The writer-first read/write lock built from one mutex and two counting semaphores. */
module ReadWriteLock {
  // Every section run under the mutex is one atomic step; every wait on a semaphore is another.

  /** The three counters the mutex protects and the counts of the two semaphores. */
  datatype Counters = Counters(
    access: int,
    readerQueue: nat,
    writerQueue: nat,
    readerTokens: nat,
    writerTokens: nat)

  const IDLE := Counters(0, 0, 0, 0, 0)

  /** What a mutex section leaves behind: the counters, and the boolean it computed. */
  datatype Outcome = Outcome(counters: Counters, flag: bool)

  /** Mutex section of ReaderLock; the flag says that the caller must wait for a token. */
  function EnterReader(c: Counters): Outcome {
    var pending := c.access < 0 || c.writerQueue > 0;
    if pending then Outcome(c.(readerQueue := c.readerQueue + 1), true)
    else Outcome(c.(access := c.access + 1), false)
  }

  /** Mutex section of WriterLock; the flag says that the caller must wait for a token. */
  function EnterWriter(c: Counters): Outcome {
    var pending := c.access != 0;
    if pending then Outcome(c.(writerQueue := c.writerQueue + 1), true)
    else Outcome(c.(access := c.access - 1), false)
  }

  /** TryReaderLock; the flag says that access was granted. */
  function TryReader(c: Counters): Outcome {
    if c.access >= 0 && c.writerQueue == 0 then Outcome(c.(access := c.access + 1), true)
    else Outcome(c, false)
  }

  /** TryWriterLock; the flag says that access was granted. */
  function TryWriter(c: Counters): Outcome {
    if c.access == 0 then Outcome(c.(access := c.access - 1), true) else Outcome(c, false)
  }

  /** Unlock: leave, then hand the lock to one queued writer or else to all queued readers. */
  function Leave(c: Counters): Counters {
    var access := if c.access > 0 then c.access - 1 else c.access + 1;
    if access != 0 then c.(access := access)
    else if c.writerQueue > 0 then
      c.(access := -1, writerQueue := c.writerQueue - 1, writerTokens := c.writerTokens + 1)
    else if c.readerQueue > 0 then
      c.(access := c.readerQueue, readerQueue := 0, readerTokens := c.readerTokens + c.readerQueue)
    else c.(access := 0)
  }

  /** The lock object. A method is one mutex section or one wait that does not block. */
  class Lock {
    var access: int
    var readerQueue: nat
    var writerQueue: nat
    var readerTokens: nat
    var writerTokens: nat

    ghost function Now(): Counters
      reads this
    {
      Counters(access, readerQueue, writerQueue, readerTokens, writerTokens)
    }

    constructor ()
      ensures Now() == IDLE
    {
      access, readerQueue, writerQueue, readerTokens, writerTokens := 0, 0, 0, 0, 0;
    }

    method ReaderLock() returns (pending: bool)
      modifies this
      ensures Outcome(Now(), pending) == EnterReader(old(Now()))
    {
      pending := access < 0 || writerQueue > 0;
      if pending {
        readerQueue := readerQueue + 1;
      } else {
        access := access + 1;
      }
    }

    method WriterLock() returns (pending: bool)
      modifies this
      ensures Outcome(Now(), pending) == EnterWriter(old(Now()))
    {
      pending := access != 0;
      if pending {
        writerQueue := writerQueue + 1;
      } else {
        access := access - 1;
      }
    }

    method TryReaderLock() returns (granted: bool)
      modifies this
      ensures Outcome(Now(), granted) == TryReader(old(Now()))
    {
      granted := false;
      if access >= 0 && writerQueue == 0 {
        access := access + 1;
        granted := true;
      }
    }

    method TryWriterLock() returns (granted: bool)
      modifies this
      ensures Outcome(Now(), granted) == TryWriter(old(Now()))
    {
      granted := false;
      if access == 0 {
        access := access - 1;
        granted := true;
      }
    }

    /** The wait on the readers' semaphore, at the moment it is let through. */
    method TakeReaderToken()
      requires readerTokens > 0
      modifies this`readerTokens
      ensures readerTokens == old(readerTokens) - 1
    {
      readerTokens := readerTokens - 1;
    }

    /** The wait on the writers' semaphore, at the moment it is let through. */
    method TakeWriterToken()
      requires writerTokens > 0
      modifies this`writerTokens
      ensures writerTokens == old(writerTokens) - 1
    {
      writerTokens := writerTokens - 1;
    }

    method Unlock()
      modifies this
      ensures Now() == Leave(old(Now()))
    {
      if access > 0 {
        access := access - 1;
      } else {
        access := access + 1;
      }
      if access == 0 {
        if writerQueue > 0 {
          access := access - 1;
          writerQueue := writerQueue - 1;
          writerTokens := writerTokens + 1;
        } else if readerQueue > 0 {
          access := readerQueue;
          readerQueue := 0;
          readerTokens := readerTokens + access;
        }
      }
    }
  }

  // ----- many threads -----

  type Thread = nat

  datatype Phase = Outside | WaitsToRead | WaitsToWrite | Reading | Writing

  datatype System = System(counters: Counters, phase: map<Thread, Phase>)

  datatype Event =
    | ReaderLock(t: Thread)
    | WriterLock(t: Thread)
    | TryReaderLock(t: Thread)
    | TryWriterLock(t: Thread)
    | TakeReaderToken(t: Thread)
    | TakeWriterToken(t: Thread)
    | Unlock(t: Thread)

  function Initial(threads: set<Thread>): System {
    System(IDLE, map t | t in threads :: Outside)
  }

  /** A thread asks only from outside, waits only when queued, and unlocks only what it holds. */
  predicate Enabled(s: System, e: Event) {
    && e.t in s.phase
    && match e
       case ReaderLock(t) => s.phase[t] == Outside
       case WriterLock(t) => s.phase[t] == Outside
       case TryReaderLock(t) => s.phase[t] == Outside
       case TryWriterLock(t) => s.phase[t] == Outside
       case TakeReaderToken(t) => s.phase[t] == WaitsToRead && s.counters.readerTokens > 0
       case TakeWriterToken(t) => s.phase[t] == WaitsToWrite && s.counters.writerTokens > 0
       case Unlock(t) => s.phase[t] == Reading || s.phase[t] == Writing
  }

  /** One step; a step that is not enabled (a blocked thread) changes nothing. */
  function Step(s: System, e: Event): System {
    if !Enabled(s, e) then s else
    match e
    case ReaderLock(t) =>
      var o := EnterReader(s.counters);
      System(o.counters, s.phase[t := if o.flag then WaitsToRead else Reading])
    case WriterLock(t) =>
      var o := EnterWriter(s.counters);
      System(o.counters, s.phase[t := if o.flag then WaitsToWrite else Writing])
    case TryReaderLock(t) =>
      var o := TryReader(s.counters);
      System(o.counters, s.phase[t := if o.flag then Reading else Outside])
    case TryWriterLock(t) =>
      var o := TryWriter(s.counters);
      System(o.counters, s.phase[t := if o.flag then Writing else Outside])
    case TakeReaderToken(t) =>
      System(s.counters.(readerTokens := s.counters.readerTokens - 1), s.phase[t := Reading])
    case TakeWriterToken(t) =>
      System(s.counters.(writerTokens := s.counters.writerTokens - 1), s.phase[t := Writing])
    case Unlock(t) =>
      System(Leave(s.counters), s.phase[t := Outside])
  }

  function Run(s: System, events: seq<Event>): System {
    if events == [] then s else Step(Run(s, events[..|events| - 1]), events[|events| - 1])
  }

  /** The threads in phase `p`. */
  ghost function In(s: System, p: Phase): set<Thread> {
    set t | t in s.phase && s.phase[t] == p
  }

  /** Readers inside plus readers granted a token they have not taken yet; likewise for writers. */
  ghost function Readers(s: System): nat { |In(s, Reading)| + s.counters.readerTokens }

  ghost function Writers(s: System): nat { |In(s, Writing)| + s.counters.writerTokens }

  /** Token conservation. */
  ghost predicate Conserved(s: System) {
    && Writers(s) <= 1
    && (s.counters.access == -1 <==> Writers(s) == 1)
    && (s.counters.access != -1 ==> s.counters.access == Readers(s))
    && (s.counters.access == -1 ==> Readers(s) == 0)
    && |In(s, WaitsToRead)| == s.counters.readerQueue + s.counters.readerTokens
    && |In(s, WaitsToWrite)| == s.counters.writerQueue + s.counters.writerTokens
  }

  /** No grant is lost: nobody queues at a free lock, and readers queue behind readers only for a writer. */
  ghost predicate NothingLost(s: System) {
    && (s.counters.access == 0 ==> s.counters.readerQueue == 0 && s.counters.writerQueue == 0)
    && (s.counters.access > 0 && s.counters.readerQueue > 0 ==> s.counters.writerQueue > 0)
  }

  ghost predicate Inv(s: System) { Conserved(s) && NothingLost(s) }

  lemma Moved(s: System, c: Counters, t: Thread, q: Phase, p: Phase)
    requires t in s.phase
    ensures var s' := System(c, s.phase[t := q]);
      |In(s', p)| == |In(s, p)| + (if q == p then 1 else 0) - (if s.phase[t] == p then 1 else 0)
  {
    var s' := System(c, s.phase[t := q]);
    OthersStay(s, c, t, q, p);
    SplitOff(In(s, p), t);
    SplitOff(In(s', p), t);
  }

  lemma OthersStay(s: System, c: Counters, t: Thread, q: Phase, p: Phase)
    requires t in s.phase
    ensures In(System(c, s.phase[t := q]), p) - {t} == In(s, p) - {t}
    ensures t in In(System(c, s.phase[t := q]), p) <==> q == p
  {
  }

  lemma SplitOff(a: set<Thread>, t: Thread)
    ensures |a - {t}| == |a| - if t in a then 1 else 0
  {
    if t !in a {
      assert a - {t} == a;
    }
  }

  lemma MovedAll(s: System, c: Counters, t: Thread, q: Phase)
    requires t in s.phase
    ensures var s' := System(c, s.phase[t := q]);
      forall p :: |In(s', p)| == |In(s, p)| + (if q == p then 1 else 0) - (if s.phase[t] == p then 1 else 0)
  {
    forall p { Moved(s, c, t, q, p); }
  }

  lemma Present(s: System, t: Thread)
    requires t in s.phase
    ensures |In(s, s.phase[t])| >= 1
  {
    assert t in In(s, s.phase[t]);
  }

  lemma TwoInPhase(s: System, t: Thread, u: Thread)
    requires t != u && t in s.phase && u in s.phase && s.phase[t] == s.phase[u]
    ensures |In(s, s.phase[t])| >= 2
  {
    SplitOff(In(s, s.phase[t]), t);
    assert u in In(s, s.phase[t]) - {t};
  }

  /** Every step of every thread keeps conservation and loses no grant. */
  lemma StepKeepsInv(s: System, e: Event)
    requires Inv(s)
    ensures Inv(Step(s, e))
  {
    if Enabled(s, e) {
      var s' := Step(s, e);
      Present(s, e.t);
      MovedAll(s, s'.counters, e.t, s'.phase[e.t]);
    }
  }

  lemma {:induction false} RunKeepsInv(threads: set<Thread>, events: seq<Event>)
    ensures Inv(Run(Initial(threads), events))
  {
    var s := Initial(threads);
    if events == [] {
      assert forall p :: p != Outside ==> In(s, p) == {};
    } else {
      RunKeepsInv(threads, events[..|events| - 1]);
      StepKeepsInv(Run(s, events[..|events| - 1]), events[|events| - 1]);
    }
  }

  /** Exclusion, in every run: a writer inside is alone, and no token is out for anybody else. */
  lemma WriterIsAlone(threads: set<Thread>, events: seq<Event>, w: Thread)
    requires w in Run(Initial(threads), events).phase
    requires Run(Initial(threads), events).phase[w] == Writing
    ensures var s := Run(Initial(threads), events);
      && (forall t :: t in s.phase && t != w ==> s.phase[t] != Writing && s.phase[t] != Reading)
      && s.counters.readerTokens == 0 && s.counters.writerTokens == 0
      && s.counters.access == -1
  {
    var s := Run(Initial(threads), events);
    RunKeepsInv(threads, events);
    Present(s, w);
    forall t | t in s.phase && t != w ensures s.phase[t] != Writing && s.phase[t] != Reading {
      Present(s, t);
      if s.phase[t] == Writing {
        TwoInPhase(s, w, t);
      }
    }
  }

  /** No deadlock, in every run: whoever waits, somebody holds the lock or a token can be taken. */
  lemma SomebodyCanMove(threads: set<Thread>, events: seq<Event>, w: Thread)
    requires w in Run(Initial(threads), events).phase
    requires Run(Initial(threads), events).phase[w] in {WaitsToRead, WaitsToWrite}
    ensures var s := Run(Initial(threads), events);
      exists e :: Enabled(s, e) && (e.Unlock? || e.TakeReaderToken? || e.TakeWriterToken?)
  {
    var s := Run(Initial(threads), events);
    RunKeepsInv(threads, events);
    Present(s, w);
    if s.counters.readerTokens > 0 {
      var t :| t in In(s, WaitsToRead);
      assert Enabled(s, TakeReaderToken(t));
    } else if s.counters.writerTokens > 0 {
      var t :| t in In(s, WaitsToWrite);
      assert Enabled(s, TakeWriterToken(t));
    } else if In(s, Reading) != {} {
      var t :| t in In(s, Reading);
      assert Enabled(s, Unlock(t));
    } else {
      var t :| t in In(s, Writing);
      assert Enabled(s, Unlock(t));
    }
  }

  /** Writer first, in every run: while a writer is queued no step of any thread grants a reader. */
  lemma QueuedWriterStopsReaders(threads: set<Thread>, events: seq<Event>, e: Event)
    requires Run(Initial(threads), events).counters.writerQueue > 0
    ensures Readers(Step(Run(Initial(threads), events), e)) <= Readers(Run(Initial(threads), events))
  {
    var s := Run(Initial(threads), events);
    RunKeepsInv(threads, events);
    if Enabled(s, e) {
      var s' := Step(s, e);
      Present(s, e.t);
      MovedAll(s, s'.counters, e.t, s'.phase[e.t]);
    }
  }

  // ----- who enters at once -----

  /** No writer is inside or on its way in, and none waits. */
  ghost predicate OpenToReaders(s: System) { Writers(s) == 0 && In(s, WaitsToWrite) == {} }

  /** Nobody is inside or on the way in. */
  ghost predicate Free(s: System) { Readers(s) == 0 && Writers(s) == 0 }

  lemma NobodyIn(s: System, p: Phase)
    ensures In(s, p) == {} <==> |In(s, p)| == 0
  {
  }

  /** In every run a reader enters at once, by either call, if and only if no writer is inside or waits. */
  lemma ReaderEntersExactly(threads: set<Thread>, events: seq<Event>, t: Thread)
    requires t in Run(Initial(threads), events).phase && Run(Initial(threads), events).phase[t] == Outside
    ensures var s := Run(Initial(threads), events);
      && (Step(s, TryReaderLock(t)).phase[t] == Reading <==> OpenToReaders(s))
      && (Step(s, ReaderLock(t)).phase[t] == Reading <==> OpenToReaders(s))
  {
    RunKeepsInv(threads, events);
    NobodyIn(Run(Initial(threads), events), WaitsToWrite);
  }

  /** A writer does if and only if the lock is free. */
  lemma WriterEntersExactly(threads: set<Thread>, events: seq<Event>, t: Thread)
    requires t in Run(Initial(threads), events).phase && Run(Initial(threads), events).phase[t] == Outside
    ensures var s := Run(Initial(threads), events);
      && (Step(s, TryWriterLock(t)).phase[t] == Writing <==> Free(s))
      && (Step(s, WriterLock(t)).phase[t] == Writing <==> Free(s))
  {
    RunKeepsInv(threads, events);
  }

  /** Whoever does not enter waits, or leaves everything as it was if it only tried. */
  lemma WhoeverIsRefused(threads: set<Thread>, events: seq<Event>, t: Thread)
    requires t in Run(Initial(threads), events).phase && Run(Initial(threads), events).phase[t] == Outside
    ensures var s := Run(Initial(threads), events);
      && (!OpenToReaders(s) ==> Step(s, TryReaderLock(t)) == s && Step(s, ReaderLock(t)).phase[t] == WaitsToRead)
      && (!Free(s) ==> Step(s, TryWriterLock(t)) == s && Step(s, WriterLock(t)).phase[t] == WaitsToWrite)
  {
    var s := Run(Initial(threads), events);
    RunKeepsInv(threads, events);
    NobodyIn(s, WaitsToWrite);
    assert s.phase[t := Outside] == s.phase;
  }

  /** The last one out lets exactly one waiting writer in, or if none waits every waiting reader; nobody else moves. */
  lemma UnlockHandsOver(threads: set<Thread>, events: seq<Event>, t: Thread)
    requires t in Run(Initial(threads), events).phase
    requires Run(Initial(threads), events).phase[t] == Reading || Run(Initial(threads), events).phase[t] == Writing
    ensures var s := Run(Initial(threads), events); var s' := Step(s, Unlock(t));
      && s'.phase == s.phase[t := Outside]
      && (Readers(s) + Writers(s) > 1 ==> s'.counters.readerTokens == s.counters.readerTokens
                                          && s'.counters.writerTokens == 0)
      && (Readers(s) + Writers(s) == 1 && In(s, WaitsToWrite) != {} ==>
            s'.counters.writerTokens == 1 && s'.counters.readerTokens == 0)
      && (Readers(s) + Writers(s) == 1 && In(s, WaitsToWrite) == {} ==>
            s'.counters.writerTokens == 0 && s'.counters.readerTokens == |In(s, WaitsToRead)|)
  {
    var s := Run(Initial(threads), events);
    RunKeepsInv(threads, events);
    Present(s, t);
    NobodyIn(s, WaitsToWrite);
  }

  /** Unlock as the code runs it, whatever phase the caller is in. */
  function UnlockAnyhow(s: System, t: Thread): System
    requires t in s.phase
  {
    System(Leave(s.counters),
           s.phase[t := if s.phase[t] == Reading || s.phase[t] == Writing then Outside else s.phase[t]])
  }

  /** "Unlock only what you hold" is exactly what the lock needs: any other Unlock breaks conservation. */
  lemma UnlockNeedsHolder(s: System, t: Thread)
    requires Inv(s) && t in s.phase
    ensures Inv(UnlockAnyhow(s, t)) <==> s.phase[t] == Reading || s.phase[t] == Writing
  {
    var s' := UnlockAnyhow(s, t);
    MovedAll(s, s'.counters, t, s'.phase[t]);
    if s.phase[t] == Reading || s.phase[t] == Writing {
      assert s' == Step(s, Unlock(t));
      StepKeepsInv(s, Unlock(t));
    }
  }
}
