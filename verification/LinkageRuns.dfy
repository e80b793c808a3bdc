/** What holds in every state a linkage can reach. */
module LinkageRuns {
  // `Keeps` collects what no call and no callback ever undoes. It is shown for each operation and composed along
  // the way a call takes through the source.

  import opened Basics
  import opened Framing
  import opened LinkageSpec

  // ----- what is kept -----

  /** The send buffer is bounded, and a retry never reaches past its end. */
  ghost predicate Sound(o: Out) {
    |o.wbuffer| <= MAX_BYTES && (o.lastWriting <= |o.wbuffer| || Quiet(o))
  }

  /** Hanging up with nothing left to write. */
  ghost predicate Quiet(o: Out) { o.graceful && o.wbuffer == [] }

  /** The bytes the I/O layer took in the first `n` writes. */
  ghost function Taken(log: seq<Attempt>, n: nat): Bytes
    requires n <= |log|
  {
    if n == 0 then []
    else Taken(log, n - 1) + if log[n - 1].taken <= |log[n - 1].data| then log[n - 1].data[..log[n - 1].taken] else []
  }

  /** Bytes taken and bytes queued are the bytes promised, in order. */
  ghost predicate Conserved(o: Out) { !o.dumped ==> o.promised == Taken(o.log, |o.log|) + o.wbuffer }

  /** A write the I/O layer left incomplete is followed by one of the same bytes. */
  ghost predicate RetriesExact(log: seq<Attempt>) {
    forall k {:trigger log[k]} :: 0 <= k < |log| - 1 && Incomplete(log[k].status) ==> log[k + 1].data == log[k].data
  }

  /** The last write is incomplete. */
  ghost predicate Hanging(o: Out) { o.log != [] && Incomplete(o.log[|o.log| - 1].status) }

  /** An incomplete write is remembered with its length until it is tried again or dropped. */
  ghost predicate Owed(o: Out) {
    Hanging(o) && !Quiet(o) ==>
      0 < o.lastWriting <= |o.wbuffer| && o.wbuffer[..o.lastWriting] == o.log[|o.log| - 1].data
  }

  ghost predicate Faithful(o: Out) { Conserved(o) && RetriesExact(o.log) && Owed(o) }

  /** An attached linkage has a watcher on. */
  ghost predicate Awake(o: Out) { o.watch.On? ==> o.watch.r || o.watch.w }

  /** Unsent bytes and no action pending: the write watcher is on. */
  ghost predicate Flowing(o: Out) { o.watch.On? && o.action.NoAction? && o.wbuffer != [] ==> o.watch.w }

  /** Once quiet, a linkage stays quiet and writes no more. */
  ghost predicate Frozen(o: Out, o': Out) { Quiet(o) ==> Quiet(o') && o'.log == o.log }

  /** What survives every step; `modest` tells that no send in it exceeds 64 MiB. */
  ghost predicate Remembers(o: Out, o': Out, modest: bool) {
    && (Sound(o) ==> Sound(o'))
    && (Sound(o) && Faithful(o) && modest ==> Faithful(o'))
    && Frozen(o, o')
    && (o.graceful ==> o'.graceful)
  }

  /** While it stays attached, its watchers are kept as well. */
  ghost predicate Keeps(o: Out, o': Out, modest: bool) {
    && Remembers(o, o', modest)
    && (Awake(o) ==> Awake(o'))
    && o'.watch.Off? == o.watch.Off?
  }

  lemma KeepsOn(a: Out, b: Out, c: Out, modest: bool)
    requires Keeps(a, b, modest) && Keeps(b, c, modest)
    ensures Keeps(a, c, modest)
  {
  }

  ghost predicate ModestBytes(data: Bytes) { |data| <= MAX_BYTES }

  ghost predicate ModestOp(op: Op) { op.Send? ==> ModestBytes(op.data) }

  /** A handler that never sends more than 64 MiB at once. */
  ghost predicate Modest(h: Handler) { forall past: seq<Told> :: ModestAt(h, past) }

  ghost predicate ModestAt(h: Handler, past: seq<Told>) {
    forall k :: 0 <= k < |h.react(past).ops| ==> ModestOp(h.react(past).ops[k])
  }

  // ----- one write -----

  lemma {:induction false} TakenPrefix(log: seq<Attempt>, more: seq<Attempt>, n: nat)
    requires n <= |log|
    ensures Taken(log + more, n) == Taken(log, n)
  {
    if n > 0 {
      TakenPrefix(log, more, n - 1);
    }
  }

  lemma TakenOne(log: seq<Attempt>, a: Attempt)
    requires a.taken <= |a.data|
    ensures Taken(log + [a], |log| + 1) == Taken(log, |log|) + a.data[..a.taken]
  {
    TakenPrefix(log, [a], |log|);
  }

  lemma TakeDrop(a: Bytes, n: nat)
    requires n <= |a|
    ensures a[..n] + a[n..] == a
  {
  }

  /** A write of what is owed, or with nothing owed, keeps the retries exact. */
  lemma OneMoreWrite(o: Out, data: Bytes)
    requires RetriesExact(o.log) && (Hanging(o) ==> data == o.log[|o.log| - 1].data)
    ensures RetriesExact(AfterWrite(o, data).log)
    ensures Taken(AfterWrite(o, data).log, |o.log| + 1) == Taken(o.log, |o.log|) + data[..Tried(o.script, data).taken]
  {
    TakenOne(o.log, Tried(o.script, data));
  }

  // ----- sending -----

  /** A send that writes at once: attached, open, nothing pending and nothing queued. */
  ghost predicate Direct(o: Out, data: Bytes) {
    o.watch.On? && !o.graceful && o.action.NoAction? && o.wbuffer == [] && data != []
  }

  /** What a direct send did to the bytes: those it wrote and those it queued are its own, in order. */
  ghost predicate Wrote(o: Out, data: Bytes, o': Out, ok: bool) {
    var a := Tried(o.script, data);
    && o'.log == o.log + [a]
    && o'.wbuffer == (if ok then data[a.taken..] else [])
    && (!ok && ModestBytes(data) ==> a.taken == 0)
    && o'.dumped == o.dumped && !o'.graceful && |o'.wbuffer| <= MAX_BYTES
    && (Incomplete(a.status) && ModestBytes(data) ==> ok && o'.lastWriting == |data|)
    && (o'.lastWriting == o.lastWriting || o'.lastWriting == |o'.wbuffer|)
  }

  lemma SendNowWrites(o: Out, data: Bytes)
    requires Direct(o, data)
    ensures Wrote(o, data, SendNow(o, data).out, SendNow(o, data).ok)
    ensures SendNow(o, data).out.promised == o.promised
  {
    var a, o' := Tried(o.script, data), AfterWrite(o, data);
    assert data[0..] == data;
    QueueEmpty(o', data);
    QueueEmpty(o', data[a.taken..]);
  }

  lemma QueueEmpty(o: Out, data: Bytes)
    requires o.wbuffer == []
    ensures Queue(o, data) == if ModestBytes(data) then Sent(o.(wbuffer := data), true) else Sent(o, false)
  {
    assert [] + data == data;
  }

  lemma SendNowWatches(o: Out, data: Bytes)
    requires Direct(o, data)
    ensures var o' := SendNow(o, data).out;
      && (Awake(o) ==> Awake(o')) && Flowing(o') && o'.watch.On?
  {
  }

  lemma WroteIsFaithful(o: Out, data: Bytes, o': Out, ok: bool)
    requires Direct(o, data) && Wrote(o, data, o', ok) && ModestBytes(data) && Faithful(o)
    requires o'.promised == if ok then o.promised + data else o.promised
    ensures Faithful(o')
  {
    var a, wire := Tried(o.script, data), Taken(o.log, |o.log|);
    OneMoreWrite(o, data);
    assert o'.log == AfterWrite(o, data).log;
    assert Taken(o'.log, |o'.log|) == wire + data[..a.taken];
    assert wire + [] == wire && data[..0] == [];
    TakeDrop(data, a.taken);
    Assoc(wire, data[..a.taken], data[a.taken..]);
    assert data[0..] == data && data[..|data|] == data;
  }

  lemma QueueKeeps(o: Out, data: Bytes)
    requires !o.graceful && (o.wbuffer != [] || !o.action.NoAction?)
    ensures var s := Queue(o, data);
      Keeps(o, if s.ok then s.out.(promised := o.promised + data) else s.out, true)
    ensures Flowing(o) ==> Flowing(Queue(o, data).out)
  {
    Assoc(Taken(o.log, |o.log|), o.wbuffer, data);
    if o.lastWriting <= |o.wbuffer| {
      assert (o.wbuffer + data)[..o.lastWriting] == o.wbuffer[..o.lastWriting];
    }
  }

  lemma SendKeeps(o: Out, data: Bytes)
    ensures Keeps(o, SendSpec(o, data).out, ModestBytes(data))
    ensures Flowing(o) ==> Flowing(SendSpec(o, data).out)
  {
    var s := SendSpec(o, data);
    if |data| > INT_MAX || o.watch.Off? || o.graceful {
    } else if data == [] {
      assert o.promised + [] == o.promised;
    } else if !o.action.NoAction? || o.wbuffer != [] {
      QueueKeeps(o, data);
    } else {
      SendNowWrites(o, data);
      SendNowWatches(o, data);
      assert Wrote(o, data, s.out, s.ok);
      if Sound(o) && Faithful(o) && ModestBytes(data) {
        WroteIsFaithful(o, data, s.out, s.ok);
      }
    }
  }

  // ----- hanging up -----

  lemma ShutdownKeeps(o: Out, modest: bool)
    ensures Keeps(o, ShutdownOnce(o).out, modest)
    ensures Awake(ShutdownOnce(o).out)
    ensures ShutdownOnce(o).out.graceful
  {
  }

  lemma IdleKeeps(o: Out, modest: bool)
    ensures Keeps(o, Idle(o), modest) && Flowing(Idle(o))
    ensures o.action.NoAction? ==> Awake(Idle(o))
  {
  }

  lemma DisconnectKeeps(o: Out, finish: bool, modest: bool)
    ensures Keeps(o, DisconnectSpec(o, finish).out, modest)
    ensures Flowing(o) ==> Flowing(DisconnectSpec(o, finish).out)
    ensures DisconnectSpec(o, finish).out.graceful && (!finish ==> Quiet(DisconnectSpec(o, finish).out))
  {
    var o' := if finish then o.(graceful := true) else o.(graceful := true, wbuffer := [], dumped := true);
    assert Keeps(o, o', modest);
    if o.action.NoAction? {
      HangupKeeps(o', modest);
      KeepsOn(o, o', Hangup(o').out, modest);
    }
  }

  lemma HangupKeeps(o: Out, modest: bool)
    requires o.graceful
    ensures Keeps(o, Hangup(o).out, modest) && Flowing(Hangup(o).out)
    ensures Hangup(o).out.graceful && Hangup(o).out.wbuffer == o.wbuffer
  {
    var o' := ShutdownOnce(o).out;
    ShutdownKeeps(o, modest);
    IdleKeeps(o', modest);
    KeepsOn(o, o', Idle(o'), modest);
  }

  // ----- what a handler does -----

  lemma OpKeeps(o: Out, op: Op)
    ensures Keeps(o, OpSpec(o, op), ModestOp(op))
    ensures Flowing(o) ==> Flowing(OpSpec(o, op))
  {
    match op
    case Send(data) => SendKeeps(o, data);
    case Disconnect(finish) => DisconnectKeeps(o, finish, true);
  }

  lemma {:induction false} OpsKeep(o: Out, ops: seq<Op>, n: nat, modest: bool)
    requires n <= |ops| && (modest ==> forall k :: 0 <= k < |ops| ==> ModestOp(ops[k]))
    ensures Keeps(o, OpsSpec(o, ops, n), modest)
    ensures Flowing(o) ==> Flowing(OpsSpec(o, ops, n))
  {
    if n > 0 {
      var o' := OpsSpec(o, ops, n - 1);
      OpsKeep(o, ops, n - 1, modest);
      OpKeeps(o', ops[n - 1]);
      KeepsOn(o, o', OpSpec(o', ops[n - 1]), modest);
    }
  }

  lemma TellKeeps(h: Handler, o: Out, past: seq<Told>, modest: bool)
    requires modest ==> Modest(h)
    ensures Keeps(o, Tell(h, o, past), modest)
    ensures Flowing(o) ==> Flowing(Tell(h, o, past))
  {
    var o', ops := o.(past := past), h.react(past).ops;
    assert modest ==> ModestAt(h, past);
    OpsKeep(o', ops, |ops|, modest);
    assert Keeps(o, o', modest);
    KeepsOn(o, o', OpsSpec(o', ops, |ops|), modest);
  }

  lemma {:induction false} TellAllKeeps(h: Handler, o: Out, past: seq<Told>, modest: bool)
    requires |o.past| <= |past| && (modest ==> Modest(h))
    ensures Keeps(o, TellAll(h, o, past), modest)
    decreases |past|
  {
    if |past| > |o.past| {
      var init := past[..|past| - 1];
      var o' := TellAll(h, o, init);
      TellAllKeeps(h, o, init, modest);
      TellKeeps(h, o', past, modest);
      KeepsOn(o, o', Tell(h, o', past), modest);
    }
  }

  lemma ConnectedKeeps(h: Handler, o: Out, modest: bool)
    requires modest ==> Modest(h)
    ensures var o' := ConnectedSpec(h, o).out;
      Keeps(o, o', modest) && Awake(o') && Flowing(o')
  {
    var o1 := SetWanna(o, true, o.wbuffer != []).(action := NoAction, heard := o.heard + [[]]);
    var past := o.past + [Connected];
    assert Keeps(o, o1, modest) && Awake(o1) && Flowing(o1);
    TellKeeps(h, o1, past, modest);
    KeepsOn(o, o1, Tell(h, o1, past), modest);
  }

  // ----- one turn of an event -----

  lemma EndedKeeps(o: Out, action: Action, s: Status, modest: bool)
    ensures Keeps(o, Ended(o, action, s).out, modest)
    ensures Ended(o, action, s).ret > 0 && !s.Ok? ==> Awake(Ended(o, action, s).out)
  {
  }

  /** The receive buffer of a linkage that still takes messages. */
  ghost predicate Receiving(o: Out, i: Inbox) { Held(i) || o.graceful }

  lemma ArrivalHolds(h: Handler, o: Out, i: Inbox, chunk: Bytes)
    requires Receiving(o, i)
    ensures var r := Arrival(h, o, i, chunk); r.outcome > 0 ==> Receiving(o, r.inbox)
  {
    if Held(i) && chunk != [] {
      ReceiveIsFraming(h, o.past, i, chunk);
    }
  }

  lemma ReadHolds(h: Handler, o: Out, i: Inbox)
    requires Receiving(o, i) && Keeps(o, ReadOnce(h, o, i).out, false)
    ensures var t := ReadOnce(h, o, i);
      t.ret > 0 ==> Receiving(t.out, t.inbox) || t.next.Shutdown?
  {
    var reply := NextReply(o.script);
    var o' := o.(script := RestOf(o.script));
    ArrivalHolds(h, o', i, reply.bytes);
  }

  lemma ReadKeeps(h: Handler, o: Out, i: Inbox, modest: bool)
    requires modest ==> Modest(h)
    ensures Keeps(o, ReadOnce(h, o, i).out, modest)
  {
    var reply := NextReply(o.script);
    var o' := o.(script := RestOf(o.script));
    if reply.status.Ok? {
      var r := Arrival(h, o', i, reply.bytes);
      var o1 := o'.(action := NoAction);
      var o2 := o1.(heard := if o.graceful then o.heard else Hear(o.heard, reply.bytes));
      assert Keeps(o, o2, modest);
      TellAllKeeps(h, o2, r.past, modest);
      KeepsOn(o, o2, TellAll(h, o2, r.past), modest);
    } else {
      assert Keeps(o, o', modest);
      EndedKeeps(o', Read, reply.status, modest);
      KeepsOn(o, o', Ended(o', Read, reply.status).out, modest);
    }
  }

  /** What a write event did to the bytes: it wrote a prefix of the queue and dropped what was taken. */
  ghost predicate Flushed(o: Out, data: Bytes, o': Out) {
    var a := Tried(o.script, data);
    && data != [] && |data| <= |o.wbuffer| && data == o.wbuffer[..|data|]
    && o'.log == o.log + [a] && o'.wbuffer == o.wbuffer[a.taken..]
    && o'.dumped == o.dumped && o'.promised == o.promised && o'.graceful == o.graceful
    && o'.lastWriting == (if Incomplete(a.status) then |data| else 0)
  }

  lemma WriteFlushes(o: Out, i: Inbox)
    requires o.wbuffer != []
    ensures Flushed(o, Picked(o), WriteOnce(o, i).out)
    ensures WriteOnce(o, i).out.watch.Off? == o.watch.Off?
  {
    assert o.wbuffer[0..] == o.wbuffer && o.wbuffer[..|o.wbuffer|] == o.wbuffer;
  }

  lemma FlushedIsFaithful(o: Out, o': Out)
    requires Sound(o) && Faithful(o) && Flushed(o, Picked(o), o') && !Quiet(o)
    ensures Faithful(o')
  {
    var data := Picked(o);
    var a, wire := Tried(o.script, data), Taken(o.log, |o.log|);
    OneMoreWrite(o, data);
    assert o'.log == AfterWrite(o, data).log;
    TakeDrop(o.wbuffer, a.taken);
    Assoc(wire, data[..a.taken], o'.wbuffer);
    assert data[..a.taken] == o.wbuffer[..a.taken];
    assert o.wbuffer[0..] == o.wbuffer;
  }

  lemma WriteKeeps(o: Out, i: Inbox, modest: bool)
    ensures Keeps(o, WriteOnce(o, i).out, modest)
  {
    if o.wbuffer != [] {
      WriteFlushes(o, i);
      var o' := WriteOnce(o, i).out;
      WriteAwake(o, i);
      if Sound(o) && Faithful(o) {
        FlushedIsFaithful(o, o');
      }
    }
  }

  lemma WriteAwake(o: Out, i: Inbox)
    ensures Awake(o) ==> Awake(WriteOnce(o, i).out)
  {
  }

  lemma HandshakeKeeps(h: Handler, o: Out, i: Inbox, action: Action, modest: bool)
    requires modest ==> Modest(h)
    ensures var t := HandshakeOnce(h, o, i, action);
      && Keeps(o, t.out, modest) && (t.ret > 0 ==> Awake(t.out)) && t.inbox == i
  {
    var s := NextReply(o.script).status;
    var o' := o.(script := RestOf(o.script));
    assert Keeps(o, o', modest);
    if s.Ok? {
      ConnectedKeeps(h, o', modest);
      KeepsOn(o, o', ConnectedSpec(h, o').out, modest);
    } else {
      EndedKeeps(o', action, s, modest);
      KeepsOn(o, o', Ended(o', action, s).out, modest);
    }
  }

  /** One turn keeps what is kept, and leaves a receive buffer that can go on unless it is over. */
  lemma OnceKeeps(h: Handler, o: Out, i: Inbox, action: Action, modest: bool)
    requires modest ==> Modest(h)
    ensures Keeps(o, Once(h, o, i, action).out, modest)
  {
    match action
    case Read => ReadKeeps(h, o, i, modest);
    case Write => WriteKeeps(o, i, modest);
    case Accept => HandshakeKeeps(h, o, i, action, modest);
    case Connect => HandshakeKeeps(h, o, i, action, modest);
    case Shutdown => ShutdownKeeps(o, modest);
    case NoAction => EndedKeeps(o, action, Bug, modest);
  }

  lemma OnceHolds(h: Handler, o: Out, i: Inbox, action: Action)
    requires Receiving(o, i)
    ensures var t := Once(h, o, i, action);
      t.ret > 0 ==> Receiving(t.out, t.inbox) || t.next.Shutdown?
  {
    OnceKeeps(h, o, i, action, false);
    if action.Read? {
      ReadHolds(h, o, i);
    }
  }

  /** A whole event keeps what is kept. */
  lemma {:induction false} LoopKeeps(h: Handler, o: Out, i: Inbox, action: Action, modest: bool)
    requires modest ==> Modest(h)
    ensures Keeps(o, LoopSpec(h, o, i, action).out, modest)
    decreases |o.script|, Rank(action)
  {
    var t := Once(h, o, i, action);
    OnceKeeps(h, o, i, action, modest);
    if !t.next.NoAction? {
      LoopKeeps(h, t.out, t.inbox, t.next, modest);
      KeepsOn(o, t.out, LoopSpec(h, t.out, t.inbox, t.next).out, modest);
    }
  }

  lemma ShutdownLoop(h: Handler, o: Out, i: Inbox)
    ensures LoopSpec(h, o, i, Shutdown) == Ends(ShutdownOnce(o), i)
  {
  }

  lemma {:induction false} LoopHolds(h: Handler, o: Out, i: Inbox, action: Action)
    requires Receiving(o, i)
    ensures var t := LoopSpec(h, o, i, action); t.ret > 0 ==> Receiving(t.out, t.inbox)
    decreases |o.script|, Rank(action)
  {
    var t := Once(h, o, i, action);
    OnceHolds(h, o, i, action);
    if t.next.Shutdown? {
      ShutdownLoop(h, t.out, t.inbox);
      ShutdownKeeps(t.out, false);
    } else if !t.next.NoAction? {
      OnceContinues(h, o, i, action);
      LoopHolds(h, t.out, t.inbox, t.next);
    }
  }

  /** The loop goes on only after a turn that answered with more. */
  lemma OnceContinues(h: Handler, o: Out, i: Inbox, action: Action)
    ensures !Once(h, o, i, action).next.NoAction? ==> Once(h, o, i, action).ret > 0
  {
  }

  lemma EventKeeps(h: Handler, o: Out, i: Inbox, idle: Action, modest: bool)
    requires modest ==> Modest(h)
    ensures var t := EventSpec(h, o, i, idle);
      && Keeps(o, t.out, modest) && Flowing(t.out)
      && (Receiving(o, i) && t.ret > 0 ==> Receiving(t.out, t.inbox))
  {
    var action := if o.action.NoAction? then idle else o.action;
    var t := LoopSpec(h, o, i, action);
    LoopKeeps(h, o, i, action, modest);
    IdleKeeps(t.out, modest);
    KeepsOn(o, t.out, Idle(t.out), modest);
    if Receiving(o, i) {
      LoopHolds(h, o, i, action);
    }
  }

  // ----- whole calls -----

  /** Setting the watchers or the pending action touches no byte. */
  lemma WatchRemembers(o: Out, w: Watch, a: Action, modest: bool)
    ensures Remembers(o, o.(watch := w, action := a), modest)
    ensures Remembers(o, o.(watch := w), modest)
  {
  }

  lemma RemembersOn(a: Out, b: Out, c: Out, modest: bool)
    requires Remembers(a, b, modest) && Remembers(b, c, modest)
    ensures Remembers(a, c, modest)
  {
  }

  /** What holds of a linkage between two calls. */
  ghost predicate Inv(s: State) {
    && Sound(s.out) && Awake(s.out) && Flowing(s.out)
    && (s.gone ==> s.out.watch.Off?)
    && (!s.gone ==> Receiving(s.out, s.inbox))
  }

  /** An event that starts with a handshake. */
  lemma HandshakeEvent(h: Handler, o: Out, i: Inbox, a: Action, modest: bool)
    requires (a.Accept? || a.Connect?) && o.action == a && (modest ==> Modest(h))
    ensures var t := EventSpec(h, o, i, a);
      && Remembers(o, t.out, modest) && t.inbox == i && Flowing(t.out) && (t.ret > 0 ==> Awake(t.out))
  {
    var t := HandshakeOnce(h, o, i, a);
    HandshakeKeeps(h, o, i, a, modest);
    assert LoopSpec(h, o, i, a) == t;
    IdleKeeps(t.out, modest);
    KeepsOn(o, t.out, Idle(t.out), modest);
  }

  lemma AttachKeeps(h: Handler, s: State, start: Start, modest: bool)
    requires GoodStart(start) && !s.gone && Inv(s) && (modest ==> Modest(h))
    ensures Remembers(s.out, AttachSpec(h, s, start).state.out, modest)
    ensures Inv(AttachSpec(h, s, start).state)
    ensures AttachSpec(h, s, start).ok == AttachSpec(h, s, start).state.out.watch.On?
  {
    if s.out.watch.Off? {
      match start
      case Refused =>
      case Established(r, w) =>
        AttachEstablished(h, s, r, w, modest);
      case Waiting(a, r, w) =>
        WatchRemembers(s.out, On(r, w), a, modest);
      case AtOnce(a, r, w) =>
        AttachAtOnce(h, s, a, r, w, modest);
    }
  }

  lemma AttachEstablished(h: Handler, s: State, r: bool, w: bool, modest: bool)
    requires !s.gone && s.out.watch.Off? && Inv(s) && (modest ==> Modest(h))
    ensures var s' := AttachSpec(h, s, Established(r, w));
      Remembers(s.out, s'.state.out, modest) && Inv(s'.state) && s'.ok == s'.state.out.watch.On?
  {
    var o := s.out.(watch := On(true, w));
    var d := ConnectedSpec(h, o);
    WatchRemembers(s.out, On(true, w), NoAction, modest);
    ConnectedKeeps(h, o, modest);
    RemembersOn(s.out, o, d.out, modest);
    WatchRemembers(d.out, Off, NoAction, modest);
    RemembersOn(s.out, d.out, d.out.(watch := Off), modest);
  }

  lemma AttachAtOnce(h: Handler, s: State, a: Action, r: bool, w: bool, modest: bool)
    requires (a.Accept? || a.Connect?) && !s.gone && s.out.watch.Off? && Inv(s) && (modest ==> Modest(h))
    ensures var s' := AttachSpec(h, s, AtOnce(a, r, w));
      Remembers(s.out, s'.state.out, modest) && Inv(s'.state) && s'.ok == s'.state.out.watch.On?
  {
    var o := s.out.(watch := On(r, w), action := a);
    var t := EventSpec(h, o, s.inbox, a);
    WatchRemembers(s.out, On(r, w), a, modest);
    HandshakeEvent(h, o, s.inbox, a, modest);
    EventKeeps(h, o, s.inbox, a, modest);
    RemembersOn(s.out, o, t.out, modest);
    WatchRemembers(t.out, Off, NoAction, modest);
    RemembersOn(s.out, t.out, t.out.(watch := Off), modest);
  }

  lemma ReadyKeeps(h: Handler, s: State, idle: Action, modest: bool)
    requires !s.gone && Inv(s) && (modest ==> Modest(h))
    ensures Remembers(s.out, ReadySpec(h, s, idle).out, modest) && Inv(ReadySpec(h, s, idle))
  {
    var t := EventSpec(h, s.out, s.inbox, idle);
    EventKeeps(h, s.out, s.inbox, idle, modest);
    WatchRemembers(t.out, Off, NoAction, modest);
    RemembersOn(s.out, t.out, t.out.(watch := Off), modest);
  }

  ghost predicate ModestCall(c: Call) { c.CallSend? ==> ModestBytes(c.data) }

  lemma StepKeeps(h: Handler, s: State, c: Call, modest: bool)
    requires Inv(s) && Enabled(s, c) && (modest ==> Modest(h) && ModestCall(c))
    ensures Remembers(s.out, Step(h, s, c).out, modest) && Inv(Step(h, s, c))
  {
    match c
    case CallSend(data) => SendKeeps(s.out, data);
    case CallDisconnect(finish) => DisconnectKeeps(s.out, finish, modest);
    case CallAttach(start) => AttachKeeps(h, s, start, modest);
    case CallDetach => WatchRemembers(s.out, Off, NoAction, modest);
    case Readable => ReadyKeeps(h, s, Read, modest);
    case Writable => ReadyKeeps(h, s, Write, modest);
  }

  lemma {:induction false} RunKeeps(h: Handler, s: State, calls: seq<Call>, n: nat, modest: bool)
    requires n <= |calls| && Inv(s)
    requires modest ==> Modest(h) && forall k :: 0 <= k < n ==> ModestCall(calls[k])
    ensures Remembers(s.out, Run(h, s, calls, n).out, modest) && Inv(Run(h, s, calls, n))
  {
    if n > 0 {
      var s' := Run(h, s, calls, n - 1);
      RunKeeps(h, s, calls, n - 1, modest);
      if Enabled(s', calls[n - 1]) {
        StepKeeps(h, s', calls[n - 1], modest);
        RemembersOn(s.out, s'.out, Step(h, s', calls[n - 1]).out, modest);
      }
    }
  }

  // ----- the results -----

  ghost predicate ModestRun(h: Handler, calls: seq<Call>) {
    Modest(h) && forall k :: 0 <= k < |calls| ==> ModestCall(calls[k])
  }

  /** An incomplete write is always followed by a write of the same bytes, whatever comes between. */
  lemma RetryExactness(h: Handler, script: seq<Reply>, calls: seq<Call>)
    requires ModestRun(h, calls)
    ensures RetriesExact(Run(h, Fresh(script), calls, |calls|).out.log)
  {
    RunKeeps(h, Fresh(script), calls, |calls|, true);
  }

  /** Until bytes are dropped, what the wire took and what is queued is what was promised, and the queue is bounded. */
  lemma SendStreamConservation(h: Handler, script: seq<Reply>, calls: seq<Call>)
    requires ModestRun(h, calls)
    ensures var o := Run(h, Fresh(script), calls, |calls|).out;
      !o.dumped ==> o.promised == Taken(o.log, |o.log|) + o.wbuffer
  {
    RunKeeps(h, Fresh(script), calls, |calls|, true);
  }

  /** The queue never exceeds 64 MiB, whatever is sent. */
  lemma QueueIsBounded(h: Handler, script: seq<Reply>, calls: seq<Call>)
    ensures |Run(h, Fresh(script), calls, |calls|).out.wbuffer| <= MAX_BYTES
  {
    RunKeeps(h, Fresh(script), calls, |calls|, false);
  }

  /** Between calls an attached linkage has a watcher on: the write watcher if it has bytes and nothing pending. */
  lemma NoStuckConnection(h: Handler, script: seq<Reply>, calls: seq<Call>)
    ensures var o := Run(h, Fresh(script), calls, |calls|).out;
      o.watch.On? ==> (o.watch.r || o.watch.w) && (o.wbuffer != [] && o.action.NoAction? ==> o.watch.w)
  {
    RunKeeps(h, Fresh(script), calls, |calls|, false);
  }

  /** After Disconnect(false) no write ever reaches the I/O layer. */
  lemma DroppedIsSilent(h: Handler, s: State, calls: seq<Call>)
    requires Inv(s) && Enabled(s, CallDisconnect(false))
    ensures var s' := Step(h, s, CallDisconnect(false));
      Run(h, s', calls, |calls|).out.log == s'.out.log == s.out.log
  {
    var s' := Step(h, s, CallDisconnect(false));
    StepKeeps(h, s, CallDisconnect(false), false);
    DisconnectKeeps(s.out, false, false);
    DisconnectWritesNothing(s.out, false);
    RunKeeps(h, s', calls, |calls|, false);
  }

  lemma DisconnectWritesNothing(o: Out, finish: bool)
    ensures DisconnectSpec(o, finish).out.log == o.log
  {
  }

  // ----- one send, exactly -----

  /** A send that returns false put bytes on the wire exactly when a short write leaves more than the queue can hold. */
  lemma FalseSendLeaks(o: Out, data: Bytes)
    requires Direct(o, data) && |data| <= INT_MAX
    ensures var s, a := SendSpec(o, data), Tried(o.script, data);
      !s.ok && a.taken > 0 <==> 0 < a.taken && |data| - a.taken > MAX_BYTES
  {
    var a, o' := Tried(o.script, data), AfterWrite(o, data);
    QueueEmpty(o', data);
    QueueEmpty(o', data[a.taken..]);
  }

  /** A false answer means nothing was sent, for every reply, exactly up to one byte over 64 MiB. */
  lemma FalseSendsNothing(o: Out, data: Bytes)
    requires Direct(o, data) && |data| <= INT_MAX
    ensures (forall script :: Clean(o.(script := script), data)) <==> |data| <= MAX_BYTES + 1
  {
    forall script | |data| <= MAX_BYTES + 1 ensures Clean(o.(script := script), data) {
      FalseSendLeaks(o.(script := script), data);
    }
    if |data| > MAX_BYTES + 1 {
      var script := [Reply(Ok, [], 1, false)];
      FalseSendLeaks(o.(script := script), data);
      assert !Clean(o.(script := script), data);
    }
  }

  ghost predicate Clean(o: Out, data: Bytes) { SendSpec(o, data).ok || Tried(o.script, data).taken == 0 }

  /** An incomplete direct write is remembered exactly when it does not exceed 64 MiB. */
  lemma RetryIsOwedUpTo(o: Out, data: Bytes)
    requires Direct(o, data) && |data| <= INT_MAX && Incomplete(Tried(o.script, data).status)
    ensures Owed(SendSpec(o, data).out) <==> |data| <= MAX_BYTES
  {
    var o' := AfterWrite(o, data);
    QueueEmpty(o', data);
    assert data[..|data|] == data;
  }

  // ----- the next write, exactly -----

  /** A handler that wants every message and calls nothing. */
  function Mute(): Handler { Handler(buf => 0, past => Reaction([], 1)) }

  /** All incomplete writes of this run from `s` are repeated. */
  ghost predicate Repeated(h: Handler, s: State, calls: seq<Call>) {
    RetriesExact(Run(h, s, calls, |calls|).out.log)
  }

  /** Whatever modest calls follow. */
  ghost predicate AlwaysRepeated(s: State) {
    forall h: Handler, calls: seq<Call> :: ModestRun(h, calls) ==> Repeated(h, s, calls)
  }

  /** Above 64 MiB the incomplete write is forgotten: the next send writes its own bytes instead. */
  lemma BigSendIsNotRepeated(o: Out, data: Bytes, other: Bytes)
    requires Direct(o, data) && Incomplete(Tried(o.script, data).status) && MAX_BYTES < |data| <= INT_MAX
    requires 0 < |other| <= INT_MAX && other != data
    ensures !RetriesExact(SendSpec(SendSpec(o, data).out, other).out.log)
  {
    var o' := SendSpec(o, data).out;
    SendNowWrites(o, data);
    QueueEmpty(AfterWrite(o, data), data);
    assert o' == AfterWrite(o, data);
    SendNowWrites(o', other);
    var log := SendSpec(o', other).out.log;
    assert log == (o.log + [Tried(o.script, data)]) + [Tried(o'.script, other)];
    assert log[|o.log|].data == data && log[|o.log| + 1].data == other;
  }

  lemma BigSendStrays(s: State, data: Bytes)
    requires !s.gone && Direct(s.out, data) && Incomplete(Tried(s.out.script, data).status)
    requires MAX_BYTES < |data| <= INT_MAX
    ensures !AlwaysRepeated(s.(out := SendSpec(s.out, data).out))
  {
    var s' := s.(out := SendSpec(s.out, data).out);
    var calls := [CallSend([0])];
    BigSendIsNotRepeated(s.out, data, [0]);
    assert Run(Mute(), s', calls, 0) == s';
    assert !Repeated(Mute(), s', calls);
    assert ModestRun(Mute(), calls);
  }

  /** An incomplete direct write is repeated byte for byte, whatever comes, if and only if it has at most 64 MiB. */
  lemma IncompleteSendIsRepeatedUpTo(s: State, data: Bytes)
    requires Inv(s) && !s.gone && Faithful(s.out)
    requires Direct(s.out, data) && |data| <= INT_MAX && Incomplete(Tried(s.out.script, data).status)
    ensures AlwaysRepeated(s.(out := SendSpec(s.out, data).out)) <==> |data| <= MAX_BYTES
  {
    var s' := s.(out := SendSpec(s.out, data).out);
    if |data| <= MAX_BYTES {
      SendKeeps(s.out, data);
      forall h: Handler, calls: seq<Call> | ModestRun(h, calls) ensures Repeated(h, s', calls) {
        RunKeeps(h, s', calls, |calls|, true);
      }
    } else {
      BigSendStrays(s, data);
    }
  }

  /** A linkage attached over an established connection sends directly, whatever its I/O layer will answer. */
  lemma DirectIsReachable(script: seq<Reply>, data: Bytes)
    requires data != []
    ensures var s := Run(Mute(), Fresh(script), [CallAttach(Established(false, false))], 1);
      && Direct(s.out, data) && s.out.script == script && !s.gone && Inv(s) && Faithful(s.out)
      && !s.out.closed && !s.out.dumped && s.out.log == [] && s.out.promised == []
  {
    var calls := [CallAttach(Established(false, false))];
    assert Run(Mute(), Fresh(script), calls, 0) == Fresh(script);
    RunKeeps(Mute(), Fresh(script), calls, 1, true);
  }

  // ----- what an event waits for -----

  predicate IsHandshake(a: Action) { a.Accept? || a.Connect? }

  /** The action asks the I/O layer, rather than finding its work done. */
  predicate Asks(o: Out, a: Action) {
    match a
    case NoAction => false
    case Write => o.wbuffer != []
    case Shutdown => !o.closed
    case _ => true
  }

  /** Where an event stands before one of its turns. */
  datatype Station = Station(out: Out, inbox: Inbox, action: Action)

  /** The turn at `x` leads to another at `y`. */
  ghost predicate LeadsTo(h: Handler, x: Station, y: Station) {
    var t := Once(h, x.out, x.inbox, x.action);
    !t.next.NoAction? && y == Station(t.out, t.inbox, t.next)
  }

  /** The turns an event takes, one after another, as far as they are listed. */
  ghost predicate Turns(h: Handler, path: seq<Station>) {
    path != [] && forall k :: 0 <= k < |path| - 1 ==> LeadsTo(h, path[k], path[k + 1])
  }

  ghost function EndOf(h: Handler, x: Station): Turn { LoopSpec(h, x.out, x.inbox, x.action) }

  /** The first turn of an event; a pending action goes before the idle one. */
  ghost function StartOf(o: Out, i: Inbox, idle: Action): Station {
    Station(o, i, if o.action.NoAction? then idle else o.action)
  }

  /** It ends as the event would that starts at any of them. */
  lemma {:induction false} TurnsEnd(h: Handler, path: seq<Station>, k: nat)
    requires Turns(h, path) && k < |path|
    ensures EndOf(h, path[0]) == EndOf(h, path[k])
  {
    if k > 0 {
      TurnsEnd(h, path, k - 1);
      assert LeadsTo(h, path[k - 1], path[k - 1 + 1]);
      LeadsToEnd(h, path[k - 1], path[k]);
    }
  }

  lemma LeadsToEnd(h: Handler, x: Station, y: Station)
    requires LeadsTo(h, x, y)
    ensures EndOf(h, x) == EndOf(h, y)
  {
    LoopGoesOn(h, x.out, x.inbox, x.action);
  }

  lemma LoopGoesOn(h: Handler, o: Out, i: Inbox, action: Action)
    ensures var t := Once(h, o, i, action);
      LoopSpec(h, o, i, action) == if t.next.NoAction? then t else LoopSpec(h, t.out, t.inbox, t.next)
  {
  }

  /** The watchers that wait for what the reply asked for. */
  function WatchFor(s: Status): Watch { On(s.WannaRead?, s.WannaWrite?) }

  /** An incomplete reply ends the event, with its action pending and exactly the watcher that the reply asked for. */
  lemma IncompleteEndsEvent(h: Handler, o: Out, i: Inbox, idle: Action, path: seq<Station>)
    requires Turns(h, path) && path[0] == StartOf(o, i, idle)
    requires var x := path[|path| - 1];
      Asks(x.out, x.action) && x.out.watch.On? && Incomplete(NextReply(x.out.script).status)
    ensures var x, t := path[|path| - 1], EventSpec(h, o, i, idle);
      && t.ret > 0 && t.out.action == x.action && t.out.watch == WatchFor(NextReply(x.out.script).status)
      && t.out.script == RestOf(x.out.script)
  {
    var x := path[|path| - 1];
    TurnsEnd(h, path, |path| - 1);
    IncompleteTurn(h, x.out, x.inbox, x.action);
  }

  lemma IncompleteTurn(h: Handler, o: Out, i: Inbox, action: Action)
    requires Asks(o, action) && o.watch.On? && Incomplete(NextReply(o.script).status)
    ensures var t := LoopSpec(h, o, i, action);
      && t.ret > 0 && t.out.action == action && t.out.watch == WatchFor(NextReply(o.script).status)
      && t.out.script == RestOf(o.script)
  {
    LoopGoesOn(h, o, i, action);
    match action
    case Read => IncompleteEnd(o, Read);
    case Write => IncompleteWrite(o, i);
    case Accept => IncompleteEnd(o, Accept);
    case Connect => IncompleteEnd(o, Connect);
    case Shutdown => IncompleteShutdown(o);
  }

  lemma IncompleteEnd(o: Out, action: Action)
    requires o.watch.On? && Incomplete(NextReply(o.script).status)
    ensures var d := Ended(o.(script := RestOf(o.script)), action, NextReply(o.script).status);
      d.ret > 0 && d.out.action == action && d.out.watch == WatchFor(NextReply(o.script).status)
  {
  }

  lemma IncompleteWrite(o: Out, i: Inbox)
    requires o.watch.On? && o.wbuffer != [] && Incomplete(NextReply(o.script).status)
    ensures var t := WriteOnce(o, i);
      && t.ret > 0 && t.out.action == Write && t.out.watch == WatchFor(NextReply(o.script).status)
      && t.next.NoAction? && t.out.script == RestOf(o.script)
  {
  }

  lemma IncompleteShutdown(o: Out)
    requires o.watch.On? && !o.closed && Incomplete(NextReply(o.script).status)
    ensures var d := ShutdownOnce(o);
      && d.ret > 0 && d.out.action == Shutdown && d.out.watch == WatchFor(NextReply(o.script).status)
      && d.out.script == RestOf(o.script)
  {
  }

  /** A reply that the layer is closed ends the event with zero, and every failure with less. */
  lemma FailureEndsEvent(h: Handler, o: Out, i: Inbox, idle: Action, path: seq<Station>)
    requires Turns(h, path) && path[0] == StartOf(o, i, idle)
    requires var x := path[|path| - 1]; var s := NextReply(x.out.script).status;
      Asks(x.out, x.action) && !s.Ok? && !Incomplete(s)
    ensures var x, t := path[|path| - 1], EventSpec(h, o, i, idle);
      && t.ret == (if NextReply(x.out.script).status.Closed? then 0 else -1)
      && t.out.action.NoAction? && t.out.script == RestOf(x.out.script)
  {
    var x := path[|path| - 1];
    TurnsEnd(h, path, |path| - 1);
    FailedTurn(h, x.out, x.inbox, x.action);
  }

  lemma FailedTurn(h: Handler, o: Out, i: Inbox, action: Action)
    requires var s := NextReply(o.script).status; Asks(o, action) && !s.Ok? && !Incomplete(s)
    ensures var t := LoopSpec(h, o, i, action);
      && t.ret == (if NextReply(o.script).status.Closed? then 0 else -1)
      && t.out.action.NoAction? && t.out.script == RestOf(o.script)
  {
    LoopGoesOn(h, o, i, action);
  }

  /** What a direct send leaves to wait for, by its reply. */
  lemma SendWaitsExactly(o: Out, data: Bytes)
    requires Direct(o, data) && |data| <= INT_MAX && SendSpec(o, data).ok
    ensures var a, o' := Tried(o.script, data), SendSpec(o, data).out;
      && (Incomplete(a.status) ==> o'.action == Write && o'.watch == WatchFor(a.status))
      && (a.status.Jammed? ==> o'.action.NoAction? && o'.watch == On(false, true))
      && (a.status.Ok? && a.taken < |data| ==> o'.action.NoAction? && o'.watch == On(o.watch.r, true))
      && (a.status.Ok? && a.taken == |data| ==> o'.action.NoAction? && o'.watch == o.watch)
  {
  }

  // ----- how an event goes on, and what it answers -----

  /** What the bytes just read come to: how the buffer and they frame, unless nothing is taken any more. */
  ghost function Outcome(h: Handler, x: Station): int {
    var reply := NextReply(x.out.script);
    if reply.bytes == [] || x.out.graceful || !Held(x.inbox) then 1
    else Framed(h, x.out.past, x.inbox.rlength, x.inbox.rbuffer + reply.bytes).outcome
  }

  /**
   * After bytes were read the event goes on: it hangs up if a handler asked for that, and reads again if more is to be
   * read; otherwise it is over, with a failure if a handler or the framing failed.
   */
  lemma ReadGoesOnExactly(h: Handler, x: Station, y: Station)
    requires x.action.Read? && NextReply(x.out.script).status.Ok?
    ensures LeadsTo(h, x, y) ==> y.action == if Outcome(h, x) == 0 then Shutdown else Read
    ensures Outcome(h, x) == 0 || (Outcome(h, x) > 0 && NextReply(x.out.script).more) <==> exists z :: LeadsTo(h, x, z)
    ensures (forall z :: !LeadsTo(h, x, z)) ==> EndOf(h, x).ret == if Outcome(h, x) > 0 then 1 else -1
  {
    OutcomeIs(h, x);
    var t := Once(h, x.out, x.inbox, x.action);
    LoopGoesOn(h, x.out, x.inbox, x.action);
    assert !t.next.NoAction? ==> LeadsTo(h, x, Station(t.out, t.inbox, t.next));
  }

  lemma OutcomeIs(h: Handler, x: Station)
    ensures var r := Arrival(h, x.out.(script := RestOf(x.out.script)), x.inbox, NextReply(x.out.script).bytes);
      Sign(r.outcome) == Sign(Outcome(h, x))
  {
    var chunk := NextReply(x.out.script).bytes;
    if chunk != [] && !x.out.graceful && Held(x.inbox) {
      ReceiveIsFraming(h, x.out.past, x.inbox, chunk);
    }
  }

  /** With nothing to write a linkage that hangs up shuts down, and any other is done. */
  lemma WriteGoesOnExactly(h: Handler, x: Station)
    requires x.action.Write?
    ensures x.out.wbuffer == [] && x.out.graceful ==>
      LeadsTo(h, x, Station(x.out.(action := NoAction), x.inbox, Shutdown))
    ensures x.out.wbuffer == [] && !x.out.graceful ==>
      EndOf(h, x).ret > 0 && EndOf(h, x).out == x.out.(action := NoAction)
    ensures x.out.wbuffer != [] && NextReply(x.out.script).status.Ok? ==>
      EndOf(h, x).ret > 0 && EndOf(h, x).out.action.NoAction? && EndOf(h, x).out.script == RestOf(x.out.script)
  {
    LoopGoesOn(h, x.out, x.inbox, x.action);
  }

  /** When a handshake is complete the handler is told, and the linkage lives on exactly if it wants more. */
  lemma HandshakeAnswersExactly(h: Handler, x: Station)
    requires IsHandshake(x.action) && NextReply(x.out.script).status.Ok?
    ensures EndOf(h, x).ret > 0 <==> h.react(x.out.past + [Connected]).next > 0
    ensures EndOf(h, x).ret != 0 && EndOf(h, x).out.past == x.out.past + [Connected]
  {
    LoopGoesOn(h, x.out, x.inbox, x.action);
    ConnectsOnce(h, x.out.(script := RestOf(x.out.script)));
  }

  /** Attached over an established connection it is told as well, and stays attached exactly if it wants more. */
  lemma EstablishedAnswersExactly(h: Handler, s: State, r: bool, w: bool)
    requires s.out.watch.Off?
    ensures var a := AttachSpec(h, s, Established(r, w));
      && (a.ok <==> h.react(s.out.past + [Connected]).next > 0) && (a.ok <==> a.state.out.watch.On?)
      && a.state.out.past == s.out.past + [Connected] && a.state.out.heard == s.out.heard + [[]]
  {
    var o := s.out.(watch := On(true, w));
    ConnectsOnce(h, o);
    ConnectedKeeps(h, o, false);
  }

  /** A linkage is released exactly if its event does not answer with more, and a detached one is not watched. */
  lemma ReleasedExactly(h: Handler, s: State, idle: Action)
    ensures var s', t := ReadySpec(h, s, idle), EventSpec(h, s.out, s.inbox, idle);
      && (s'.gone <==> t.ret <= 0) && (s'.gone ==> s'.out.watch.Off?)
    ensures Enabled(s, CallDetach) ==>
      Step(h, s, CallDetach).out == s.out.(watch := Off) && !Step(h, s, CallDetach).gone
  {
  }

  /**
   * Hanging up asks the I/O layer once, unless something is pending or it was closed before; it is closed
   * when the layer has shut down, and answers with zero then.
   */
  lemma DisconnectExactly(o: Out, finish: bool)
    ensures var d := DisconnectSpec(o, finish); var s := NextReply(o.script).status;
      && d.out.wbuffer == (if finish then o.wbuffer else []) && d.out.graceful
      && (!o.action.NoAction? ==> d.ret > 0 && d.out.script == o.script && d.out.closed == o.closed)
      && (o.action.NoAction? && o.closed ==> d.ret == 0 && d.out.script == o.script && d.out.closed)
      && (o.action.NoAction? && !o.closed ==>
            && d.out.script == RestOf(o.script) && (d.out.closed <==> s.Ok? || s.Closed?)
            && (d.ret == 0 <==> s.Ok? || s.Closed?) && (d.ret > 0 <==> Incomplete(s)))
  {
    var o' := if finish then o.(graceful := true) else o.(graceful := true, wbuffer := [], dumped := true);
    if o.action.NoAction? {
      HangupExactly(o');
    }
  }

  lemma HangupExactly(o: Out)
    ensures var d := Hangup(o); var s := NextReply(o.script).status;
      && d.out.wbuffer == o.wbuffer && d.out.graceful
      && (o.closed ==> d.ret == 0 && d.out.script == o.script && d.out.closed)
      && (!o.closed ==>
            && d.out.script == RestOf(o.script) && (d.out.closed <==> s.Ok? || s.Closed?)
            && (d.ret == 0 <==> s.Ok? || s.Closed?) && (d.ret > 0 <==> Incomplete(s)))
  {
  }

  /** What a direct send has to queue, if it gets that far. */
  function LeftOver(a: Attempt): Option<nat> {
    match a.status
    case Ok => Some(|a.data| - (if a.taken < |a.data| then a.taken else |a.data|))
    case Jammed => Some(|a.data|)
    case WannaRead => Some(|a.data|)
    case WannaWrite => Some(|a.data|)
    case _ => None
  }

  /** A send is accepted exactly by an attached linkage that is not hanging up and has room for what it cannot write. */
  lemma SendAnswersExactly(o: Out, data: Bytes)
    requires Sound(o) && |data| <= INT_MAX
    ensures SendSpec(o, data).ok <==>
      && o.watch.On? && !o.graceful
      && (|| data == []
          || (!Direct(o, data) && |o.wbuffer| + |data| <= MAX_BYTES)
          || (Direct(o, data) && var left := LeftOver(Tried(o.script, data)); left.Some? && left.value <= MAX_BYTES))
  {
    if Direct(o, data) {
      var a, o' := Tried(o.script, data), AfterWrite(o, data);
      QueueEmpty(o', data);
      QueueEmpty(o', data[a.taken..]);
    } else {
      QueueFits(o, data);
    }
  }

  lemma QueueFits(o: Out, data: Bytes)
    requires |o.wbuffer| <= MAX_BYTES
    ensures Queue(o, data).ok <==> |o.wbuffer| + |data| <= MAX_BYTES
  {
  }

  // ----- what a linkage waits for, in every run -----

  /** The replies used up on the way from one state to another are a front of those there were. */
  ghost predicate UsedUp(o: Out, o': Out) {
    && |o'.script| <= |o.script|
    && forall j :: 0 <= j < |o'.script| ==> o'.script[j] == o.script[|o.script| - |o'.script| + j]
  }

  /** Some were, and the last of them asked for exactly the watchers that are on. */
  ghost predicate Awaited(o: Out, o': Out) {
    && UsedUp(o, o') && |o'.script| < |o.script|
    && var s := o.script[|o.script| - |o'.script| - 1].status; Incomplete(s) && o'.watch == WatchFor(s)
  }

  /** A pending action waits for what the last reply asked for. */
  ghost predicate Waits(o: Out, o': Out) {
    UsedUp(o, o') && (o'.watch.On? && !o'.action.NoAction? ==> Awaited(o, o'))
  }

  lemma UsedUpOn(a: Out, b: Out, c: Out)
    requires UsedUp(a, b) && UsedUp(b, c)
    ensures UsedUp(a, c)
    ensures Awaited(b, c) ==> Awaited(a, c)
    ensures b.script == c.script && b.watch == c.watch && Awaited(a, b) ==> Awaited(a, c)
  {
  }

  lemma WaitsOn(a: Out, b: Out, c: Out)
    requires UsedUp(a, b) && Waits(b, c)
    ensures Waits(a, c)
  {
    UsedUpOn(a, b, c);
  }

  /** A handler's own calls: with an action pending they leave it and its watchers, otherwise a new one waits. */
  ghost predicate LeavesWaiting(o: Out, o': Out) {
    && UsedUp(o, o') && o'.watch.Off? == o.watch.Off?
    && (!o.action.NoAction? ==> o'.action == o.action && o'.watch == o.watch && o'.script == o.script)
    && (o.action.NoAction? ==> Waits(o, o') && !IsHandshake(o'.action))
  }

  lemma LeavesWaitingOn(a: Out, b: Out, c: Out)
    requires LeavesWaiting(a, b) && LeavesWaiting(b, c)
    ensures LeavesWaiting(a, c)
  {
    UsedUpOn(a, b, c);
  }

  /** One reply was asked for, and if it is incomplete the watchers wait for it. */
  lemma OneReply(o: Out, o': Out)
    requires o'.script == RestOf(o.script)
    ensures UsedUp(o, o')
    ensures var status := NextReply(o.script).status;
      Incomplete(status) && o'.watch == WatchFor(status) ==> Awaited(o, o')
  {
  }

  lemma SendNowLeaves(o: Out, data: Bytes)
    requires o.action.NoAction? && o.watch.On?
    ensures SendNow(o, data).out.script == RestOf(o.script) && SendNow(o, data).out.watch.On?
    ensures var o' := SendNow(o, data).out;
      o'.action.NoAction? || (o'.action.Write? && Incomplete(NextReply(o.script).status)
                              && o'.watch == WatchFor(NextReply(o.script).status))
  {
    if Incomplete(Tried(o.script, data).status) {
      IncompleteSend(o, data);
    } else {
      CompleteSend(o, data);
    }
  }

  lemma IncompleteSend(o: Out, data: Bytes)
    requires o.action.NoAction? && o.watch.On? && Incomplete(Tried(o.script, data).status)
    ensures var o' := SendNow(o, data).out;
      && o'.script == RestOf(o.script) && o'.watch.On?
      && (o'.action.NoAction? || (o'.action.Write? && o'.watch == WatchFor(NextReply(o.script).status)))
  {
  }

  lemma CompleteSend(o: Out, data: Bytes)
    requires o.action.NoAction? && o.watch.On? && !Incomplete(Tried(o.script, data).status)
    ensures var o' := SendNow(o, data).out; o'.script == RestOf(o.script) && o'.watch.On? && o'.action.NoAction?
  {
  }

  lemma SendLeaves(o: Out, data: Bytes)
    ensures LeavesWaiting(o, SendSpec(o, data).out)
  {
    SendQuietlyLeaves(o, data);
    SameButPromised(o, data);
  }

  lemma SameButPromised(o: Out, data: Bytes)
    ensures var o', o'' := SendQuietly(o, data).out, SendSpec(o, data).out;
      o''.script == o'.script && o''.watch == o'.watch && o''.action == o'.action
  {
  }

  lemma SendQuietlyLeaves(o: Out, data: Bytes)
    ensures LeavesWaiting(o, SendQuietly(o, data).out)
  {
    var o' := SendQuietly(o, data).out;
    if |data| > INT_MAX || o.watch.Off? || o.graceful || data == [] || !o.action.NoAction? || o.wbuffer != [] {
      assert o'.script == o.script && o'.watch == o.watch && o'.action == o.action;
    } else {
      SendNowLeaves(o, data);
      OneReply(o, o');
    }
  }

  lemma ShutdownWaits(o: Out)
    ensures Waits(o, ShutdownOnce(o).out) && ShutdownOnce(o).out.watch.Off? == o.watch.Off?
    ensures ShutdownOnce(o).out.action.NoAction? || ShutdownOnce(o).out.action.Shutdown?
  {
    var o' := ShutdownOnce(o).out;
    if o.closed {
      assert o'.script == o.script && o'.action.NoAction?;
    } else {
      ShutdownAsks(o);
      OneReply(o, o');
    }
  }

  lemma ShutdownAsks(o: Out)
    requires !o.closed
    ensures var o' := ShutdownOnce(o).out;
      && o'.script == RestOf(o.script) && o'.watch.Off? == o.watch.Off?
      && (o'.action.NoAction? || (o'.action.Shutdown? && Incomplete(NextReply(o.script).status)))
      && (!o'.action.NoAction? && o'.watch.On? ==> o'.watch == WatchFor(NextReply(o.script).status))
  {
  }

  lemma IdleWaits(a: Out, o: Out)
    requires Waits(a, o)
    ensures Waits(a, Idle(o)) && Idle(o).action == o.action
  {
  }

  lemma DisconnectLeaves(o: Out, finish: bool)
    ensures LeavesWaiting(o, DisconnectSpec(o, finish).out)
  {
    var o' := if finish then o.(graceful := true) else o.(graceful := true, wbuffer := [], dumped := true);
    if o.action.NoAction? {
      HangupLeaves(o');
      SameReplies(o, o', Hangup(o').out);
    }
  }

  lemma HangupLeaves(o: Out)
    requires o.action.NoAction?
    ensures LeavesWaiting(o, Hangup(o).out)
  {
    var o' := ShutdownOnce(o).out;
    ShutdownWaits(o);
    IdleWaits(o, o');
    assert Idle(o').watch.Off? == o'.watch.Off?;
  }

  lemma SameReplies(a: Out, o: Out, o': Out)
    requires o.script == a.script && o.watch == a.watch && o.action == a.action && LeavesWaiting(o, o')
    ensures LeavesWaiting(a, o')
  {
  }

  lemma {:induction false} OpsLeave(o: Out, ops: seq<Op>, n: nat)
    requires n <= |ops|
    ensures LeavesWaiting(o, OpsSpec(o, ops, n))
  {
    if n > 0 {
      var o' := OpsSpec(o, ops, n - 1);
      OpsLeave(o, ops, n - 1);
      match ops[n - 1] {
        case Send(data) => SendLeaves(o', data);
        case Disconnect(finish) => DisconnectLeaves(o', finish);
      }
      LeavesWaitingOn(o, o', OpSpec(o', ops[n - 1]));
    }
  }

  lemma {:induction false} TellAllLeaves(h: Handler, o: Out, past: seq<Told>)
    requires |o.past| <= |past|
    ensures LeavesWaiting(o, TellAll(h, o, past))
    decreases |past|
  {
    if |past| > |o.past| {
      var init := past[..|past| - 1];
      var o' := TellAll(h, o, init);
      TellAllLeaves(h, o, init);
      var ops := h.react(past).ops;
      OpsLeave(o'.(past := past), ops, |ops|);
      LeavesWaitingOn(o, o', TellAll(h, o, past));
    }
  }

  /** With nothing pending before them. */
  lemma LeftWaits(a: Out, o: Out, o': Out)
    requires UsedUp(a, o) && o.action.NoAction? && LeavesWaiting(o, o')
    ensures Waits(a, o') && !IsHandshake(o'.action)
  {
    WaitsOn(a, o, o');
  }

  lemma ConnectedWaits(h: Handler, o: Out)
    ensures Waits(o, ConnectedSpec(h, o).out) && !IsHandshake(ConnectedSpec(h, o).out.action)
  {
    var o1 := SetWanna(o, true, o.wbuffer != []);
    var o' := o1.(action := NoAction, heard := o.heard + [[]], past := o.past + [Connected]);
    var ops := h.react(o'.past).ops;
    OpsLeave(o', ops, |ops|);
    LeftWaits(o, o', OpsSpec(o', ops, |ops|));
  }

  lemma EndedWaits(o: Out, action: Action)
    requires !NextReply(o.script).status.Ok?
    ensures Waits(o, Ended(o.(script := RestOf(o.script)), action, NextReply(o.script).status).out)
  {
  }

  lemma ToldWaits(h: Handler, a: Out, o: Out, past: seq<Told>)
    requires UsedUp(a, o) && o.action.NoAction? && |o.past| <= |past|
    ensures Waits(a, TellAll(h, o, past))
  {
    TellAllLeaves(h, o, past);
    LeftWaits(a, o, TellAll(h, o, past));
  }

  lemma ReadWaits(h: Handler, o: Out, i: Inbox)
    ensures Waits(o, ReadOnce(h, o, i).out)
  {
    var reply := NextReply(o.script);
    var o' := o.(script := RestOf(o.script));
    if reply.status.Ok? {
      var heard := if o.graceful then o.heard else Hear(o.heard, reply.bytes);
      var o1 := o'.(action := NoAction, heard := heard);
      OneReply(o, o1);
      ToldWaits(h, o, o1, Arrival(h, o', i, reply.bytes).past);
    } else {
      EndedWaits(o, Read);
    }
  }

  lemma WriteWaits(o: Out, i: Inbox)
    ensures Waits(o, WriteOnce(o, i).out)
  {
    if o.wbuffer != [] && !Tried(o.script, Picked(o)).status.Ok? {
      EndedWaits(o, Write);
    }
  }

  lemma HandshakeWaits(h: Handler, o: Out, i: Inbox, action: Action)
    ensures Waits(o, HandshakeOnce(h, o, i, action).out)
  {
    var o' := o.(script := RestOf(o.script));
    if NextReply(o.script).status.Ok? {
      ConnectedWaits(h, o');
      UsedUpOn(o, o', ConnectedSpec(h, o').out);
    } else {
      EndedWaits(o, action);
    }
  }

  lemma OnceWaits(h: Handler, o: Out, i: Inbox, action: Action)
    ensures Waits(o, Once(h, o, i, action).out)
  {
    match action
    case Read => ReadWaits(h, o, i);
    case Write => WriteWaits(o, i);
    case Accept => HandshakeWaits(h, o, i, action);
    case Connect => HandshakeWaits(h, o, i, action);
    case Shutdown => ShutdownWaits(o);
    case NoAction =>
  }

  lemma {:induction false} LoopWaits(h: Handler, o: Out, i: Inbox, action: Action)
    ensures Waits(o, LoopSpec(h, o, i, action).out)
    decreases |o.script|, Rank(action)
  {
    var t := Once(h, o, i, action);
    OnceWaits(h, o, i, action);
    if !t.next.NoAction? {
      LoopWaits(h, t.out, t.inbox, t.next);
      WaitsOn(o, t.out, LoopSpec(h, t.out, t.inbox, t.next).out);
    }
    LoopGoesOn(h, o, i, action);
  }

  /** After a whole event, whatever handlers did in it, a pending action waits for what the last reply asked for. */
  lemma EventWaits(h: Handler, o: Out, i: Inbox, idle: Action)
    ensures Waits(o, EventSpec(h, o, i, idle).out)
  {
    var action := if o.action.NoAction? then idle else o.action;
    LoopWaits(h, o, i, action);
    IdleWaits(o, LoopSpec(h, o, i, action).out);
  }

  /** Between calls: the same, but for a handshake that is still to have its first event. */
  ghost predicate WaitsBetween(o: Out, o': Out) {
    UsedUp(o, o') && (o'.watch.On? && !o'.action.NoAction? ==> IsHandshake(o'.action) || Awaited(o, o'))
  }

  lemma EventBetween(h: Handler, a: Out, o: Out, i: Inbox, idle: Action)
    requires UsedUp(a, o)
    ensures WaitsBetween(a, EventSpec(h, o, i, idle).out)
  {
    EventWaits(h, o, i, idle);
    UsedUpOn(a, o, EventSpec(h, o, i, idle).out);
  }

  lemma LeftBetween(a: Out, o: Out, o': Out)
    requires WaitsBetween(a, o) && LeavesWaiting(o, o')
    ensures WaitsBetween(a, o')
  {
    UsedUpOn(a, o, o');
  }

  lemma ConnectedBetween(h: Handler, a: Out, o: Out)
    requires UsedUp(a, o)
    ensures var o' := ConnectedSpec(h, o).out; WaitsBetween(a, o') && WaitsBetween(a, o'.(watch := Off))
  {
    ConnectedWaits(h, o);
    UsedUpOn(a, o, ConnectedSpec(h, o).out);
  }

  lemma AtOnceBetween(h: Handler, a: Out, s: State, start: Start)
    requires UsedUp(a, s.out) && start.AtOnce? && s.out.watch.Off?
    ensures WaitsBetween(a, AttachSpec(h, s, start).state.out)
  {
    var o := s.out.(watch := On(start.r, start.w), action := start.action);
    EventBetween(h, a, o, s.inbox, start.action);
    var o' := EventSpec(h, o, s.inbox, start.action).out;
    assert AttachSpec(h, s, start).state.out == o' || AttachSpec(h, s, start).state.out == o'.(watch := Off);
  }

  lemma AttachBetween(h: Handler, a: Out, s: State, start: Start)
    requires WaitsBetween(a, s.out) && GoodStart(start)
    ensures WaitsBetween(a, AttachSpec(h, s, start).state.out)
  {
    if s.out.watch.Off? {
      match start
      case Refused =>
      case Waiting(_, _, _) =>
      case Established(r, w) => ConnectedBetween(h, a, s.out.(watch := On(true, w)));
      case AtOnce(action, r, w) => AtOnceBetween(h, a, s, start);
    }
  }

  lemma StepBetween(h: Handler, a: Out, s: State, c: Call)
    requires WaitsBetween(a, s.out) && Enabled(s, c)
    ensures WaitsBetween(a, Step(h, s, c).out)
  {
    match c
    case CallSend(data) =>
      SendLeaves(s.out, data);
      LeftBetween(a, s.out, SendSpec(s.out, data).out);
    case CallDisconnect(finish) =>
      DisconnectLeaves(s.out, finish);
      LeftBetween(a, s.out, DisconnectSpec(s.out, finish).out);
    case CallAttach(start) => AttachBetween(h, a, s, start);
    case CallDetach =>
    case Readable => EventBetween(h, a, s.out, s.inbox, Read);
    case Writable => EventBetween(h, a, s.out, s.inbox, Write);
  }

  lemma {:induction false} RunBetween(h: Handler, s: State, calls: seq<Call>, n: nat)
    requires n <= |calls| && WaitsBetween(s.out, s.out)
    ensures WaitsBetween(s.out, Run(h, s, calls, n).out)
  {
    if n > 0 {
      var s' := Run(h, s, calls, n - 1);
      RunBetween(h, s, calls, n - 1);
      if Enabled(s', calls[n - 1]) {
        StepBetween(h, s.out, s', calls[n - 1]);
      }
    }
  }

  /**
   * In every run, between calls, an attached linkage with a pending read, write or shutdown has exactly that
   * watcher on which the last reply of its I/O layer asked for.
   */
  lemma PendingIsAwaited(h: Handler, script: seq<Reply>, calls: seq<Call>)
    ensures var o := Run(h, Fresh(script), calls, |calls|).out; var used := |script| - |o.script|;
      o.watch.On? && !o.action.NoAction? && !IsHandshake(o.action) ==>
        && 0 < used <= |script| && Incomplete(script[used - 1].status)
        && o.watch == WatchFor(script[used - 1].status)
  {
    RunBetween(h, Fresh(script), calls, |calls|);
  }

  // ----- the messages are the stream -----

  /** A handler's own calls tell it nothing, read nothing, and neither start nor end a handshake. */
  ghost predicate SameEars(o: Out, o': Out) {
    o'.heard == o.heard && o'.past == o.past && IsHandshake(o'.action) == IsHandshake(o.action)
  }

  lemma SendNowEars(o: Out, data: Bytes)
    requires o.action.NoAction?
    ensures SameEars(o, SendNow(o, data).out)
  {
  }

  lemma SendEars(o: Out, data: Bytes)
    ensures SameEars(o, SendSpec(o, data).out)
  {
    if o.action.NoAction? {
      SendNowEars(o, data);
    }
  }

  lemma ShutdownEars(o: Out)
    requires !IsHandshake(o.action)
    ensures SameEars(o, ShutdownOnce(o).out) && SameEars(o, Hangup(o).out)
  {
  }

  lemma DisconnectEars(o: Out, finish: bool)
    ensures SameEars(o, DisconnectSpec(o, finish).out)
  {
    var o' := if finish then o.(graceful := true) else o.(graceful := true, wbuffer := [], dumped := true);
    if o.action.NoAction? {
      ShutdownEars(o');
    }
  }

  lemma {:induction false} OpsEars(o: Out, ops: seq<Op>, n: nat)
    requires n <= |ops|
    ensures SameEars(o, OpsSpec(o, ops, n))
  {
    if n > 0 {
      var o' := OpsSpec(o, ops, n - 1);
      OpsEars(o, ops, n - 1);
      match ops[n - 1]
      case Send(data) => SendEars(o', data);
      case Disconnect(finish) => DisconnectEars(o', finish);
    }
  }

  lemma {:induction false} TellAllEars(h: Handler, o: Out, past: seq<Told>)
    requires |o.past| <= |past| && o.past <= past
    ensures SameEars(o.(past := past), TellAll(h, o, past))
    decreases |past|
  {
    if |past| > |o.past| {
      var init := past[..|past| - 1];
      var o' := TellAll(h, o, init);
      TellAllEars(h, o, init);
      var ops := h.react(past).ops;
      OpsEars(o'.(past := past), ops, |ops|);
    }
  }

  /** What was told is what the bytes heard frame to, and what they leave is what is buffered. */
  ghost predicate InStep(h: Handler, o: Out, i: Inbox) {
    var r := Heard(h, o.heard);
    && r.past == o.past
    && (r.outcome > 0 ==> i == r.inbox)
    && (r.outcome <= 0 ==> o.graceful)
  }

  /** The same when the connection is about to break. */
  ghost predicate InStepAtLast(h: Handler, o: Out) { Heard(h, o.heard).past == o.past }

  /** Established: connected at least once, and no handshake pending. */
  ghost predicate Settled(o: Out) { !IsHandshake(o.action) && o.heard != [] }

  lemma ArrivalInStep(h: Handler, o: Out, i: Inbox, chunk: Bytes)
    requires PrefixStable(h.lengthOf) && InStep(h, o, i) && o.heard != []
    ensures var r, heard := Arrival(h, o, i, chunk), if o.graceful then o.heard else Hear(o.heard, chunk);
      var f := Heard(h, heard);
      && f.past == r.past
      && (f.outcome > 0 ==> r.inbox == f.inbox)
      && (f.outcome <= 0 ==> o.graceful || r.outcome <= 0)
  {
    if !o.graceful {
      if chunk == [] {
        HearNothing(o.heard);
      } else {
        HearOn(h, o.heard, chunk);
      }
    }
  }

  /** What one turn leaves, once a shutdown that follows has been counted in. */
  ghost predicate TurnInStep(h: Handler, t: Turn) {
    && InStepAtLast(h, t.out)
    && (t.ret > 0 ==> InStep(h, t.out.(graceful := t.out.graceful || t.next.Shutdown?), t.inbox))
    && (t.ret > 0 ==> Settled(t.out) || IsHandshake(t.out.action))
    && (t.next.NoAction? || ((t.next.Read? || t.next.Shutdown?) && Settled(t.out)))
  }

  lemma FailedReadInStep(h: Handler, o: Out, i: Inbox)
    requires InStep(h, o, i) && Settled(o) && !NextReply(o.script).status.Ok?
    ensures TurnInStep(h, ReadOnce(h, o, i))
  {
  }

  /** Telling the handler what has arrived leaves what it has heard, and does not end hanging up. */
  lemma ToldEars(h: Handler, o: Out, past: seq<Told>)
    requires |o.past| <= |past| && o.past <= past && !IsHandshake(o.action)
    ensures var o' := TellAll(h, o, past);
      && o'.heard == o.heard && o'.past == past && !IsHandshake(o'.action)
      && (o.graceful ==> o'.graceful)
  {
    TellAllEars(h, o, past);
    TellAllKeeps(h, o, past, false);
  }

  lemma ToldInStep(h: Handler, t: Turn, r: Received, heard: seq<Bytes>, graceful: bool)
    requires t.out.heard == heard != [] && t.out.past == r.past && !IsHandshake(t.out.action) && t.inbox == r.inbox
    requires graceful ==> t.out.graceful
    requires var f := Heard(h, heard);
      f.past == r.past && (f.outcome > 0 ==> r.inbox == f.inbox) && (f.outcome <= 0 ==> graceful || r.outcome <= 0)
    requires (t.ret > 0 ==> r.outcome >= 0) && (t.next.Shutdown? <==> r.outcome == 0)
    requires t.next.NoAction? || t.next.Read? || t.next.Shutdown?
    ensures TurnInStep(h, t)
  {
  }

  lemma ReadInStep(h: Handler, o: Out, i: Inbox)
    requires PrefixStable(h.lengthOf) && InStep(h, o, i) && Settled(o)
    ensures TurnInStep(h, ReadOnce(h, o, i))
  {
    var reply := NextReply(o.script);
    if reply.status.Ok? {
      var o' := o.(script := RestOf(o.script));
      var r := Arrival(h, o', i, reply.bytes);
      var heard := if o.graceful then o.heard else Hear(o.heard, reply.bytes);
      ArrivalInStep(h, o', i, reply.bytes);
      ToldEars(h, o'.(action := NoAction, heard := heard), r.past);
      ToldInStep(h, ReadOnce(h, o, i), r, heard, o.graceful);
    } else {
      FailedReadInStep(h, o, i);
    }
  }

  /** Writing changes nothing that matters here. */
  ghost predicate WriteEars(o: Out, i: Inbox, t: Turn) {
    SameEars(o, t.out) && t.inbox == i && t.out.graceful == o.graceful && (t.next.NoAction? || t.next.Shutdown?)
  }

  lemma FinishedWriteEars(o: Out, i: Inbox)
    requires !IsHandshake(o.action) && (o.wbuffer == [] || Tried(o.script, Picked(o)).status.Ok?)
    ensures WriteEars(o, i, WriteOnce(o, i))
  {
  }

  lemma FailedWriteEars(o: Out, i: Inbox)
    requires !IsHandshake(o.action) && o.wbuffer != [] && !Tried(o.script, Picked(o)).status.Ok?
    ensures WriteEars(o, i, WriteOnce(o, i))
  {
  }

  lemma WriteInStep(h: Handler, o: Out, i: Inbox)
    requires InStep(h, o, i) && Settled(o)
    ensures TurnInStep(h, WriteOnce(o, i))
  {
    if o.wbuffer == [] || Tried(o.script, Picked(o)).status.Ok? {
      FinishedWriteEars(o, i);
    } else {
      FailedWriteEars(o, i);
    }
  }

  /** The handler is told of a connection. */
  lemma ConnectedInStep(h: Handler, o: Out, i: Inbox)
    requires InStep(h, o, i)
    ensures InStep(h, ConnectedSpec(h, o).out, i) && Settled(ConnectedSpec(h, o).out)
  {
    var o1 := SetWanna(o, true, o.wbuffer != []);
    var o' := o1.(action := NoAction, heard := o.heard + [[]], past := o.past + [Connected]);
    var ops := h.react(o'.past).ops;
    HearConnected(h, o.heard);
    OpsEars(o', ops, |ops|);
    OpsKeep(o', ops, |ops|, false);
  }

  lemma HandshakeInStep(h: Handler, o: Out, i: Inbox, a: Action)
    requires InStep(h, o, i) && IsHandshake(a)
    ensures TurnInStep(h, HandshakeOnce(h, o, i, a))
    ensures InStep(h, HandshakeOnce(h, o, i, a).out, HandshakeOnce(h, o, i, a).inbox)
  {
    var o' := o.(script := RestOf(o.script));
    if NextReply(o.script).status.Ok? {
      ConnectedInStep(h, o', i);
    }
  }

  lemma ShutdownInStep(h: Handler, o: Out, i: Inbox)
    requires InStep(h, o.(graceful := true), i) && Settled(o)
    ensures TurnInStep(h, Ends(ShutdownOnce(o), i))
    ensures InStep(h, ShutdownOnce(o).out, i)
  {
    ShutdownEars(o);
    ShutdownKeeps(o, false);
  }

  lemma OnceInStep(h: Handler, o: Out, i: Inbox, action: Action)
    requires PrefixStable(h.lengthOf) && InStep(h, o, i) && (IsHandshake(action) || Settled(o))
    ensures TurnInStep(h, Once(h, o, i, action))
  {
    match action
    case Read => ReadInStep(h, o, i);
    case Write => WriteInStep(h, o, i);
    case Shutdown => ShutdownInStep(h, o, i);
    case Accept => HandshakeInStep(h, o, i, action);
    case Connect => HandshakeInStep(h, o, i, action);
    case NoAction =>
  }

  lemma {:induction false} LoopInStep(h: Handler, o: Out, i: Inbox, action: Action)
    requires PrefixStable(h.lengthOf) && InStep(h, o, i) && (IsHandshake(action) || Settled(o))
    ensures TurnInStep(h, LoopSpec(h, o, i, action)) && LoopSpec(h, o, i, action).next.NoAction?
    decreases |o.script|, Rank(action)
  {
    var t := Once(h, o, i, action);
    OnceInStep(h, o, i, action);
    OnceContinues(h, o, i, action);
    if t.next.Shutdown? {
      ShutdownLoop(h, t.out, t.inbox);
      ShutdownInStep(h, t.out, t.inbox);
    } else if t.next.Read? {
      LoopInStep(h, t.out, t.inbox, t.next);
    }
  }

  /** Between calls; a linkage that is watched has connected or is in a handshake. */
  ghost predicate StateInStep(h: Handler, s: State) {
    && InStepAtLast(h, s.out)
    && (!s.gone ==> InStep(h, s.out, s.inbox))
    && (s.out.watch.On? ==> Settled(s.out) || IsHandshake(s.out.action))
  }

  lemma ReadyInStep(h: Handler, s: State, idle: Action)
    requires PrefixStable(h.lengthOf) && StateInStep(h, s) && !s.gone && s.out.watch.On? && (idle.Read? || idle.Write?)
    ensures StateInStep(h, ReadySpec(h, s, idle))
  {
    LoopInStep(h, s.out, s.inbox, if s.out.action.NoAction? then idle else s.out.action);
  }

  lemma IdleInStep(h: Handler, o: Out, i: Inbox)
    requires InStep(h, o, i)
    ensures InStep(h, Idle(o), i) && InStep(h, Idle(o).(watch := Off), i)
    ensures Settled(Idle(o)) == Settled(o) && Idle(o).action == o.action
  {
  }

  lemma AtOnceInStep(h: Handler, s: State, a: Action, r: bool, w: bool)
    requires StateInStep(h, s) && !s.gone && IsHandshake(a) && s.out.watch.Off?
    ensures StateInStep(h, AttachSpec(h, s, AtOnce(a, r, w)).state)
  {
    var o := s.out.(watch := On(r, w), action := a);
    var t := HandshakeOnce(h, o, s.inbox, a);
    HandshakeInStep(h, o, s.inbox, a);
    assert LoopSpec(h, o, s.inbox, a) == t;
    IdleInStep(h, t.out, t.inbox);
    var t' := t.(out := Idle(t.out));
    AtOnceGives(h, s, AtOnce(a, r, w), t');
  }

  /** What an attached handshake leaves is what its event leaves, unwatched if the event failed. */
  lemma AtOnceGives(h: Handler, s: State, start: Start, t: Turn)
    requires !s.gone && s.out.watch.Off? && start.AtOnce? && IsHandshake(start.action)
    requires t == EventSpec(h, s.out.(watch := On(start.r, start.w), action := start.action), s.inbox, start.action)
    ensures AttachSpec(h, s, start).state == State(if t.ret > 0 then t.out else t.out.(watch := Off), t.inbox, false)
  {
  }

  lemma EstablishedInStep(h: Handler, s: State, r: bool, w: bool)
    requires StateInStep(h, s) && !s.gone && s.out.watch.Off?
    ensures StateInStep(h, AttachSpec(h, s, Established(r, w)).state)
  {
    ConnectedInStep(h, s.out.(watch := On(true, w)), s.inbox);
  }

  lemma AttachInStep(h: Handler, s: State, start: Start)
    requires StateInStep(h, s) && !s.gone && GoodStart(start)
    ensures StateInStep(h, AttachSpec(h, s, start).state)
  {
    if s.out.watch.Off? {
      match start
      case Refused =>
      case Waiting(a, r, w) =>
      case Established(r, w) => EstablishedInStep(h, s, r, w);
      case AtOnce(a, r, w) => AtOnceInStep(h, s, a, r, w);
    }
  }

  lemma StepInStep(h: Handler, s: State, c: Call)
    requires PrefixStable(h.lengthOf) && StateInStep(h, s) && Enabled(s, c)
    ensures StateInStep(h, Step(h, s, c))
  {
    match c
    case CallSend(data) =>
      SendEars(s.out, data);
      SendKeeps(s.out, data);
    case CallDisconnect(finish) =>
      DisconnectEars(s.out, finish);
      DisconnectKeeps(s.out, finish, false);
    case CallAttach(start) => AttachInStep(h, s, start);
    case CallDetach =>
    case Readable => ReadyInStep(h, s, Read);
    case Writable => ReadyInStep(h, s, Write);
  }

  lemma {:induction false} RunInStep(h: Handler, s: State, calls: seq<Call>, n: nat)
    requires n <= |calls| && PrefixStable(h.lengthOf) && StateInStep(h, s)
    ensures StateInStep(h, Run(h, s, calls, n))
  {
    if n > 0 {
      RunInStep(h, s, calls, n - 1);
      var s' := Run(h, s, calls, n - 1);
      if Enabled(s', calls[n - 1]) {
        StepInStep(h, s', calls[n - 1]);
      }
    }
  }

  /**
   * In every run, whatever is attached, detached and attached again, the
   * handler has been told exactly its connections and the messages that the
   * bytes read over each of them before hanging up frame to, each once and in
   * order; and as long as it wants more the receive buffer holds exactly the
   * bytes of the message that is not complete.
   */
  lemma MessagesAreTheStream(h: Handler, script: seq<Reply>, calls: seq<Call>)
    requires PrefixStable(h.lengthOf)
    ensures var s := Run(h, Fresh(script), calls, |calls|); var r := Heard(h, s.out.heard);
      && s.out.past == r.past
      && (!s.gone && r.outcome > 0 ==> s.inbox == r.inbox)
      && (!s.gone && r.outcome <= 0 ==> s.out.graceful)
  {
    RunInStep(h, Fresh(script), calls, |calls|);
  }

  /** Attaching over an established connection, a linkage has connected once and heard nothing yet. */
  lemma EstablishedStarts(h: Handler, script: seq<Reply>, r: bool, w: bool)
    requires AttachSpec(h, Fresh(script), Established(r, w)).ok
    ensures var s := AttachSpec(h, Fresh(script), Established(r, w)).state;
      !s.gone && Settled(s.out) && s.out.heard == [[]] && s.inbox == Inbox([], 0) && s.out.past == [Connected]
  {
    ConnectsOnce(h, Fresh(script).out.(watch := On(true, w)));
  }

  lemma ConnectsOnce(h: Handler, o: Out)
    ensures var o' := ConnectedSpec(h, o).out;
      o'.heard == o.heard + [[]] && o'.past == o.past + [Connected] && !IsHandshake(o'.action)
  {
    var o' := SetWanna(o, true, o.wbuffer != []);
    var o1 := o'.(action := NoAction, heard := o.heard + [[]], past := o.past + [Connected]);
    var ops := h.react(o1.past).ops;
    OpsEars(o1, ops, |ops|);
  }

  /** So it has when the accept or connect handshake it was waiting for has just completed. */
  lemma HandshakeStarts(h: Handler, s: State, idle: Action)
    requires !s.gone && IsHandshake(s.out.action) && s.out.heard == [] && s.out.past == [] && s.inbox == Inbox([], 0)
    requires NextReply(s.out.script).status.Ok? && !ReadySpec(h, s, idle).gone
    ensures var s' := ReadySpec(h, s, idle);
      Settled(s'.out) && s'.out.heard == [[]] && s'.inbox == Inbox([], 0) && s'.out.past == [Connected]
  {
    var o := s.out.(script := RestOf(s.out.script));
    ConnectsOnce(h, o);
    assert LoopSpec(h, s.out, s.inbox, s.out.action) == HandshakeOnce(h, s.out, s.inbox, s.out.action);
  }
}
