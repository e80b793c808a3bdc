/**
 * What each call on a linkage does, as functions on values.
 *
 * `Out` is everything a call can see or change except the receive buffer: the
 * send buffer, the pending action, the flags, the two watchers its worker
 * keeps for it, the replies its I/O layer has yet to give, and five traces:
 * the writes that reached the I/O layer, the bytes promised by sends that
 * returned true, whether the buffer was ever dumped, the bytes read over each
 * connection while not hanging up, and what the handler was told.
 */
module LinkageSpec {
  import opened Framing

  datatype Status = Ok | Bug | Error | Jammed | Closed | WannaRead | WannaWrite

  datatype Action = NoAction | Read | Write | Accept | Connect | Shutdown

  predicate Incomplete(s: Status) { s.WannaRead? || s.WannaWrite? }

  /** One answer of the I/O layer: a read gives `bytes` and `more`, a write takes up to `taken` bytes. */
  datatype Reply = Reply(status: Status, bytes: Bytes, taken: nat, more: bool)

  /** A write that reached the I/O layer. */
  datatype Attempt = Attempt(data: Bytes, status: Status, taken: nat)

  /** The two watchers a worker keeps for an attached linkage. */
  datatype Watch = Off | On(r: bool, w: bool)

  datatype Out = Out(
    wbuffer: Bytes, lastWriting: nat, action: Action, graceful: bool, closed: bool,
    watch: Watch, script: seq<Reply>,
    log: seq<Attempt>, promised: Bytes, dumped: bool, heard: seq<Bytes>, past: seq<Told>)

  const MAX_BYTES := 64 * 1024 * 1024
  const INT_MAX := 0x7FFF_FFFF
  const SIZE_T := 0x1_0000_0000_0000_0000

  // ----- the I/O layer and the worker -----

  /** The next answer; a layer with nothing left to answer reports a bug. */
  function NextReply(script: seq<Reply>): Reply {
    if script == [] then Reply(Bug, [], 0, false) else script[0]
  }

  function RestOf(script: seq<Reply>): seq<Reply> {
    if script == [] then [] else script[1..]
  }

  /** What a write of `data` comes to: bytes are taken on success only. */
  function Tried(script: seq<Reply>, data: Bytes): (a: Attempt)
    ensures a.taken <= |data| && (!a.status.Ok? ==> a.taken == 0)
  {
    var r := NextReply(script);
    Attempt(data, r.status, if !r.status.Ok? then 0 else if r.taken < |data| then r.taken else |data|)
  }

  function AfterWrite(o: Out, data: Bytes): Out {
    o.(script := RestOf(o.script), log := o.log + [Tried(o.script, data)])
  }

  /** SetWanna: no effect unless attached. */
  function SetWatch(w: Watch, r: bool, w': bool): Watch { if w.Off? then w else On(r, w') }

  function SetWanna(o: Out, r: bool, w: bool): Out { o.(watch := SetWatch(o.watch, r, w)) }

  function SetWannaRead(o: Out, r: bool): Out {
    if o.watch.Off? then o else o.(watch := On(r, o.watch.w))
  }

  function SetWannaWrite(o: Out, w: bool): Out {
    if o.watch.Off? then o else o.(watch := On(o.watch.r, w))
  }

  // ----- sending -----

  /** The room left for queued bytes, as a size_t. */
  function Room(o: Out): nat { (MAX_BYTES - |o.wbuffer|) % SIZE_T }

  function Append(o: Out, data: Bytes): Out { o.(wbuffer := o.wbuffer + data) }

  datatype Sent = Sent(out: Out, ok: bool)

  function Queue(o: Out, data: Bytes): Sent {
    if Room(o) < |data| then Sent(o, false) else Sent(Append(o, data), true)
  }

  /** A send with nothing queued and no action pending writes at once. */
  function SendNow(o: Out, data: Bytes): (s: Sent)
    ensures |s.out.script| <= |o.script|
  {
    var a := Tried(o.script, data);
    var o' := AfterWrite(o, data);
    match a.status
    case Jammed =>
      var q := Queue(o', data);
      if q.ok then Sent(SetWanna(q.out, false, true), true) else q
    case WannaRead =>
      var q := Queue(o', data);
      if q.ok then Sent(SetWanna(q.out, true, false).(action := Write, lastWriting := |data|), true) else q
    case WannaWrite =>
      var q := Queue(o', data);
      if q.ok then Sent(SetWanna(q.out, false, true).(action := Write, lastWriting := |data|), true) else q
    case Ok =>
      if a.taken < |data| then
        var q := Queue(o', data[a.taken..]);
        if q.ok then Sent(SetWannaWrite(q.out, true), true) else q
      else Sent(o', true)
    case _ => Sent(o', false)
  }

  /** Send without the trace of its promise. */
  function SendQuietly(o: Out, data: Bytes): (s: Sent)
    ensures |s.out.script| <= |o.script|
  {
    if |data| > INT_MAX || o.watch.Off? || o.graceful then Sent(o, false)
    else if data == [] then Sent(o, true)
    else if !o.action.NoAction? || o.wbuffer != [] then Queue(o, data)
    else SendNow(o, data)
  }

  function SendSpec(o: Out, data: Bytes): (s: Sent)
    ensures |s.out.script| <= |o.script|
  {
    var s := SendQuietly(o, data);
    if s.ok then s.(out := s.out.(promised := o.promised + data)) else s
  }

  // ----- hanging up -----

  datatype Done = Done(out: Out, ret: int)

  /** AfterEvent: waits for what the I/O layer asked for. */
  function AfterEvent(o: Out, s: Status): Done {
    match s
    case WannaRead => Done(SetWanna(o, true, false), 1)
    case WannaWrite => Done(SetWanna(o, false, true), 1)
    case Closed => Done(o, 0)
    case Ok => Done(o, 1)
    case _ => Done(o, -1)
  }

  /** The end of an action that did not complete. */
  function Ended(o: Out, action: Action, s: Status): (d: Done)
    ensures d.out.script == o.script
  {
    AfterEvent(o.(action := if Incomplete(s) then action else NoAction), s)
  }

  /** The result of asking the I/O layer to shut down. */
  function ShutdownResult(s: Status): int {
    match s
    case Ok => 0
    case Closed => 0
    case WannaRead => 1
    case WannaWrite => 1
    case _ => -1
  }

  /** One turn of the shutdown action. */
  function ShutdownOnce(o: Out): (d: Done)
    ensures |d.out.script| <= |o.script|
  {
    var o' := o.(graceful := true);
    if o.closed then Done(SetWannaRead(o'.(action := NoAction), true), 0)
    else
      var s := NextReply(o.script).status;
      var ret := ShutdownResult(s);
      var o'' := o'.(script := RestOf(o.script), closed := ret == 0);
      if ret <= 0 then Done(SetWannaRead(o''.(action := NoAction), true), ret)
      else Ended(o'', Shutdown, s)
  }

  /** With no action pending the reader is on, and the writer if bytes are queued. */
  function Idle(o: Out): Out {
    if o.action.NoAction? then SetWanna(o, true, o.wbuffer != []) else o
  }

  /** An event that starts with the shutdown action. */
  function Hangup(o: Out): (d: Done)
    ensures |d.out.script| <= |o.script|
  {
    var d := ShutdownOnce(o);
    Done(Idle(d.out), d.ret)
  }

  function DisconnectSpec(o: Out, finish: bool): (d: Done)
    ensures |d.out.script| <= |o.script|
  {
    var o' := if finish then o.(graceful := true) else o.(graceful := true, wbuffer := [], dumped := true);
    if !o.action.NoAction? then Done(o', 1) else Hangup(o')
  }

  // ----- what a handler does -----

  function OpSpec(o: Out, op: Op): (o': Out)
    ensures |o'.script| <= |o.script|
  {
    match op
    case Send(data) => SendSpec(o, data).out
    case Disconnect(finish) => DisconnectSpec(o, finish).out
  }

  function OpsSpec(o: Out, ops: seq<Op>, n: nat): (o': Out)
    requires n <= |ops|
    ensures |o'.script| <= |o.script|
  {
    if n == 0 then o else OpSpec(OpsSpec(o, ops, n - 1), ops[n - 1])
  }

  /** The handler is told the last of `past` and acts. */
  function Tell(h: Handler, o: Out, past: seq<Told>): (o': Out)
    ensures |o'.script| <= |o.script|
  {
    var ops := h.react(past).ops;
    OpsSpec(o.(past := past), ops, |ops|)
  }

  /** The handler is told all of `past` that it has not been told, one by one. */
  function TellAll(h: Handler, o: Out, past: seq<Told>): (o': Out)
    requires |o.past| <= |past|
    ensures |o'.script| <= |o.script|
    decreases |past|
  {
    if |past| == |o.past| then o else Tell(h, TellAll(h, o, past[..|past| - 1]), past)
  }

  /** DoConnected. */
  function ConnectedSpec(h: Handler, o: Out): (d: Done)
    ensures |d.out.script| <= |o.script|
  {
    var past := o.past + [Connected];
    var o' := SetWanna(o, true, o.wbuffer != []).(action := NoAction, heard := o.heard + [[]]);
    Done(Tell(h, o', past), h.react(past).next)
  }

  // ----- events -----

  datatype Turn = Turn(out: Out, inbox: Inbox, ret: int, next: Action)

  function Ends(d: Done, i: Inbox): Turn { Turn(d.out, i, d.ret, NoAction) }

  /** OnReceived: what is told, what is kept, the outcome. */
  function Arrival(h: Handler, o: Out, i: Inbox, chunk: Bytes): (r: Received)
    ensures o.past <= r.past
  {
    if chunk == [] || o.graceful || !Held(i) then Received(o.past, i, 1)
    else
      ReceiveGrows(h, o.past, i, chunk);
      Receive(h, o.past, i, chunk)
  }

  function ReadOnce(h: Handler, o: Out, i: Inbox): (t: Turn)
    ensures |t.out.script| <= |o.script| && (!t.next.NoAction? ==> |t.out.script| < |o.script|)
  {
    var reply := NextReply(o.script);
    var o' := o.(script := RestOf(o.script));
    if !reply.status.Ok? then Ends(Ended(o', Read, reply.status), i)
    else
      var r := Arrival(h, o', i, reply.bytes);
      var heard := if o.graceful then o.heard else Hear(o.heard, reply.bytes);
      var o'' := TellAll(h, o'.(action := NoAction, heard := heard), r.past);
      if r.outcome == 0 then Turn(o'', r.inbox, 1, Shutdown)
      else if r.outcome > 0 then Turn(o'', r.inbox, 1, if reply.more then Read else NoAction)
      else Turn(o'', r.inbox, -1, NoAction)
  }

  /** PickSendingBuffer: a retry writes exactly the bytes of the last time. */
  function Picked(o: Out): Bytes {
    if 0 < o.lastWriting <= |o.wbuffer| then o.wbuffer[..o.lastWriting] else o.wbuffer
  }

  function WriteOnce(o: Out, i: Inbox): (t: Turn)
    ensures |t.out.script| <= |o.script| && (t.next.NoAction? || t.next.Shutdown?)
  {
    if o.wbuffer == [] then Turn(o.(action := NoAction), i, 1, if o.graceful then Shutdown else NoAction)
    else
      var data := Picked(o);
      var a := Tried(o.script, data);
      var o' := AfterWrite(o, data);
      if a.status.Ok? then
        Turn(o'.(lastWriting := 0, action := NoAction, wbuffer := o.wbuffer[a.taken..]), i, 1, NoAction)
      else Ends(Ended(o'.(lastWriting := if Incomplete(a.status) then |data| else 0), Write, a.status), i)
  }

  function HandshakeOnce(h: Handler, o: Out, i: Inbox, action: Action): (t: Turn)
    ensures |t.out.script| <= |o.script| && t.next.NoAction?
  {
    var s := NextReply(o.script).status;
    var o' := o.(script := RestOf(o.script));
    if s.Ok? then
      var d := ConnectedSpec(h, o');
      Turn(d.out, i, if d.ret > 0 then 1 else -1, NoAction)
    else Ends(Ended(o', action, s), i)
  }

  /** OnEventOnce. */
  function Once(h: Handler, o: Out, i: Inbox, action: Action): Turn {
    match action
    case Read => ReadOnce(h, o, i)
    case Write => WriteOnce(o, i)
    case Accept => HandshakeOnce(h, o, i, action)
    case Connect => HandshakeOnce(h, o, i, action)
    case Shutdown => Ends(ShutdownOnce(o), i)
    case NoAction => Ends(Ended(o, action, Bug), i)
  }

  /** Shutting down is the last thing an event does. */
  function Rank(action: Action): nat { if action.Shutdown? then 0 else 1 }

  /** The loop of OnEvent. */
  function LoopSpec(h: Handler, o: Out, i: Inbox, action: Action): (t: Turn)
    ensures |t.out.script| <= |o.script|
    decreases |o.script|, Rank(action)
  {
    var t := Once(h, o, i, action);
    if t.next.NoAction? then t else LoopSpec(h, t.out, t.inbox, t.next)
  }

  /** OnEvent: a pending action goes before the idle one. */
  function EventSpec(h: Handler, o: Out, i: Inbox, idle: Action): Turn {
    var t := LoopSpec(h, o, i, if o.action.NoAction? then idle else o.action);
    t.(out := Idle(t.out))
  }

  // ----- attaching, and whole runs -----

  /** How Initialize answers: not at all, established, an action to wait for, or one to take at once. */
  datatype Start =
    | Refused
    | Established(r: bool, w: bool)
    | Waiting(action: Action, r: bool, w: bool)
    | AtOnce(action: Action, r: bool, w: bool)

  /** The I/O layer asks for a handshake, and for an event if it is to wait for one. */
  predicate GoodStart(s: Start) {
    match s
    case Waiting(a, r, w) => (a.Accept? || a.Connect?) && (r || w)
    case AtOnce(a, r, w) => a.Accept? || a.Connect?
    case _ => true
  }

  /** A linkage; once released by its worker it is gone. */
  datatype State = State(out: Out, inbox: Inbox, gone: bool)

  datatype Attached = Attached(state: State, ok: bool)

  function AttachSpec(h: Handler, s: State, start: Start): Attached {
    var o := s.out;
    if o.watch.On? then Attached(s, true)
    else
      match start
      case Refused => Attached(s, false)
      case Established(r, w) =>
        var d := ConnectedSpec(h, o.(watch := On(true, w)));
        if d.ret > 0 then Attached(s.(out := d.out), true) else Attached(s.(out := d.out.(watch := Off)), false)
      case Waiting(a, r, w) => Attached(s.(out := o.(watch := On(r, w), action := a)), true)
      case AtOnce(a, r, w) =>
        var t := EventSpec(h, o.(watch := On(r, w), action := a), s.inbox, a);
        if t.ret > 0 then Attached(State(t.out, t.inbox, s.gone), true)
        else Attached(State(t.out.(watch := Off), t.inbox, s.gone), false)
  }

  /** An event the worker reports; a linkage that does not answer with more is released. */
  function ReadySpec(h: Handler, s: State, idle: Action): State {
    var t := EventSpec(h, s.out, s.inbox, idle);
    if t.ret > 0 then State(t.out, t.inbox, false) else State(t.out.(watch := Off), t.inbox, true)
  }

  datatype Call =
    | CallSend(data: Bytes)
    | CallDisconnect(finish: bool)
    | CallAttach(start: Start)
    | CallDetach
    | Readable
    | Writable

  /** Calls the source allows: a worker reports what it watches, and only an attached linkage can hang up. */
  predicate Enabled(s: State, c: Call) {
    && !s.gone
    && match c
       case CallDisconnect(finish) => s.out.watch.On? || !s.out.action.NoAction?
       case CallAttach(start) => GoodStart(start)
       case Readable => s.out.watch.On? && s.out.watch.r
       case Writable => s.out.watch.On? && s.out.watch.w
       case _ => true
  }

  function Step(h: Handler, s: State, c: Call): State
    requires Enabled(s, c)
  {
    match c
    case CallSend(data) => s.(out := SendSpec(s.out, data).out)
    case CallDisconnect(finish) => s.(out := DisconnectSpec(s.out, finish).out)
    case CallAttach(start) => AttachSpec(h, s, start).state
    case CallDetach => s.(out := s.out.(watch := Off))
    case Readable => ReadySpec(h, s, Read)
    case Writable => ReadySpec(h, s, Write)
  }

  /** A fresh linkage over an I/O layer that will give these replies. */
  function Fresh(script: seq<Reply>): State {
    State(Out([], 0, NoAction, false, false, Off, script, [], [], false, [], []), Inbox([], 0), false)
  }

  /** The state after the first `n` calls; calls that are not enabled do not happen. */
  function Run(h: Handler, s: State, calls: seq<Call>, n: nat): State
    requires n <= |calls|
  {
    if n == 0 then s
    else
      var s' := Run(h, s, calls, n - 1);
      if Enabled(s', calls[n - 1]) then Step(h, s', calls[n - 1]) else s'
  }
}
