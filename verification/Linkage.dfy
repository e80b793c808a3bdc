/** The connection engine as the source runs it: objects updated in place. */
module Linkages {
  // Each method is shown to take its linkage from one value of `View` to the one the functions of `LinkageSpec`
  // give, so what holds of every run of those holds of these objects.

  import opened Basics
  import opened Framing
  import opened LinkageSpec
  import opened LinkageRuns

  /** The I/O layer below a linkage: it gives its replies one by one and remembers the writes. */
  class AbstractIo {
    var script: seq<Reply>
    ghost var log: seq<Attempt>

    constructor (script: seq<Reply>)
      ensures this.script == script && log == []
    {
      this.script, log := script, [];
    }

    /** Read, Accept, Connect and Shutdown: the next reply. */
    method Ask() returns (reply: Reply)
      modifies `script
      ensures reply == NextReply(old(script)) && script == RestOf(old(script))
    {
      if script == [] {
        return Reply(Bug, [], 0, false);
      }
      reply := script[0];
      script := script[1..];
    }

    method Write(data: Bytes) returns (status: Status, retlen: nat)
      modifies this
      ensures Attempt(data, status, retlen) == Tried(old(script), data)
      ensures script == RestOf(old(script)) && log == old(log) + [Tried(old(script), data)]
    {
      var reply := Ask();
      status := reply.status;
      retlen := if !status.Ok? then 0 else if reply.taken < |data| then reply.taken else |data|;
      log := log + [Attempt(data, status, retlen)];
    }
  }

  datatype Client = Client(runningR: bool, runningW: bool)

  /** The event loop: which watchers run for which linkage. */
  class LinkageWorker {
    var events: map<nat, Client>

    constructor ()
      ensures events == map[]
    {
      events := map[];
    }

    method Attach(id: nat, readNow: bool, writeNow: bool)
      modifies this
      ensures events == if id in old(events) then old(events) else old(events)[id := Client(readNow, writeNow)]
    {
      if id in events {
        return;
      }
      events := events[id := Client(readNow, writeNow)];
    }

    method Detach(id: nat)
      modifies this
      ensures events == old(events) - {id}
    {
      events := events - {id};
    }

    method SetWanna(id: nat, wannaRead: bool, wannaWrite: bool) returns (ok: bool)
      modifies this
      ensures ok <==> id in old(events)
      ensures events == if ok then old(events)[id := Client(wannaRead, wannaWrite)] else old(events)
    {
      if id !in events {
        return false;
      }
      var client := events[id];
      if wannaRead != client.runningR {
        client := client.(runningR := wannaRead);
      }
      if wannaWrite != client.runningW {
        client := client.(runningW := wannaWrite);
      }
      events := events[id := client];
      return true;
    }

    method SetWannaRead(id: nat, wanna: bool) returns (ok: bool)
      modifies this
      ensures ok <==> id in old(events)
      ensures events == if ok then old(events)[id := Client(wanna, old(events)[id].runningW)] else old(events)
    {
      if id !in events {
        return false;
      }
      if wanna == events[id].runningR {
        return true;
      }
      events := events[id := events[id].(runningR := wanna)];
      return true;
    }

    method SetWannaWrite(id: nat, wanna: bool) returns (ok: bool)
      modifies this
      ensures ok <==> id in old(events)
      ensures events == if ok then old(events)[id := Client(old(events)[id].runningR, wanna)] else old(events)
    {
      if id !in events {
        return false;
      }
      if wanna == events[id].runningW {
        return true;
      }
      events := events[id := events[id].(runningW := wanna)];
      return true;
    }

    /** A linkage it watches is readable; one that does not answer with more is released. */
    method OnReadable(linkage: Linkage) returns (gone: bool)
      requires linkage.worker == this && linkage.Valid() && Receiving(linkage.View(), linkage.Box())
      modifies this, linkage, linkage.io
      ensures State(linkage.View(), linkage.Box(), gone)
        == ReadySpec(linkage.h, State(old(linkage.View()), old(linkage.Box()), false), Read)
      ensures !gone ==> linkage.Valid() && linkage.worker == this
    {
      var ret := linkage.OnEvent(this, Read);
      gone := ret <= 0;
      if gone {
        events := events - {linkage.id};
      }
    }

    method OnWritable(linkage: Linkage) returns (gone: bool)
      requires linkage.worker == this && linkage.Valid() && Receiving(linkage.View(), linkage.Box())
      modifies this, linkage, linkage.io
      ensures State(linkage.View(), linkage.Box(), gone)
        == ReadySpec(linkage.h, State(old(linkage.View()), old(linkage.Box()), false), Write)
      ensures !gone ==> linkage.Valid() && linkage.worker == this
    {
      var ret := linkage.OnEvent(this, Write);
      gone := ret <= 0;
      if gone {
        events := events - {linkage.id};
      }
    }
  }

  class Linkage {
    const id: nat
    const h: Handler
    const io: AbstractIo
    var worker: LinkageWorker?

    var rbuffer: Bytes
    var rlength: nat
    var wbuffer: Bytes
    var lastWriting: nat
    var action: Action
    var graceful: bool
    var closed: bool

    var past: seq<Told>
    ghost var heard: seq<Bytes>
    ghost var promised: Bytes
    ghost var dumped: bool

    ghost function Watched(): Watch
      reads this, worker
    {
      if worker == null || id !in worker.events then Off
      else On(worker.events[id].runningR, worker.events[id].runningW)
    }

    /** The linkage as a value, but for its receive buffer. */
    ghost function View(): Out
      reads this, io, worker
    {
      Out(wbuffer, lastWriting, action, graceful, closed, Watched(), io.script, io.log, promised, dumped, heard, past)
    }

    ghost function Box(): Inbox
      reads this
    {
      Inbox(rbuffer, rlength)
    }

    /** A linkage that has a worker is in that worker's map. */
    ghost predicate Linked()
      reads this, worker
    {
      worker != null ==> id in worker.events
    }

    ghost predicate Valid()
      reads this, io, worker
    {
      Linked() && Sound(View())
    }

    constructor (id: nat, h: Handler, io: AbstractIo)
      ensures this.id == id && this.h == h && this.io == io && worker == null
      ensures io.log == [] ==> State(View(), Box(), false) == Fresh(io.script)
    {
      this.id, this.h, this.io, worker := id, h, io, null;
      rbuffer, rlength, wbuffer, lastWriting := [], 0, [], 0;
      action, graceful, closed := NoAction, false, false;
      past, heard, promised, dumped := [], [], [], false;
    }

    // ----- the send buffer -----

    method AppendSendingBuffer(data: Bytes) returns (ok: bool)
      requires Linked()
      modifies `wbuffer
      ensures Linked() && Sent(View(), ok) == Queue(old(View()), data)
    {
      var left := (MAX_BYTES - |wbuffer|) % SIZE_T;
      if left < |data| {
        return false;
      }
      wbuffer := wbuffer + data;
      return true;
    }

    method PickSendingBuffer() returns (data: Bytes)
      requires Valid()
      modifies `lastWriting
      ensures data == if wbuffer == [] then [] else Picked(old(View()))
      ensures lastWriting == if wbuffer == [] then old(lastWriting) else 0
    {
      if wbuffer == [] {
        return [];
      }
      if lastWriting != 0 {
        data := wbuffer[..lastWriting];
        lastWriting := 0;
      } else {
        data := wbuffer;
      }
    }

    method ConsumeSendingBuffer(length: nat)
      requires length <= |wbuffer|
      modifies `wbuffer
      ensures wbuffer == old(wbuffer)[length..]
    {
      wbuffer := wbuffer[length..];
    }

    method Send(data: Bytes) returns (ok: bool)
      requires Valid()
      modifies this, io, worker
      ensures Valid() && Sent(View(), ok) == SendSpec(old(View()), data)
      ensures Box() == old(Box()) && worker == old(worker)
    {
      SendKeeps(View(), data);
      ok := SendUnrecorded(data);
      if ok {
        promised := promised + data;
      }
    }

    /** Send, but for the trace of its promise. */
    method SendUnrecorded(data: Bytes) returns (ok: bool)
      requires Linked()
      modifies this, io, worker
      ensures Linked() && Sent(View(), ok) == SendQuietly(old(View()), data)
      ensures Box() == old(Box()) && worker == old(worker) && promised == old(promised)
    {
      if |data| > INT_MAX || worker == null || graceful {
        return false;
      } else if |data| == 0 {
        return true;
      }
      if !action.NoAction? || |wbuffer| != 0 {
        ok := AppendSendingBuffer(data);
      } else {
        ok := SendAtOnce(data);
      }
    }

    /** The part of Send that writes. */
    method SendAtOnce(data: Bytes) returns (ok: bool)
      requires Linked() && worker != null && Direct(View(), data)
      modifies this, io, worker
      ensures Linked() && Sent(View(), ok) == SendNow(old(View()), data)
      ensures Box() == old(Box()) && worker == old(worker) && promised == old(promised)
    {
      var status, retlen := io.Write(data);
      match status
      case Jammed =>
        ok := AppendSendingBuffer(data);
        if ok {
          var _ := worker.SetWanna(id, false, true);
        }
      case WannaRead =>
        ok := AppendSendingBuffer(data);
        if ok {
          action := Write;
          var _ := worker.SetWanna(id, true, false);
          lastWriting := |data|;
        }
      case WannaWrite =>
        ok := AppendSendingBuffer(data);
        if ok {
          action := Write;
          var _ := worker.SetWanna(id, false, true);
          lastWriting := |data|;
        }
      case Ok =>
        ok := true;
        if retlen < |data| {
          ok := AppendSendingBuffer(data[retlen..]);
          if ok {
            var _ := worker.SetWannaWrite(id, true);
          }
        }
      case _ =>
        ok := false;
    }

    // ----- hanging up -----

    /** Shutdown; `status` stays a bug unless the I/O layer is asked. */
    method ShutdownIo() returns (ret: int, status: Status)
      requires Linked()
      modifies this, io
      ensures Linked() && graceful
      ensures old(closed) ==> ret == 0 && View() == old(View()).(graceful := true)
      ensures !old(closed) ==> status == NextReply(old(io.script)).status && ret == ShutdownResult(status)
      ensures !old(closed) ==>
        View() == old(View()).(graceful := true, script := RestOf(old(io.script)), closed := ret == 0)
      ensures Box() == old(Box()) && worker == old(worker)
    {
      graceful := true;
      status := Bug;
      if closed {
        return 0, status;
      }
      var reply := io.Ask();
      status := reply.status;
      match status
      case Ok =>
        closed := true;
        ret := 0;
      case Closed =>
        closed := true;
        ret := 0;
      case WannaRead =>
        ret := 1;
      case WannaWrite =>
        ret := 1;
      case _ =>
        ret := -1;
    }

    method AfterEvent(w: LinkageWorker, status: Status) returns (ret: int)
      requires Linked() && worker == w
      modifies w
      ensures Linked() && Done(View(), ret) == LinkageSpec.AfterEvent(old(View()), status)
    {
      match status
      case WannaRead =>
        var _ := w.SetWanna(id, true, false);
        ret := 1;
      case WannaWrite =>
        var _ := w.SetWanna(id, false, true);
        ret := 1;
      case Closed =>
        ret := 0;
      case Ok =>
        ret := 1;
      case _ =>
        ret := -1;
    }

    /** The end of OnEventOnce: is the action incomplete? */
    method End(w: LinkageWorker, a: Action, status: Status) returns (ret: int)
      requires Linked() && worker == w
      modifies this, w
      ensures Linked() && Done(View(), ret) == Ended(old(View()), a, status)
      ensures Box() == old(Box()) && worker == old(worker)
    {
      action := if Incomplete(status) then a else NoAction;
      ret := AfterEvent(w, status);
    }

    method ShutdownEvent(w: LinkageWorker) returns (ret: int)
      requires Linked() && worker == w
      modifies this, io, w
      ensures Linked() && Done(View(), ret) == ShutdownOnce(old(View()))
      ensures Box() == old(Box()) && worker == old(worker)
    {
      var status;
      ret, status := ShutdownIo();
      if ret <= 0 {
        action := NoAction;
        var _ := w.SetWannaRead(id, true);
        return;
      }
      ret := End(w, Shutdown, status);
    }

    method Disconnect(finish: bool) returns (ret: int)
      requires Valid() && (worker != null || !action.NoAction?)
      modifies this, io, worker
      ensures Valid() && Done(View(), ret) == DisconnectSpec(old(View()), finish)
      ensures Box() == old(Box()) && worker == old(worker)
      decreases |io.script|, 7
    {
      DisconnectKeeps(View(), finish, false);
      graceful := true;
      if !finish {
        wbuffer := [];
        dumped := true;
      }
      if !action.NoAction? {
        return 1;
      }
      ghost var o, i := View(), Box();
      ShutdownLoop(h, o, i);
      ret := OnEvent(worker, Shutdown);
      assert EventSpec(h, o, i, Shutdown) == Ends(Hangup(o), i);
    }

    // ----- what a handler does -----

    method Act(op: Op)
      requires Valid() && worker != null
      modifies this, io, worker
      ensures Valid() && View() == OpSpec(old(View()), op)
      ensures Box() == old(Box()) && worker == old(worker) && |io.script| <= old(|io.script|)
      decreases |io.script|, 8
    {
      match op
      case Send(data) =>
        var _ := Send(data);
      case Disconnect(finish) =>
        var _ := Disconnect(finish);
    }

    /** The handler's calls, in order. */
    method React(ops: seq<Op>)
      requires Valid() && worker != null
      modifies this, io, worker
      ensures Valid() && View() == OpsSpec(old(View()), ops, |ops|)
      ensures Box() == old(Box()) && worker == old(worker)
      decreases |io.script|, 9
    {
      ghost var o := View();
      var k := 0;
      while k < |ops|
        invariant k <= |ops| && Valid() && worker == old(worker)
        invariant View() == OpsSpec(o, ops, k) && Box() == old(Box())
        invariant |io.script| <= old(|io.script|)
      {
        OpsStep(o, ops, k);
        Act(ops[k]);
        k := k + 1;
      }
    }

    method OnMessage(data: Bytes) returns (next: int)
      requires Valid() && worker != null
      modifies this, io, worker
      ensures var told := old(past) + [Message(data)];
        Valid() && View() == Tell(h, old(View()), told) && past == told && next == h.react(told).next
      ensures Box() == old(Box()) && worker == old(worker)
      decreases |io.script|, 10
    {
      past := past + [Message(data)];
      var r := h.react(past);
      OpsEars(View(), r.ops, |r.ops|);
      React(r.ops);
      next := r.next;
    }

    method OnConnected() returns (ok: bool)
      requires Valid() && worker != null
      modifies this, io, worker
      ensures var told := old(past) + [Connected];
        Valid() && View() == Tell(h, old(View()), told) && ok == (h.react(told).next > 0)
      ensures Box() == old(Box()) && worker == old(worker)
      decreases |io.script|, 10
    {
      past := past + [Connected];
      var r := h.react(past);
      React(r.ops);
      ok := r.next > 0;
    }

    method DoConnected() returns (ok: bool)
      requires Valid() && worker != null
      modifies this, io, worker
      ensures var d := ConnectedSpec(h, old(View()));
        Valid() && View() == d.out && ok == (d.ret > 0)
      ensures Box() == old(Box()) && worker == old(worker)
      decreases |io.script|, 11
    {
      var wannaWrite := |wbuffer| != 0;
      var _ := worker.SetWanna(id, true, wannaWrite);
      action := NoAction;
      heard := heard + [[]];
      ok := OnConnected();
    }

    // ----- receiving -----

    /** Whether the linkage, which was `o`, has told its handler all of its past since. */
    ghost predicate ToldSince(o: Out)
      reads this, io, worker
    {
      o.past <= past && View() == TellAll(h, o, past)
    }

    /** One message of DoReceived. */
    method Announce(data: Bytes, ghost o: Out) returns (next: int)
      requires Valid() && worker != null && ToldSince(o)
      modifies this, io, worker
      ensures Valid() && ToldSince(o) && past == old(past) + [Message(data)] && next == h.react(past).next
      ensures Box() == old(Box()) && worker == old(worker) && |io.script| <= old(|io.script|)
      decreases |io.script|, 11
    {
      TellOne(h, o, past, Message(data));
      next := OnMessage(data);
    }

    /** Asks for the length of the message in front unless it is known; only the answer's sign is returned. */
    method LearnLength(front: Bytes) returns (known: int)
      modifies `rlength
      ensures known == Sign(Wanted(h, old(rlength), front))
      ensures rlength == if known > 0 then Wanted(h, old(rlength), front) else old(rlength)
    {
      known := 1;
      if rlength == 0 {
        var n := h.lengthOf(front);
        if n < 0 {
          return -1;
        } else if n == 0 {
          return 0;
        }
        rlength := n;
      }
    }

    /** Whether cutting `front` in the given state has come to an end in this one. */
    ghost predicate Cut(told: seq<Told>, known: nat, front: Bytes, ret: int)
      reads this
    {
      var c := Deliver(h, told, known, front);
      past == c.past && rlength == c.rlength && ret == c.outcome && (ret > 0 ==> front == c.rest)
    }

    /** One turn of DoReceived's loop: a message, or the end. */
    method DeliverFront(front: Bytes, ghost o: Out) returns (more: bool, ret: int, used: nat)
      requires Valid() && worker != null && ToldSince(o) && front != []
      modifies this, io, worker
      ensures Valid() && worker == old(worker) && rbuffer == old(rbuffer) && ToldSince(o)
      ensures |io.script| <= old(|io.script|)
      ensures used <= |front| && (more ==> used > 0)
      ensures more ==> Deliver(h, old(past), old(rlength), front) == Deliver(h, past, rlength, front[used..])
      ensures !more ==> Cut(old(past), old(rlength), front, ret)
      decreases |io.script|, 12
    {
      more, used := false, 0;
      var known := LearnLength(front);
      if known < 0 {
        ret := -1;
      } else if known == 0 || |front| < rlength {
        ret := 1;
      } else {
        DeliverKnown(h, past, old(rlength), rlength, front);
        used := rlength;
        var next := Announce(front[..rlength], o);
        if next > 0 {
          more := true;
          rlength := 0;
        }
        ret := if next > 0 then 1 else if next < 0 then -1 else 0;
      }
    }

    method DoReceived(buf: Bytes, ghost o: Out) returns (ret: int, consumed: nat)
      requires Valid() && worker != null && ToldSince(o)
      modifies this, io, worker
      ensures Valid() && worker == old(worker) && rbuffer == old(rbuffer) && ToldSince(o)
      ensures |io.script| <= old(|io.script|)
      ensures var c := Deliver(h, old(past), old(rlength), buf);
        && past == c.past && rlength == c.rlength && ret == c.outcome
        && consumed <= |buf| && (ret > 0 ==> buf[consumed..] == c.rest)
      decreases |io.script|, 13
    {
      ghost var c := Deliver(h, past, rlength, buf);
      var rest := buf;
      consumed := 0;
      while rest != []
        invariant consumed <= |buf| && rest == buf[consumed..]
        invariant Valid() && worker == old(worker) && rbuffer == old(rbuffer)
        invariant c == Deliver(h, past, rlength, rest)
        invariant ToldSince(o) && |io.script| <= old(|io.script|)
        decreases |rest|
      {
        var more, outcome, used := DeliverFront(rest, o);
        if !more {
          return outcome, consumed;
        }
        Tail(buf, consumed, used);
        consumed := consumed + used;
        rest := rest[used..];
      }
      return 1, consumed;
    }

    /** The buffer is empty: nothing is moved but what is left over. */
    method ReceiveInPlace(chunk: Bytes, ghost o: Out) returns (ret: int)
      requires Valid() && worker != null && ToldSince(o) && rbuffer == []
      modifies this, io, worker
      ensures Valid() && worker == old(worker) && ToldSince(o) && |io.script| <= old(|io.script|)
      ensures Received(past, Box(), ret) == ReceiveFresh(h, old(past), old(Box()), chunk)
      decreases |io.script|, 14
    {
      var consumed;
      ret, consumed := DoReceived(chunk, o);
      if ret <= 0 {
        return;
      }
      if consumed != |chunk| {
        rbuffer := rbuffer + chunk[consumed..];
      }
    }

    /** The awaited message completes: only its missing bytes are moved. */
    method CompleteFirst(chunk: Bytes, ghost o: Out) returns (ret: int, used: nat)
      requires Valid() && worker != null && ToldSince(o) && Held(Box())
      requires rbuffer != [] && 0 < rlength <= |rbuffer| + |chunk|
      modifies this, io, worker
      ensures Valid() && worker == old(worker) && ToldSince(o) && |io.script| <= old(|io.script|)
      ensures used == old(rlength - |rbuffer|)
      ensures var first := old(rbuffer) + chunk[..used];
        var c := Deliver(h, old(past), old(rlength), first);
        Received(past, Box(), ret) ==
          Received(c.past, Inbox(if c.outcome <= 0 then first else [], c.rlength), c.outcome)
      decreases |io.script|, 14
    {
      var last := |rbuffer|;
      assert rlength > last;
      used := rlength - last;
      rbuffer := rbuffer + chunk[..used];
      assert |rbuffer| == rlength;
      DeliverWhole(h, past, rbuffer);
      var consumed;
      ret, consumed := DoReceived(rbuffer, o);
      if ret > 0 {
        used := consumed - last;
        rbuffer := [];
      }
    }

    method ReceiveMissing(chunk: Bytes, ghost o: Out) returns (ret: int)
      requires Valid() && worker != null && ToldSince(o) && Held(Box())
      requires rbuffer != [] && 0 < rlength <= |rbuffer| + |chunk|
      modifies this, io, worker
      ensures Valid() && worker == old(worker) && ToldSince(o)
      ensures Received(past, Box(), ret) == ReceiveRest(h, old(past), old(Box()), chunk)
      decreases |io.script|, 15
    {
      var used;
      ret, used := CompleteFirst(chunk, o);
      if ret > 0 && used != |chunk| {
        ret := ReceiveInPlace(chunk[used..], o);
      }
    }

    /** The worst case: everything is moved. */
    method ReceiveAppended(chunk: Bytes, ghost o: Out) returns (ret: int)
      requires Valid() && worker != null && ToldSince(o)
      modifies this, io, worker
      ensures Valid() && worker == old(worker) && ToldSince(o)
      ensures Received(past, Box(), ret) == ReceiveMore(h, old(past), old(Box()), chunk)
      decreases |io.script|, 14
    {
      rbuffer := rbuffer + chunk;
      var consumed;
      ret, consumed := DoReceived(rbuffer, o);
      if ret <= 0 {
        return;
      }
      if consumed != 0 {
        rbuffer := rbuffer[consumed..];
      }
    }

    method OnReceived(chunk: Bytes) returns (ret: int)
      requires Valid() && worker != null && Receiving(View(), Box())
      modifies this, io, worker
      ensures Valid() && worker == old(worker)
      ensures Received(past, Box(), ret) == Arrival(h, old(View()), old(Box()), chunk)
      ensures ToldSince(old(View()).(heard := if old(graceful) then old(heard) else Hear(old(heard), chunk)))
      decreases |io.script|, 16
    {
      if !graceful {
        heard := Hear(heard, chunk);
      }
      if |chunk| == 0 {
        return 1;
      }
      if graceful {
        return 1;
      }
      ghost var o := View();
      if |rbuffer| == 0 {
        ret := ReceiveInPlace(chunk, o);
      } else if rlength != 0 && rlength <= |rbuffer| + |chunk| {
        ret := ReceiveMissing(chunk, o);
      } else {
        ret := ReceiveAppended(chunk, o);
      }
    }

    // ----- events -----

    method ReadEvent(w: LinkageWorker) returns (ret: int, next: Action)
      requires Valid() && worker == w && Receiving(View(), Box())
      modifies this, io, w
      ensures Linked() && worker == w && Turn(View(), Box(), ret, next) == ReadOnce(h, old(View()), old(Box()))
      decreases |io.script|, 3
    {
      next := NoAction;
      var reply := io.Ask();
      if reply.status.Ok? {
        action := NoAction;
        ret := OnReceived(reply.bytes);
        if ret == 0 {
          next := Shutdown;
          ret := 1;
        } else if ret > 0 {
          if reply.more {
            next := Read;
          }
          ret := 1;
        } else {
          ret := -1;
        }
        return;
      }
      ret := End(w, Read, reply.status);
    }

    method WriteEvent(w: LinkageWorker) returns (ret: int, next: Action)
      requires Valid() && worker == w
      modifies this, io, w
      ensures Linked() && worker == w && Turn(View(), Box(), ret, next) == WriteOnce(old(View()), old(Box()))
    {
      next := NoAction;
      var data := PickSendingBuffer();
      if data == [] {
        action := NoAction;
        if graceful {
          next := Shutdown;
        }
        return 1, next;
      }
      var status, retlen := io.Write(data);
      if status.Ok? {
        action := NoAction;
        ConsumeSendingBuffer(retlen);
        assert retlen < |data| ==> |wbuffer| > 0;
        return 1, next;
      }
      if Incomplete(status) {
        lastWriting := |data|;
      }
      ret := End(w, Write, status);
    }

    method HandshakeEvent(w: LinkageWorker, a: Action) returns (ret: int)
      requires Valid() && worker == w
      modifies this, io, w
      ensures Linked() && worker == w
      ensures Turn(View(), Box(), ret, NoAction) == HandshakeOnce(h, old(View()), old(Box()), a)
      decreases |io.script|, 3
    {
      var reply := io.Ask();
      if reply.status.Ok? {
        action := NoAction;
        var ok := DoConnected();
        return if ok then 1 else -1;
      }
      ret := End(w, a, reply.status);
    }

    method OnEventOnce(w: LinkageWorker, a: Action) returns (ret: int, next: Action)
      requires Valid() && worker == w && !a.NoAction? && (a.Shutdown? || Receiving(View(), Box()))
      modifies this, io, w
      ensures Valid() && worker == w && Turn(View(), Box(), ret, next) == Once(h, old(View()), old(Box()), a)
      decreases |io.script|, 4
    {
      OnceKeeps(h, View(), Box(), a, false);
      next := NoAction;
      match a
      case Read =>
        ret, next := ReadEvent(w);
      case Write =>
        ret, next := WriteEvent(w);
      case Accept =>
        ret := HandshakeEvent(w, a);
      case Connect =>
        ret := HandshakeEvent(w, a);
      case Shutdown =>
        ret := ShutdownEvent(w);
    }

    /** The loop of OnEvent. */
    method RunActions(w: LinkageWorker, first: Action) returns (ret: int)
      requires Valid() && worker == w && !first.NoAction? && (first.Shutdown? || Receiving(View(), Box()))
      modifies this, io, w
      ensures Valid() && worker == w
      ensures var t := LoopSpec(h, old(View()), old(Box()), first);
        View() == t.out && Box() == t.inbox && ret == t.ret
      decreases |io.script|, 5
    {
      var a := first;
      ghost var t := LoopSpec(h, View(), Box(), a);
      while true
        invariant Valid() && worker == w && !a.NoAction? && (a.Shutdown? || Receiving(View(), Box()))
        invariant t == LoopSpec(h, View(), Box(), a)
        invariant |io.script| <= old(|io.script|)
        decreases |io.script|, Rank(a)
      {
        ghost var o, i := View(), Box();
        LoopStep(h, o, i, a);
        var next;
        ret, next := OnEventOnce(w, a);
        if next.NoAction? {
          break;
        }
        a := next;
      }
    }

    method OnEvent(w: LinkageWorker, idle: Action) returns (ret: int)
      requires Valid() && worker == w && !idle.NoAction?
      requires Receiving(View(), Box()) || (action.NoAction? && idle.Shutdown?)
      modifies this, io, w
      ensures var t := EventSpec(h, old(View()), old(Box()), idle);
        Valid() && View() == t.out && Box() == t.inbox && ret == t.ret
      ensures worker == old(worker)
      decreases |io.script|, 6
    {
      ret := RunActions(w, if action.NoAction? then idle else action);
      IdleKeeps(View(), false);
      if action.NoAction? {
        var _ := w.SetWanna(id, true, |wbuffer| != 0);
      }
    }

    // ----- attaching -----

    /** Hands the linkage to `w`; `start` is what Initialize answers. */
    method Attach(w: LinkageWorker, start: Start) returns (ok: bool)
      requires Valid() && Receiving(View(), Box()) && GoodStart(start) && (worker == null ==> id !in w.events)
      modifies this, io, worker, w
      ensures Valid() && worker == if old(worker) != null then old(worker) else if ok then w else null
      ensures old(worker) != null ==> ok == (worker == w) && View() == old(View()) && Box() == old(Box())
      ensures old(worker) == null ==>
        Attached(State(View(), Box(), false), ok) == AttachSpec(h, State(old(View()), old(Box()), false), start)
    {
      if worker != null {
        return worker == w;
      }
      match start
      case Refused =>
        ok := false;
      case Established(r, wr) =>
        ok := AttachEstablished(w, wr);
      case Waiting(a, r, wr) =>
        Link(w, r, wr);
        action := a;
        ok := true;
      case AtOnce(a, r, wr) =>
        ok := AttachAtOnce(w, a, r, wr);
    }

    /** Over an established connection reading is enabled whatever the I/O layer asks for. */
    method AttachEstablished(w: LinkageWorker, wannaWrite: bool) returns (ok: bool)
      requires Valid() && worker == null && id !in w.events
      modifies this, io, w
      ensures Valid() && worker == (if ok then w else null) && Box() == old(Box())
      ensures var d := ConnectedSpec(h, old(View()).(watch := On(true, wannaWrite)));
        ok == (d.ret > 0) && View() == if ok then d.out else d.out.(watch := Off)
    {
      Link(w, true, wannaWrite);
      ok := DoConnected();
      if !ok {
        Unlink(w);
      }
    }

    method AttachAtOnce(w: LinkageWorker, a: Action, r: bool, wr: bool) returns (ok: bool)
      requires Valid() && worker == null && id !in w.events && Receiving(View(), Box()) && !a.NoAction?
      modifies this, io, w
      ensures Valid() && worker == if ok then w else null
      ensures var t := EventSpec(h, old(View()).(watch := On(r, wr), action := a), old(Box()), a);
        ok == (t.ret > 0) && Box() == t.inbox && View() == if ok then t.out else t.out.(watch := Off)
    {
      Link(w, r, wr);
      action := a;
      var ret := OnEvent(w, a);
      ok := ret > 0;
      if !ok {
        Unlink(w);
      }
    }

    method Link(w: LinkageWorker, r: bool, wr: bool)
      requires Valid() && worker == null && id !in w.events
      modifies `worker, w
      ensures Valid() && worker == w && View() == old(View()).(watch := On(r, wr))
    {
      w.Attach(id, r, wr);
      worker := w;
    }

    method Unlink(w: LinkageWorker)
      requires Valid() && worker == w
      modifies `worker, w
      ensures Valid() && worker == null && View() == old(View()).(watch := Off)
    {
      w.Detach(id);
      worker := null;
    }

    method Detach(w: LinkageWorker) returns (ok: bool)
      requires Valid()
      modifies this, w
      ensures Valid() && ok && Box() == old(Box())
      ensures worker == if old(worker) == w then null else old(worker)
      ensures View() == if old(worker) == w then old(View()).(watch := Off) else old(View())
    {
      if worker == null || worker != w {
        return true;
      }
      Unlink(w);
      return true;
    }
  }

  /** One turn of the loop, and what it may go on with. */
  lemma LoopStep(h: Handler, o: Out, i: Inbox, a: Action)
    requires a.Shutdown? || Receiving(o, i)
    ensures var t := Once(h, o, i, a);
      && LoopSpec(h, o, i, a) == (if t.next.NoAction? then t else LoopSpec(h, t.out, t.inbox, t.next))
      && |t.out.script| <= |o.script|
      && (t.next.NoAction? || t.next.Shutdown? || Receiving(t.out, t.inbox))
      && (!t.next.NoAction? ==> |t.out.script| < |o.script| || Rank(t.next) < Rank(a))
  {
    if !a.Shutdown? {
      OnceHolds(h, o, i, a);
    }
    OnceContinues(h, o, i, a);
  }

  lemma Tail(buf: Bytes, k: nat, n: nat)
    requires k + n <= |buf|
    ensures buf[k..][n..] == buf[k + n..]
  {
  }

  /** A buffer that is one whole message is used up unless the handler stops. */
  lemma DeliverWhole(h: Handler, past: seq<Told>, buf: Bytes)
    requires buf != []
    ensures var c := Deliver(h, past, |buf|, buf); c.outcome > 0 ==> c.rest == [] && c.rlength == 0
    ensures var c := Deliver(h, past, |buf|, buf); -1 <= c.outcome <= 1
  {
    DeliverOne(h, past, |buf|, buf);
    assert buf[|buf|..] == [];
  }

  lemma DeliverKnown(h: Handler, past: seq<Told>, rlength: nat, n: nat, buf: Bytes)
    requires 0 < n <= |buf| && n == Wanted(h, rlength, buf)
    ensures var past' := past + [Message(buf[..n])];
      Deliver(h, past, rlength, buf) ==
        if h.react(past').next <= 0 then Framing.Cut(past', n, buf, Sign(h.react(past').next))
        else Deliver(h, past', 0, buf[n..])
  {
  }

  lemma OpsStep(o: Out, ops: seq<Op>, k: nat)
    requires k < |ops|
    ensures OpsSpec(o, ops, k + 1) == OpSpec(OpsSpec(o, ops, k), ops[k])
  {
  }

  lemma TellOne(h: Handler, o: Out, past: seq<Told>, told: Told)
    requires |o.past| <= |past|
    ensures TellAll(h, o, past + [told]) == Tell(h, TellAll(h, o, past), past + [told])
  {
    assert (past + [told])[..|past|] == past;
  }
}
