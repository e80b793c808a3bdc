/** Outgoing channels of one I/O context, and when their handlers are freed. */
module Channels {
  // Three maps together decide when the handler of a channel may be freed. Every call below holds the mutex of the
  // context from end to end, so a run is a sequence of them.

  import opened Arithmetic

  /** A live connection and the handler it was made with. */
  datatype Line = Line(linkage: nat, handler: nat)

  /**
   * `infos` tells how to connect a channel again, `handlers` owns the handler
   * of each outgoing channel, `lines` holds the connections; `freed` are the
   * handlers deleted so far and `outgoing` counts outgoing connections.
   */
  datatype Context = Context(
    infos: map<nat, nat>, handlers: map<nat, nat>, lines: map<nat, Line>,
    channel: nat, nextHandler: nat, nextLine: nat, freed: seq<nat>, outgoing: int)

  const TOP := 0x8000_0000_0000_0000

  /** Outgoing channels carry the highest of their 64 bits. */
  predicate IsOutgoing(c: nat) { c >= TOP }

  /** A channel without its highest bit. */
  function Base(c: nat): nat { if c >= TOP then c - TOP else c }

  /** The context a channel belongs to. */
  function ThreadId(c: nat, slots: nat): nat
    requires slots > 0
  {
    Base(c) % slots
  }

  /** The channel that is allocated next. */
  function Allocated(x: Context, slots: nat, incoming: bool): nat {
    if incoming then x.channel + slots else x.channel + slots + TOP
  }

  function ConnectSpec(x: Context, slots: nat): Context {
    var c := Allocated(x, slots, false);
    x.(channel := x.channel + slots, handlers := x.handlers[c := x.nextHandler],
       infos := x.infos[c := x.nextHandler], nextHandler := x.nextHandler + 1)
  }

  /** A connection is accepted; `owner` is the handler of its listener. */
  function AcceptSpec(x: Context, slots: nat, owner: nat): Context {
    x.(channel := x.channel + slots, nextLine := x.nextLine + 1,
       lines := x.lines[Allocated(x, slots, true) := Line(x.nextLine, owner)])
  }

  /** DoReconnect: a connection that does not come about or cannot be attached leaves no trace. */
  function ReconnectSpec(x: Context, c: nat, attached: bool): Context
    requires c in x.infos
  {
    if !attached then x
    else x.(lines := x.lines[c := Line(x.nextLine, x.infos[c])], nextLine := x.nextLine + 1, outgoing := x.outgoing + 1)
  }

  /** Send: a channel without a connection is connected again if it is known how. */
  function SendSpec(x: Context, c: nat, attached: bool): Context {
    if c in x.lines || !IsOutgoing(c) || c !in x.infos then x else ReconnectSpec(x, c, attached)
  }

  /** Frees the handler of a channel. */
  function FreeSpec(x: Context, c: nat): Context
    requires c in x.handlers
  {
    x.(handlers := x.handlers - {c}, freed := x.freed + [x.handlers[c]])
  }

  /** What ReleaseChannel asserts before it frees. */
  predicate CanRelease(x: Context, c: nat) { IsOutgoing(c) && c !in x.infos ==> c in x.handlers }

  /** ReleaseChannel: the connection of a channel is gone. */
  function ReleaseSpec(x: Context, c: nat): Context
    requires CanRelease(x, c)
  {
    var x' := x.(lines := x.lines - {c});
    if !IsOutgoing(c) then x'
    else
      var y := x'.(outgoing := x.outgoing - 1);
      if c in x.infos then y else FreeSpec(y, c)
  }

  /** Forget: a channel is not to be connected again. */
  function ForgetSpec(x: Context, c: nat): Context {
    var x' := x.(infos := x.infos - {c});
    if c in x.lines || c !in x.handlers then x' else FreeSpec(x', c)
  }

  // ----- runs -----

  datatype Event =
    | Connect
    | Accept(owner: nat)
    | Send(c: nat, attached: bool)
    | Release(c: nat)            // once for every connection, when it ends
    | Forget(c: nat)

  /** Channels are 64 bits wide: what is allocated must leave the highest one alone. */
  predicate Enabled(x: Context, slots: nat, e: Event) {
    match e
    case Connect => x.channel + slots < TOP
    case Accept(owner) => x.channel + slots < TOP
    case Release(c) => c in x.lines
    case _ => true
  }

  /** No handler is owned twice, and none that is owned has been freed; every one is owned or has been freed once. */
  ghost predicate Owned(x: Context) {
    && (forall c :: c in x.handlers ==> x.handlers[c] < x.nextHandler && x.handlers[c] !in x.freed)
    && (forall c, d :: c in x.handlers && d in x.handlers && c != d ==> x.handlers[c] != x.handlers[d])
    && (forall i :: 0 <= i < |x.freed| ==> x.freed[i] < x.nextHandler)
    && (forall i, j :: 0 <= i < j < |x.freed| ==> x.freed[i] != x.freed[j])
    && forall h: nat :: h < x.nextHandler ==> h in x.freed || Owner(x, h)
  }

  ghost predicate Owner(x: Context, h: nat) { exists c :: c in x.handlers && x.handlers[c] == h }

  /** A handler is owned exactly for the outgoing channels that may connect again or are connected. */
  ghost predicate Needed(x: Context) {
    && (forall c :: c in x.handlers <==> c in x.infos || (c in x.lines && IsOutgoing(c)))
    && (forall c :: c in x.handlers ==> IsOutgoing(c))
    && (forall c :: c in x.infos ==> c in x.handlers && x.infos[c] == x.handlers[c])
    && forall c :: c in x.lines && IsOutgoing(c) ==> c in x.handlers && x.lines[c].handler == x.handlers[c]
  }

  /** Every channel in use was handed out before. */
  ghost predicate Handed(x: Context) {
    && x.channel < TOP
    && (forall c :: c in x.handlers ==> Base(c) <= x.channel)
    && forall c :: c in x.lines ==> Base(c) <= x.channel
  }

  /** The outgoing connections. */
  ghost function OutgoingLines(x: Context): set<nat> { set c | c in x.lines && IsOutgoing(c) }

  ghost predicate Inv(x: Context) {
    Owned(x) && Needed(x) && Handed(x) && x.outgoing == |OutgoingLines(x)|
  }

  lemma OwnedByHandlers(x: Context, y: Context)
    requires Owned(x) && y.handlers == x.handlers && y.freed == x.freed && y.nextHandler == x.nextHandler
    ensures Owned(y)
  {
    forall h: nat | Owner(x, h) ensures Owner(y, h) {
    }
  }

  lemma NewOwner(x: Context, c: nat)
    requires Owned(x) && c !in x.handlers
    ensures Owned(x.(handlers := x.handlers[c := x.nextHandler], nextHandler := x.nextHandler + 1))
  {
    var y := x.(handlers := x.handlers[c := x.nextHandler], nextHandler := x.nextHandler + 1);
    forall h: nat | h < y.nextHandler ensures h in y.freed || Owner(y, h) {
      if h == x.nextHandler {
        assert y.handlers[c] == h;
      } else if Owner(x, h) {
        var d :| d in x.handlers && x.handlers[d] == h;
        assert y.handlers[d] == h;
      }
    }
  }

  lemma FreeKeepsOwned(x: Context, c: nat)
    requires Owned(x) && c in x.handlers
    ensures Owned(FreeSpec(x, c))
  {
    var x' := FreeSpec(x, c);
    forall h: nat | h < x'.nextHandler ensures h in x'.freed || Owner(x', h) {
      if h == x.handlers[c] {
        assert x'.freed[|x.freed|] == h;
      } else if Owner(x, h) {
        var d :| d in x.handlers && x.handlers[d] == h;
        assert d in x'.handlers && x'.handlers[d] == h;
      } else {
        assert h in x.freed;
      }
    }
  }

  lemma SameLines(x: Context, y: Context)
    requires y.lines == x.lines
    ensures OutgoingLines(y) == OutgoingLines(x)
  {
  }

  lemma ConnectOwned(x: Context, slots: nat)
    requires Owned(x) && Allocated(x, slots, false) !in x.handlers
    ensures Owned(ConnectSpec(x, slots))
  {
    var c := Allocated(x, slots, false);
    NewOwner(x, c);
    var y := x.(handlers := x.handlers[c := x.nextHandler], nextHandler := x.nextHandler + 1);
    OwnedByHandlers(y, ConnectSpec(x, slots));
  }

  lemma ConnectNeeded(x: Context, slots: nat)
    requires Needed(x) && Handed(x) && 0 < slots && x.channel + slots < TOP
    ensures var c := Allocated(x, slots, false); c !in x.handlers && c !in x.infos && c !in x.lines
    ensures Needed(ConnectSpec(x, slots)) && Handed(ConnectSpec(x, slots))
  {
    assert Base(Allocated(x, slots, false)) > x.channel;
  }

  lemma ConnectKeeps(x: Context, slots: nat)
    requires Inv(x) && 0 < slots && x.channel + slots < TOP
    ensures Inv(ConnectSpec(x, slots))
  {
    ConnectNeeded(x, slots);
    ConnectOwned(x, slots);
    SameLines(x, ConnectSpec(x, slots));
  }

  lemma AcceptNeeded(x: Context, slots: nat, owner: nat)
    requires Needed(x) && Handed(x) && x.channel + slots < TOP
    ensures Needed(AcceptSpec(x, slots, owner)) && Handed(AcceptSpec(x, slots, owner))
    ensures OutgoingLines(AcceptSpec(x, slots, owner)) == OutgoingLines(x)
  {
  }

  lemma AcceptKeeps(x: Context, slots: nat, owner: nat)
    requires Inv(x) && x.channel + slots < TOP
    ensures Inv(AcceptSpec(x, slots, owner))
  {
    OwnedByHandlers(x, AcceptSpec(x, slots, owner));
    AcceptNeeded(x, slots, owner);
  }

  lemma ReconnectNeeded(x: Context, c: nat)
    requires Needed(x) && Handed(x) && c in x.infos && c !in x.lines
    ensures Needed(ReconnectSpec(x, c, true)) && Handed(ReconnectSpec(x, c, true))
    ensures OutgoingLines(ReconnectSpec(x, c, true)) == OutgoingLines(x) + {c}
  {
  }

  /** Connected again, a channel adds one line. */
  lemma ReconnectKeeps(x: Context, c: nat)
    requires Inv(x) && c in x.infos && c !in x.lines
    ensures Inv(ReconnectSpec(x, c, true))
  {
    ReconnectNeeded(x, c);
    OwnedByHandlers(x, ReconnectSpec(x, c, true));
    assert c !in OutgoingLines(x);
  }

  lemma SendKeeps(x: Context, c: nat, attached: bool)
    requires Inv(x)
    ensures Inv(SendSpec(x, c, attached))
  {
    if SendSpec(x, c, attached) != x {
      ReconnectKeeps(x, c);
    }
  }

  /** A connection has ended; its handler is not looked at yet. */
  function EndLine(x: Context, c: nat): Context {
    x.(lines := x.lines - {c}, outgoing := if IsOutgoing(c) then x.outgoing - 1 else x.outgoing)
  }

  lemma LineEnds(x: Context, c: nat)
    requires Handed(x) && x.outgoing == |OutgoingLines(x)| && c in x.lines
    ensures Handed(EndLine(x, c)) && EndLine(x, c).outgoing == |OutgoingLines(EndLine(x, c))|
  {
    if IsOutgoing(c) {
      assert OutgoingLines(x) == OutgoingLines(EndLine(x, c)) + {c};
    } else {
      assert OutgoingLines(x) == OutgoingLines(EndLine(x, c));
    }
  }

  lemma ReleaseNeeded(x: Context, c: nat)
    requires Needed(x) && c in x.lines
    ensures CanRelease(x, c) && Needed(ReleaseSpec(x, c))
    ensures ReleaseSpec(x, c) == if IsOutgoing(c) && c !in x.infos then FreeSpec(EndLine(x, c), c) else EndLine(x, c)
  {
  }

  lemma FreeHanded(x: Context, c: nat)
    requires Handed(x) && c in x.handlers
    ensures Handed(FreeSpec(x, c)) && OutgoingLines(FreeSpec(x, c)) == OutgoingLines(x)
  {
  }

  lemma ReleaseKeeps(x: Context, c: nat)
    requires Inv(x) && c in x.lines
    ensures CanRelease(x, c) && Inv(ReleaseSpec(x, c))
  {
    ReleaseNeeded(x, c);
    LineEnds(x, c);
    OwnedByHandlers(x, EndLine(x, c));
    if IsOutgoing(c) && c !in x.infos {
      FreeKeepsOwned(EndLine(x, c), c);
      FreeHanded(EndLine(x, c), c);
    }
  }

  lemma ForgetNeeded(x: Context, c: nat)
    requires Needed(x) && Handed(x)
    ensures Needed(ForgetSpec(x, c)) && Handed(ForgetSpec(x, c))
    ensures ForgetSpec(x, c).lines == x.lines
  {
  }

  lemma ForgetOwned(x: Context, c: nat)
    requires Owned(x)
    ensures Owned(ForgetSpec(x, c))
  {
    var y := x.(infos := x.infos - {c});
    OwnedByHandlers(x, y);
    if c !in x.lines && c in x.handlers {
      FreeKeepsOwned(y, c);
    }
  }

  lemma ForgetKeeps(x: Context, c: nat)
    requires Inv(x)
    ensures Inv(ForgetSpec(x, c))
  {
    ForgetNeeded(x, c);
    ForgetOwned(x, c);
    SameLines(x, ForgetSpec(x, c));
  }

  // ----- who is connected, and who may connect again -----

  /**
   * A channel is connected after a step exactly if it was accepted in it, or sent over with a way to connect
   * again that worked, or was connected and did not end.
   */
  lemma ConnectedExactly(x: Context, slots: nat, e: Event, c: nat)
    requires Inv(x) && 0 < slots && Enabled(x, slots, e)
    ensures c in Step(x, slots, e).lines <==>
      || (e.Accept? && c == Allocated(x, slots, true))
      || (e == Send(c, true) && IsOutgoing(c) && c in x.infos)
      || (c in x.lines && e != Release(c))
  {
    ReleasesConnected(x, slots, e);
  }

  lemma ReleasesConnected(x: Context, slots: nat, e: Event)
    requires Inv(x) && Enabled(x, slots, e)
    ensures e.Release? ==> CanRelease(x, e.c)
  {
    if e.Release? {
      ReleaseKeeps(x, e.c);
    }
  }

  /** It may connect again exactly if it was made in it, or could before and was not forgotten. */
  lemma ReconnectableExactly(x: Context, slots: nat, e: Event, c: nat)
    requires Inv(x) && 0 < slots && Enabled(x, slots, e)
    ensures c in Step(x, slots, e).infos <==>
      || (e.Connect? && c == Allocated(x, slots, false))
      || (c in x.infos && e != Forget(c))
  {
    ReleasesConnected(x, slots, e);
  }

  // ----- which context a channel belongs to -----

  ghost predicate Routed(x: Context, slots: nat, thread: nat)
    requires slots > 0
  {
    && x.channel % slots == thread
    && (forall c :: c in x.handlers ==> ThreadId(c, slots) == thread)
    && forall c :: c in x.lines ==> ThreadId(c, slots) == thread
  }

  /** The next channel is of the right kind and comes back to its context. */
  lemma NextIsHome(x: Context, slots: nat, thread: nat, incoming: bool)
    requires slots > 0 && x.channel % slots == thread && x.channel + slots < TOP
    ensures var c := Allocated(x, slots, incoming);
      IsOutgoing(c) == !incoming && ThreadId(c, slots) == thread && (x.channel + slots) % slots == thread
  {
    var a := x.channel;
    DivModOf(a, slots);
    DivUnique(a + slots, slots, a / slots + 1, a % slots);
  }

  function NewContext(thread: nat): Context { Context(map[], map[], map[], thread, 0, 0, [], 0) }

  function Step(x: Context, slots: nat, e: Event): Context {
    match e
    case Connect => ConnectSpec(x, slots)
    case Accept(owner) => AcceptSpec(x, slots, owner)
    case Send(c, attached) => SendSpec(x, c, attached)
    case Release(c) => if CanRelease(x, c) then ReleaseSpec(x, c) else x
    case Forget(c) => ForgetSpec(x, c)
  }

  lemma StepKeeps(x: Context, slots: nat, e: Event)
    requires Inv(x) && slots > 0 && Enabled(x, slots, e)
    ensures Inv(Step(x, slots, e))
  {
    match e
    case Connect => ConnectKeeps(x, slots);
    case Accept(owner) => AcceptKeeps(x, slots, owner);
    case Send(c, attached) => SendKeeps(x, c, attached);
    case Release(c) => ReleaseKeeps(x, c);
    case Forget(c) => ForgetKeeps(x, c);
  }

  lemma StepRoutes(x: Context, slots: nat, thread: nat, e: Event)
    requires Inv(x) && slots > 0 && Enabled(x, slots, e) && Routed(x, slots, thread)
    ensures Routed(Step(x, slots, e), slots, thread)
  {
    if e.Connect? || e.Accept? {
      NextIsHome(x, slots, thread, e.Accept?);
    }
  }

  ghost function Run(slots: nat, thread: nat, events: seq<Event>, n: nat): Context
    requires n <= |events|
  {
    if n == 0 then NewContext(thread)
    else
      var x := Run(slots, thread, events, n - 1);
      if Enabled(x, slots, events[n - 1]) then Step(x, slots, events[n - 1]) else x
  }

  lemma {:induction false} RunKeeps(slots: nat, thread: nat, events: seq<Event>, n: nat)
    requires n <= |events| && thread < slots && thread < TOP
    ensures Inv(Run(slots, thread, events, n)) && Routed(Run(slots, thread, events, n), slots, thread)
  {
    if n == 0 {
      DivUnique(thread, slots, 0, thread);
      assert OutgoingLines(NewContext(thread)) == {};
    } else {
      var x := Run(slots, thread, events, n - 1);
      RunKeeps(slots, thread, events, n - 1);
      if Enabled(x, slots, events[n - 1]) {
        StepKeeps(x, slots, events[n - 1]);
        StepRoutes(x, slots, thread, events[n - 1]);
      }
    }
  }

  /**
   * In every run the handlers that exist are exactly those of the outgoing
   * channels that may connect again or are connected; none is freed twice,
   * none while a connection or its reconnect data still points to it, and
   * none is lost.
   */
  lemma HandlerLifetime(slots: nat, thread: nat, events: seq<Event>)
    requires thread < slots && thread < TOP
    ensures var x := Run(slots, thread, events, |events|);
      && x.handlers.Keys == x.infos.Keys + OutgoingLines(x)
      && (forall c :: c in x.infos ==> x.infos[c] !in x.freed)
      && (forall c :: c in x.lines && IsOutgoing(c) ==> x.lines[c].handler !in x.freed)
      && (forall i, j :: 0 <= i < j < |x.freed| ==> x.freed[i] != x.freed[j])
      && (forall h: nat :: h < x.nextHandler ==> h in x.freed || Owner(x, h))
      && x.outgoing == |OutgoingLines(x)|
  {
    RunKeeps(slots, thread, events, |events|);
    var x := Run(slots, thread, events, |events|);
    forall c ensures c in x.handlers.Keys <==> c in x.infos.Keys + OutgoingLines(x) {
    }
  }

  /** The assertion of ReleaseChannel holds exactly for a channel that is connected, can reconnect, or is incoming. */
  lemma ReleaseAssertion(slots: nat, thread: nat, events: seq<Event>, c: nat)
    requires thread < slots && thread < TOP
    ensures var x := Run(slots, thread, events, |events|);
      CanRelease(x, c) <==> c in x.lines || c in x.infos || !IsOutgoing(c)
  {
    RunKeeps(slots, thread, events, |events|);
  }

  /** A connection that ends and a channel that is forgotten free the handler once, in either order. */
  lemma EitherOrderFrees(x: Context, c: nat)
    requires Inv(x) && c in x.lines && c in x.infos && IsOutgoing(c)
    ensures CanRelease(x, c) && CanRelease(ForgetSpec(x, c), c)
    ensures ReleaseSpec(ForgetSpec(x, c), c) == ForgetSpec(ReleaseSpec(x, c), c)
    ensures ReleaseSpec(ForgetSpec(x, c), c).freed == x.freed + [x.infos[c]]
  {
  }

  /** A channel is looked up in the context that handed it out. */
  lemma ChannelsComeHome(slots: nat, thread: nat, events: seq<Event>, c: nat)
    requires thread < slots && thread < TOP
    ensures var x := Run(slots, thread, events, |events|);
      c in x.handlers || c in x.lines ==> ThreadId(c, slots) == thread
  {
    RunKeeps(slots, thread, events, |events|);
  }

  /** No two connections are the same. */
  ghost predicate OwnLines(x: Context) {
    && (forall c :: c in x.lines ==> x.lines[c].linkage < x.nextLine)
    && forall c, d :: c in x.lines && d in x.lines && c != d ==> x.lines[c].linkage != x.lines[d].linkage
  }

  /** In every run every connection is one of its own, also that of a channel connected again. */
  lemma {:induction false} LinesAreTheirOwn(slots: nat, thread: nat, events: seq<Event>, n: nat)
    requires n <= |events|
    ensures OwnLines(Run(slots, thread, events, n))
  {
    if n > 0 {
      LinesAreTheirOwn(slots, thread, events, n - 1);
      var x := Run(slots, thread, events, n - 1);
      if Enabled(x, slots, events[n - 1]) {
        StepOwnsLines(x, slots, events[n - 1]);
      }
    }
  }

  lemma StepOwnsLines(x: Context, slots: nat, e: Event)
    requires OwnLines(x)
    ensures OwnLines(Step(x, slots, e))
  {
  }
}

/** The context as the source keeps it: maps updated in place. */
module EasyServers {
  import opened Channels

  class IoContext {
    const slots: nat
    var infos: map<nat, nat>
    var handlers: map<nat, nat>
    var lines: map<nat, Line>
    var channel: nat
    var nextHandler: nat
    var nextLine: nat
    ghost var freed: seq<nat>
    var outgoing: int

    ghost function View(): Context
      reads this
    {
      Context(infos, handlers, lines, channel, nextHandler, nextLine, freed, outgoing)
    }

    constructor (slots: nat, thread: nat)
      ensures this.slots == slots && View() == NewContext(thread)
    {
      this.slots := slots;
      infos, handlers, lines := map[], map[], map[];
      channel, nextHandler, nextLine, freed, outgoing := thread, 0, 0, [], 0;
    }

    method AllocateChannel(incoming: bool) returns (c: nat)
      requires channel + slots < TOP
      modifies `channel
      ensures channel == old(channel) + slots && c == Allocated(old(View()), slots, incoming)
    {
      channel := channel + slots;
      c := channel;
      if !incoming {
        c := c + TOP;
      }
    }

    method Connect() returns (c: nat)
      requires channel + slots < TOP
      modifies this
      ensures View() == ConnectSpec(old(View()), slots) && c == Allocated(old(View()), slots, false)
    {
      var h := nextHandler;
      nextHandler := nextHandler + 1;
      c := AllocateChannel(false);
      handlers := handlers[c := h];
      infos := infos[c := h];
    }

    method Accept(owner: nat) returns (c: nat)
      requires channel + slots < TOP
      modifies this
      ensures View() == AcceptSpec(old(View()), slots, owner) && c == Allocated(old(View()), slots, true)
    {
      c := AllocateChannel(true);
      lines := lines[c := Line(nextLine, owner)];
      nextLine := nextLine + 1;
    }

    /** `attached` tells whether the connection comes about and attaches. */
    method DoReconnect(c: nat, attached: bool) returns (ok: bool)
      requires c in infos
      modifies this
      ensures View() == ReconnectSpec(old(View()), c, attached) && ok == attached
    {
      if !attached {
        return false;
      }
      lines := lines[c := Line(nextLine, infos[c])];
      nextLine := nextLine + 1;
      outgoing := outgoing + 1;
      return true;
    }

    /** Finds the connection to send over, connecting again if there is none. */
    method DoRealSend(c: nat, attached: bool) returns (found: bool)
      modifies this
      ensures View() == Channels.SendSpec(old(View()), c, attached) && found == (c in lines)
    {
      if c in lines {
        return true;
      }
      if IsOutgoing(c) {
        if c in infos {
          found := DoReconnect(c, attached);
          return;
        }
      }
      return false;
    }

    /** One connection of this channel has ended. */
    method ReleaseChannel(c: nat)
      requires Inv(View()) && c in lines
      modifies this
      ensures CanRelease(old(View()), c) && View() == ReleaseSpec(old(View()), c) && Inv(View())
    {
      ghost var x := View();
      ReleaseKeeps(x, c);
      ReleaseNeeded(x, c);
      lines := lines - {c};
      if !IsOutgoing(c) {
        assert View() == EndLine(x, c);
        return;
      }
      outgoing := outgoing - 1;
      assert View() == EndLine(x, c);
      if c in infos {
        return;
      }
      assert c in handlers;
      freed := freed + [handlers[c]];
      handlers := handlers - {c};
    }

    method Forget(c: nat)
      requires Inv(View())
      modifies this
      ensures View() == ForgetSpec(old(View()), c) && Inv(View())
    {
      ghost var x := View();
      ForgetKeeps(x, c);
      infos := infos - {c};
      assert View() == x.(infos := x.infos - {c});
      if c in lines {
        return;
      }
      if c !in handlers {
        return;
      }
      freed := freed + [handlers[c]];
      handlers := handlers - {c};
    }
  }
}
