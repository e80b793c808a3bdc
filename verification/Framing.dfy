/** How a linkage cuts the byte stream it reads into messages. */
module Framing {
  // A read hands over a chunk. The receiving end keeps the bytes of an unfinished message and, once it is known,
  // that message's length. The three paths of `Receive` differ only in how many bytes they move; all of them come
  // to cutting the buffered bytes followed by the chunk.

  import opened Basics

  newtype byte = x: int | 0 <= x < 256

  type Bytes = seq<byte>

  /** What a linkage tells its handler. */
  datatype Told = Connected | Message(data: Bytes)

  /** What a handler may call from inside a callback. */
  datatype Op = Send(data: Bytes) | Disconnect(finish: bool)

  /** What a handler does when told something: its calls, then the value it returns. */
  datatype Reaction = Reaction(ops: seq<Op>, next: int)

  /**
   * A handler. `lengthOf` is GetMessageLength; `react` is OnMessage or
   * OnConnected, as a function of everything told so far, newest last. In one
   * run no two callbacks see the same past, so this covers handlers that
   * decide by any state of their own.
   */
  datatype Handler = Handler(lengthOf: Bytes -> int, react: seq<Told> -> Reaction)

  /** How cutting a buffer ended: what was told, the awaited length, the bytes left, the outcome. */
  datatype Cut = Cut(past: seq<Told>, rlength: nat, rest: Bytes, outcome: int)

  /** The length of the message in front, as far as it is known. */
  function Wanted(h: Handler, rlength: nat, buf: Bytes): int {
    if rlength != 0 then rlength else h.lengthOf(buf)
  }

  /** Cuts `buf` into messages; `rlength` is the length of the first one when already known. */
  function Deliver(h: Handler, past: seq<Told>, rlength: nat, buf: Bytes): Cut
    decreases |buf|
  {
    if buf == [] then Cut(past, rlength, buf, 1)
    else
      var n := Wanted(h, rlength, buf);
      if n < 0 then Cut(past, 0, buf, -1)
      else if n == 0 || |buf| < n then Cut(past, n, buf, 1)
      else
        var past' := past + [Message(buf[..n])];
        var next := h.react(past').next;
        if next <= 0 then Cut(past', n, buf, Sign(next))
        else Deliver(h, past', 0, buf[n..])
  }

  /** The receive buffer of a linkage. */
  datatype Inbox = Inbox(rbuffer: Bytes, rlength: nat)

  /** A known length is longer than what has arrived of its message, and something has. */
  predicate Held(i: Inbox) { i.rlength != 0 ==> 0 < |i.rbuffer| < i.rlength }

  datatype Received = Received(past: seq<Told>, inbox: Inbox, outcome: int)

  /** Nothing buffered: the chunk is cut where it lies. */
  function ReceiveFresh(h: Handler, past: seq<Told>, i: Inbox, chunk: Bytes): Received {
    var c := Deliver(h, past, i.rlength, chunk);
    Received(c.past, Inbox(if c.outcome <= 0 then [] else c.rest, c.rlength), c.outcome)
  }

  /** The awaited message is complete: only its missing bytes are moved. */
  function ReceiveRest(h: Handler, past: seq<Told>, i: Inbox, chunk: Bytes): Received
    requires |i.rbuffer| < i.rlength <= |i.rbuffer| + |chunk|
  {
    var k := i.rlength - |i.rbuffer|;
    var first := i.rbuffer + chunk[..k];
    var c := Deliver(h, past, i.rlength, first);
    if c.outcome <= 0 then Received(c.past, Inbox(first, c.rlength), c.outcome)
    else if k == |chunk| then Received(c.past, Inbox([], c.rlength), 1)
    else ReceiveFresh(h, c.past, Inbox([], c.rlength), chunk[k..])
  }

  /** The worst case: the whole chunk is moved behind the buffer. */
  function ReceiveMore(h: Handler, past: seq<Told>, i: Inbox, chunk: Bytes): Received {
    var buf := i.rbuffer + chunk;
    var c := Deliver(h, past, i.rlength, buf);
    Received(c.past, Inbox(if c.outcome <= 0 then buf else c.rest, c.rlength), c.outcome)
  }

  /** The three paths of a receive. */
  function Receive(h: Handler, past: seq<Told>, i: Inbox, chunk: Bytes): Received
    requires Held(i)
  {
    if i.rbuffer == [] then ReceiveFresh(h, past, i, chunk)
    else if i.rlength != 0 && i.rlength <= |i.rbuffer| + |chunk| then ReceiveRest(h, past, i, chunk)
    else ReceiveMore(h, past, i, chunk)
  }

  // ----- the three paths cut the stream -----

  /** What was told stays told. */
  lemma {:induction false} DeliverGrows(h: Handler, past: seq<Told>, rlength: nat, buf: Bytes)
    ensures past <= Deliver(h, past, rlength, buf).past
    decreases |buf|
  {
    if buf != [] {
      var n := Wanted(h, rlength, buf);
      if 0 < n <= |buf| {
        DeliverGrows(h, past + [Message(buf[..n])], 0, buf[n..]);
      }
    }
  }

  lemma ReceiveGrows(h: Handler, past: seq<Told>, i: Inbox, chunk: Bytes)
    requires Held(i) && chunk != []
    ensures past <= Receive(h, past, i, chunk).past
  {
    ReceiveIsFraming(h, past, i, chunk);
    DeliverGrows(h, past, i.rlength, i.rbuffer + chunk);
  }

  /** The simple form: cut everything that has arrived and not been delivered. */
  function Framed(h: Handler, past: seq<Told>, rlength: nat, stream: Bytes): Received {
    var c := Deliver(h, past, rlength, stream);
    Received(c.past, Inbox(c.rest, c.rlength), c.outcome)
  }

  /** Two receives agree: on what was told and on the outcome and, while it is positive, on what is kept. */
  predicate Agree(a: Received, b: Received) {
    a.past == b.past && a.outcome == b.outcome && (a.outcome > 0 ==> a.inbox == b.inbox)
  }

  /** Whichever path a chunk takes, it is as if the buffered bytes and the chunk were cut as one stream. */
  lemma ReceiveIsFraming(h: Handler, past: seq<Told>, i: Inbox, chunk: Bytes)
    requires Held(i) && chunk != []
    ensures Agree(Receive(h, past, i, chunk), Framed(h, past, i.rlength, i.rbuffer + chunk))
    ensures Receive(h, past, i, chunk).outcome > 0 ==> Held(Receive(h, past, i, chunk).inbox)
  {
    DeliverHolds(h, past, i.rlength, i.rbuffer + chunk);
    if i.rbuffer == [] {
      assert [] + chunk == chunk;
    } else if i.rlength != 0 && i.rlength <= |i.rbuffer| + |chunk| {
      RestIsFraming(h, past, i, chunk);
    }
  }

  /** What cutting leaves is shorter than the message it belongs to. */
  lemma {:induction false} DeliverHolds(h: Handler, past: seq<Told>, rlength: nat, buf: Bytes)
    requires buf != [] || rlength == 0
    ensures var c := Deliver(h, past, rlength, buf); c.outcome > 0 ==> Held(Inbox(c.rest, c.rlength))
    decreases |buf|
  {
    if buf != [] {
      var n := Wanted(h, rlength, buf);
      if 0 < n <= |buf| {
        DeliverHolds(h, past + [Message(buf[..n])], 0, buf[n..]);
      }
    }
  }

  lemma RestIsFraming(h: Handler, past: seq<Told>, i: Inbox, chunk: Bytes)
    requires 0 < |i.rbuffer| < i.rlength <= |i.rbuffer| + |chunk|
    ensures Agree(ReceiveRest(h, past, i, chunk), Framed(h, past, i.rlength, i.rbuffer + chunk))
  {
    var n, k, buf := i.rlength, i.rlength - |i.rbuffer|, i.rbuffer + chunk;
    var first := i.rbuffer + chunk[..k];
    assert first[..n] == first == buf[..n] && first[n..] == [] && buf[n..] == chunk[k..];
    DeliverOne(h, past, n, first);
    DeliverOne(h, past, n, buf);
  }

  /** Cutting a buffer whose first message is known and complete. */
  lemma DeliverOne(h: Handler, past: seq<Told>, n: nat, buf: Bytes)
    requires 0 < n <= |buf|
    ensures var past' := past + [Message(buf[..n])];
      Deliver(h, past, n, buf) ==
        if h.react(past').next <= 0 then Cut(past', n, buf, Sign(h.react(past').next))
        else Deliver(h, past', 0, buf[n..])
  {
  }

  // ----- the chunks do not matter -----

  /** A nonzero answer on a prefix is the answer on every extension; all that counts of a refusal is that it is one. */
  ghost predicate PrefixStable(lengthOf: Bytes -> int) {
    forall a: Bytes, b: Bytes :: Stable(lengthOf, a, b)
  }

  ghost predicate Stable(lengthOf: Bytes -> int, a: Bytes, b: Bytes) {
    a != [] && lengthOf(a) != 0 ==> lengthOf(a + b) == lengthOf(a) || (lengthOf(a) < 0 && lengthOf(a + b) < 0)
  }

  /** Cutting a stream that goes on: first what has arrived, then what that left and the rest. */
  lemma {:induction false} FramedOn(h: Handler, past: seq<Told>, rlength: nat, a: Bytes, b: Bytes)
    requires PrefixStable(h.lengthOf)
    ensures var c, d := Deliver(h, past, rlength, a), Deliver(h, past, rlength, a + b);
      if c.outcome <= 0 then d.past == c.past && d.outcome == c.outcome
      else d == Deliver(h, c.past, c.rlength, c.rest + b)
    decreases |a|
  {
    if a != [] {
      assert Stable(h.lengthOf, a, b);
      var n := Wanted(h, rlength, a);
      if 0 < n <= |a| {
        Halves(a, b, n);
        DeliverOne(h, past, n, a + b);
        FramedOn(h, past + [Message(a[..n])], 0, a[n..], b);
      }
    }
  }

  lemma Halves(a: Bytes, b: Bytes, n: nat)
    requires n <= |a|
    ensures (a + b)[..n] == a[..n] && (a + b)[n..] == a[n..] + b
  {
  }

  /** A chunk received on top of a framed stream frames the longer stream. */
  lemma ReceiveOn(h: Handler, past: seq<Told>, rlength: nat, stream: Bytes, chunk: Bytes)
    requires PrefixStable(h.lengthOf) && chunk != [] && (stream != [] || rlength == 0)
    requires Framed(h, past, rlength, stream).outcome > 0
    ensures var r := Framed(h, past, rlength, stream);
      && Held(r.inbox)
      && Agree(Receive(h, r.past, r.inbox, chunk), Framed(h, past, rlength, stream + chunk))
  {
    var r := Framed(h, past, rlength, stream);
    DeliverHolds(h, past, rlength, stream);
    FramedOn(h, past, rlength, stream, chunk);
    ReceiveIsFraming(h, r.past, r.inbox, chunk);
  }

  /** Reads the chunks one after another, until an outcome is not positive. */
  function ReceiveAll(h: Handler, past: seq<Told>, i: Inbox, chunks: seq<Bytes>, n: nat): Received
    requires n <= |chunks| && Held(i)
  {
    if n == 0 then Received(past, i, 1)
    else
      var r := ReceiveAll(h, past, i, chunks, n - 1);
      if r.outcome <= 0 || chunks[n - 1] == [] || !Held(r.inbox) then r else Receive(h, r.past, r.inbox, chunks[n - 1])
  }

  function Joined(chunks: seq<Bytes>, n: nat): Bytes
    requires n <= |chunks|
  {
    if n == 0 then [] else Joined(chunks, n - 1) + chunks[n - 1]
  }

  /** However a stream is split into reads, the linkage ends where one read of the whole would take it. */
  lemma {:induction false} ChunksDoNotMatter(h: Handler, past: seq<Told>, chunks: seq<Bytes>, n: nat)
    requires n <= |chunks| && PrefixStable(h.lengthOf)
    ensures Agree(ReceiveAll(h, past, Inbox([], 0), chunks, n), Framed(h, past, 0, Joined(chunks, n)))
    ensures var r := ReceiveAll(h, past, Inbox([], 0), chunks, n); r.outcome > 0 ==> Held(r.inbox)
  {
    if n > 0 {
      ChunksDoNotMatter(h, past, chunks, n - 1);
      var a, b := Joined(chunks, n - 1), chunks[n - 1];
      var r := ReceiveAll(h, past, Inbox([], 0), chunks, n - 1);
      if b == [] {
        assert a + b == a;
      } else if r.outcome > 0 {
        ReceiveOn(h, past, 0, a, b);
        ReceiveIsFraming(h, r.past, r.inbox, b);
      } else {
        FramedOn(h, past, 0, a, b);
      }
    }
  }

  /** One read of a whole stream is the simple form. */
  lemma OneRead(h: Handler, past: seq<Told>, stream: Bytes)
    ensures Agree(ReceiveAll(h, past, Inbox([], 0), [stream], 1), Framed(h, past, 0, stream))
  {
    var start := ReceiveAll(h, past, Inbox([], 0), [stream], 0);
    if stream != [] {
      assert [] + stream == stream;
    }
  }

  /** For a prefix-stable handler a stream read in any chunks ends as the stream read at once. */
  lemma ChunkingIndependence(h: Handler, past: seq<Told>, chunks: seq<Bytes>)
    requires PrefixStable(h.lengthOf)
    ensures Agree(ReceiveAll(h, past, Inbox([], 0), chunks, |chunks|),
                  ReceiveAll(h, past, Inbox([], 0), [Joined(chunks, |chunks|)], 1))
  {
    ChunksDoNotMatter(h, past, chunks, |chunks|);
    OneRead(h, past, Joined(chunks, |chunks|));
  }

  /** Whether two ways of splitting a stream agree for a handler with this GetMessageLength that takes every message. */
  ghost predicate SplitsAgree(lengthOf: Bytes -> int) {
    forall a: Bytes, b: Bytes :: TwoReadsAgree(lengthOf, a, b)
  }

  function Eager(lengthOf: Bytes -> int): Handler { Handler(lengthOf, past => Reaction([], 1)) }

  ghost predicate TwoReadsAgree(lengthOf: Bytes -> int, a: Bytes, b: Bytes) {
    var h := Eager(lengthOf);
    Agree(ReceiveAll(h, [], Inbox([], 0), [a, b], 2), ReceiveAll(h, [], Inbox([], 0), [a + b], 1))
  }

  /** Splits never matter exactly when the answers of GetMessageLength are prefix-stable. */
  lemma SplitsAgreeExactlyWhenStable(lengthOf: Bytes -> int)
    ensures SplitsAgree(lengthOf) <==> PrefixStable(lengthOf)
  {
    if PrefixStable(lengthOf) {
      forall a: Bytes, b: Bytes ensures TwoReadsAgree(lengthOf, a, b) {
        StableAgrees(lengthOf, a, b);
      }
    }
    if SplitsAgree(lengthOf) {
      forall a: Bytes, b: Bytes ensures Stable(lengthOf, a, b) {
        assert TwoReadsAgree(lengthOf, a, b);
        AgreeingIsStable(lengthOf, a, b);
      }
    }
  }

  lemma StableAgrees(lengthOf: Bytes -> int, a: Bytes, b: Bytes)
    requires PrefixStable(lengthOf)
    ensures TwoReadsAgree(lengthOf, a, b)
  {
    var h := Eager(lengthOf);
    ChunksDoNotMatter(h, [], [a, b], 2);
    OneRead(h, [], a + b);
    assert Joined([a, b], 1) == Joined([a, b], 0) + a == a;
    assert Joined([a, b], 2) == a + b;
  }

  /** The first message told or else the awaited length, if there is either. */
  function FirstLength(r: Received): nat {
    if r.past == [] then r.inbox.rlength else if r.past[0].Message? then |r.past[0].data| else 0
  }

  lemma FirstTold(h: Handler, past: seq<Told>, n: nat, buf: Bytes)
    requires 0 < n <= |buf|
    ensures past + [Message(buf[..n])] <= Deliver(h, past, n, buf).past
  {
    DeliverOne(h, past, n, buf);
    DeliverGrows(h, past + [Message(buf[..n])], 0, buf[n..]);
  }

  /** The first cut of a stream shows the first answer of GetMessageLength. */
  lemma FirstCut(lengthOf: Bytes -> int, stream: Bytes)
    requires stream != []
    ensures var r, n := Framed(Eager(lengthOf), [], 0, stream), lengthOf(stream);
      && (n < 0 ==> r.outcome < 0 && r.past == [])
      && (n >= 0 ==> FirstLength(r) == n && (r.past == [] ==> r.outcome > 0))
  {
    if 0 < lengthOf(stream) <= |stream| {
      FirstTold(Eager(lengthOf), [], lengthOf(stream), stream);
    }
  }

  lemma AgreeingIsStable(lengthOf: Bytes -> int, a: Bytes, b: Bytes)
    requires TwoReadsAgree(lengthOf, a, b)
    ensures Stable(lengthOf, a, b)
  {
    if a != [] && lengthOf(a) != 0 && b != [] {
      var h := Eager(lengthOf);
      var one, two := ReceiveAll(h, [], Inbox([], 0), [a, b], 1), ReceiveAll(h, [], Inbox([], 0), [a, b], 2);
      OneRead(h, [], a + b);
      assert one == Receive(h, [], Inbox([], 0), a) by {
        assert ReceiveAll(h, [], Inbox([], 0), [a, b], 0) == Received([], Inbox([], 0), 1);
      }
      ReceiveIsFraming(h, [], Inbox([], 0), a);
      assert [] + a == a;
      FirstCut(lengthOf, a);
      FirstCut(lengthOf, a + b);
      if one.outcome > 0 {
        FirstStays(h, one, b);
      }
    } else if b == [] {
      assert a + b == a;
    }
  }

  lemma FirstStays(h: Handler, r: Received, b: Bytes)
    requires b != [] && Held(r.inbox) && r.outcome > 0 && FirstLength(r) > 0
    ensures var r' := Receive(h, r.past, r.inbox, b);
      FirstLength(r') == FirstLength(r) && (r'.past == [] ==> r'.outcome > 0)
  {
    var n, buf := r.inbox.rlength, r.inbox.rbuffer + b;
    ReceiveIsFraming(h, r.past, r.inbox, b);
    DeliverGrows(h, r.past, n, buf);
    if r.past == [] && n <= |buf| {
      FirstTold(h, [], n, buf);
    }
  }

  // ----- one connection after another -----

  /** More bytes of the connection that was made last. */
  function Hear(heard: seq<Bytes>, chunk: Bytes): seq<Bytes> {
    if heard == [] then [chunk] else heard[..|heard| - 1] + [heard[|heard| - 1] + chunk]
  }

  /**
   * What a linkage comes to that is connected |heard| times and reads these
   * bytes each time: every time the handler is told of the connection, and the
   * bytes are framed behind what the last time left, until it wants no more.
   */
  function Heard(h: Handler, heard: seq<Bytes>): Received {
    if heard == [] then Received([], Inbox([], 0), 1)
    else
      var r := Heard(h, heard[..|heard| - 1]);
      var past := r.past + [Connected];
      if r.outcome <= 0 then Received(past, r.inbox, r.outcome)
      else Framed(h, past, r.inbox.rlength, r.inbox.rbuffer + heard[|heard| - 1])
  }

  /** Nothing more can be cut from what is kept, whatever was told. */
  ghost predicate Stuck(h: Handler, i: Inbox) {
    var n := Wanted(h, i.rlength, i.rbuffer);
    i.rbuffer != [] ==> 0 <= n && n == i.rlength && (n == 0 || |i.rbuffer| < n)
  }

  lemma {:induction false} DeliverStuck(h: Handler, past: seq<Told>, rlength: nat, buf: Bytes)
    ensures var c := Deliver(h, past, rlength, buf);
      c.outcome > 0 ==> c.outcome == 1 && Stuck(h, Inbox(c.rest, c.rlength))
    decreases |buf|
  {
    if buf != [] {
      var n := Wanted(h, rlength, buf);
      if 0 < n <= |buf| {
        DeliverStuck(h, past + [Message(buf[..n])], 0, buf[n..]);
      }
    }
  }

  lemma StuckStays(h: Handler, past: seq<Told>, i: Inbox)
    requires Stuck(h, i)
    ensures Framed(h, past, i.rlength, i.rbuffer) == Received(past, i, 1)
  {
  }

  lemma {:induction false} HeardHolds(h: Handler, heard: seq<Bytes>)
    ensures var r := Heard(h, heard); r.outcome > 0 ==> r.outcome == 1 && Held(r.inbox) && Stuck(h, r.inbox)
    decreases |heard|
  {
    if heard != [] {
      var r := Heard(h, heard[..|heard| - 1]);
      HeardHolds(h, heard[..|heard| - 1]);
      if r.outcome > 0 {
        var stream := r.inbox.rbuffer + heard[|heard| - 1];
        DeliverHolds(h, r.past + [Connected], r.inbox.rlength, stream);
        DeliverStuck(h, r.past + [Connected], r.inbox.rlength, stream);
      }
    }
  }

  /** A chunk received goes on with the bytes of the last connection. */
  lemma HearOn(h: Handler, heard: seq<Bytes>, chunk: Bytes)
    requires PrefixStable(h.lengthOf) && heard != [] && chunk != [] && Heard(h, heard).outcome > 0
    ensures var r := Heard(h, heard);
      Held(r.inbox) && Agree(Receive(h, r.past, r.inbox, chunk), Heard(h, Hear(heard, chunk)))
  {
    var k := |heard| - 1;
    var more := Hear(heard, chunk);
    assert more[..k] == heard[..k] && more[k] == heard[k] + chunk;
    var r := Heard(h, heard[..k]);
    HeardHolds(h, heard[..k]);
    Assoc(r.inbox.rbuffer, heard[k], chunk);
    ReceiveOn(h, r.past + [Connected], r.inbox.rlength, r.inbox.rbuffer + heard[k], chunk);
  }

  lemma HearNothing(heard: seq<Bytes>)
    requires heard != []
    ensures Hear(heard, []) == heard
  {
    assert heard[|heard| - 1] + [] == heard[|heard| - 1];
  }

  /** Another connection tells the handler and changes nothing else. */
  lemma HearConnected(h: Handler, heard: seq<Bytes>)
    ensures var r, r' := Heard(h, heard), Heard(h, heard + [[]]);
      r'.past == r.past + [Connected] && r'.outcome == r.outcome && r'.inbox == r.inbox
  {
    var r := Heard(h, heard);
    assert (heard + [[]])[..|heard|] == heard;
    HeardHolds(h, heard);
    if r.outcome > 0 {
      assert r.inbox.rbuffer + [] == r.inbox.rbuffer;
      StuckStays(h, r.past + [Connected], r.inbox);
    }
  }

  /** What is read over one connection is framed from its beginning. */
  lemma HearOne(h: Handler, stream: Bytes)
    ensures Heard(h, [stream]) == Framed(h, [Connected], 0, stream)
  {
    assert [stream][..0] == [] && [] + stream == stream && [] + [Connected] == [Connected];
  }
}
