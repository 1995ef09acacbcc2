/** The transport makes progress: while no buffered frame lies beyond the point where the receive head
    wraps, one loss-free round delivers and acknowledges everything sent. */
module Progress {
  import opened Prelude
  import opened Windows
  import opened Transport
  import opened Streams

  /** A fault-free piece of a run from `s` to `t`. */
  ghost predicate Steps(s: Sys, events: seq<Event>, t: Sys)
    decreases |events|
  {
    if events == [] then s == t
    else Enabled(s, events[0]) && !Fault(s, events[0]) && Steps(Next(s, events[0]), events[1..], t)
  }

  /** A piece of a run, faults allowed. */
  ghost predicate Runs(s: Sys, events: seq<Event>, t: Sys)
    decreases |events|
  {
    if events == [] then s == t
    else Enabled(s, events[0]) && Runs(Next(s, events[0]), events[1..], t)
  }

  /** No new data: the two threads, the channel and reads of what has arrived, but no writes. */
  ghost predicate NoData(events: seq<Event>) {
    forall e | e in events :: !e.Write? && !e.Push?
  }

  /** In addition the writer's wait never ends without a signal or a timeout. */
  ghost predicate Round(events: seq<Event>) {
    forall e | e in events :: !e.Write? && !e.Push? && !e.SpuriousWake?
  }

  lemma {:induction false} StepsCompose(s: Sys, a: seq<Event>, m: Sys, b: seq<Event>, t: Sys)
    requires Steps(s, a, m) && Steps(m, b, t)
    ensures Steps(s, a + b, t)
    decreases |a|
  {
    hide Next, Enabled, Fault;
    if a == [] {
      assert a + b == b;
    } else {
      StepsCompose(Next(s, a[0]), a[1..], m, b, t);
      assert (a + b)[1..] == a[1..] + b;
    }
  }

  lemma {:induction false} StepsAreRuns(s: Sys, events: seq<Event>, t: Sys)
    requires Steps(s, events, t)
    ensures Runs(s, events, t)
    decreases |events|
  {
    hide Next, Enabled, Fault;
    if events != [] {
      StepsAreRuns(Next(s, events[0]), events[1..], t);
    }
  }

  lemma {:induction false} RunsCompose(s: Sys, a: seq<Event>, m: Sys, b: seq<Event>, t: Sys)
    requires Runs(s, a, m) && Runs(m, b, t)
    ensures Runs(s, a + b, t)
    decreases |a|
  {
    hide Next, Enabled;
    if a == [] {
      assert a + b == b;
    } else {
      RunsCompose(Next(s, a[0]), a[1..], m, b, t);
      assert (a + b)[1..] == a[1..] + b;
    }
  }

  lemma FirstStep(s: Sys, e: Event, b: seq<Event>, t: Sys)
    requires Enabled(s, e) && !Fault(s, e) && Steps(Next(s, e), b, t)
    ensures Steps(s, [e] + b, t)
  {
    assert ([e] + b)[1..] == b;
  }

  lemma {:induction false} StepsKeep(s: Sys, events: seq<Event>, t: Sys)
    requires ProtocolInv(s) && Steps(s, events, t)
    ensures ProtocolInv(t)
    decreases |events|
  {
    if events != [] {
      StepExact(s, events[0]);
      StepsKeep(Next(s, events[0]), events[1..], t);
    }
  }

  lemma InvFacts(s: Sys)
    requires ProtocolInv(s)
    ensures Sized(s) && s.receiver.window.counter <= |s.sender.sent|
    ensures s.sender.window.size <= WINDOW && s.sender.window.size <= |s.sender.sent|
    ensures s.sender.window.head == Base(s.sender.window, s.sender.sent) % WINDOW
  {
  }

  // ---- The sender: run to the waiting state, time out, retransmit ----

  function SweepDistance(x: Sender): nat
    requires x.state.RetransmitLoop?
  {
    (x.window.tail - x.state.slot + WINDOW - 1) % WINDOW
  }

  function Rank(x: Sender): nat {
    match x.state
    case WaitOnRead(_) => 0
    case EnterWait => 1
    case SendPacket => 1
    case IsWindowFullQ => 2
    case Transmit(_) => 3
    case WindowEmptyQ => 4
    case BlockOnQueue => 4
    case RetransmitLoop(_) => 2 + SweepDistance(x)
    case RetransmitFromHead => 8
    case Retransmit => 9
  }

  /** Blocks are numbered in the order in which they were queued, and nothing else happens to them. */
  ghost predicate SameBlocks(x: Sender, y: Sender) {
    && x.sent <= y.sent && y.sent + y.queue == x.sent + x.queue
    && y.pending == x.pending && y.written == x.written
  }

  /** The rest of the system, which the writer's own steps leave alone. */
  ghost predicate SameElsewhere(s: Sys, t: Sys) {
    && t.acks == s.acks && t.receiver == s.receiver && t.user == s.user
    && Base(t.sender.window, t.sender.sent) == Base(s.sender.window, s.sender.sent)
    && t.sender.signalDue == s.sender.signalDue && SameBlocks(s.sender, t.sender)
  }

  lemma RankDrops(x: Sender)
    requires SenderOk(x) && WriterEnabled(x) && x.window.size > 0
    ensures var (x', wire) := WriterNext(x);
      && x'.window.size >= x.window.size
      && (x'.window.size == x.window.size ==> Rank(x') < Rank(x))
  {
    if x.state.RetransmitLoop? && (x.state.slot + 1) % WINDOW != x.window.tail {
      SweepAdvances(x.window.tail, x.state.slot);
    }
  }

  lemma SweepAdvances(tail: nat, i: nat)
    requires tail < WINDOW && i < WINDOW && (i + 1) % WINDOW != tail
    ensures (tail - (i + 1) % WINDOW + WINDOW - 1) % WINDOW < (tail - i + WINDOW - 1) % WINDOW
  {
  }

  lemma QueueOrder(x: Sender)
    requires SendSized(x.window) && WriterEnabled(x) && (x.state.RetransmitLoop? ==> x.state.slot < WINDOW)
    ensures SameBlocks(x, WriterNext(x).0)
  {
    if x.state.SendPacket? { assert x.queue == [x.queue[0]] + x.queue[1..]; }
  }

  lemma WriterMoves(s: Sys)
    requires ProtocolInv(s) && s.sender.window.size > 0 && !s.sender.state.WaitOnRead?
    requires Base(s.sender.window, s.sender.sent) + 2 * WINDOW < 0x1_0000_0000
    ensures Enabled(s, WriterStep) && !Fault(s, WriterStep)
    ensures var t := Next(s, WriterStep);
      && ProtocolInv(t) && t.sender.window.size > 0 && SameElsewhere(s, t)
      && t.sender.window.size >= s.sender.window.size
      && (t.sender.window.size == s.sender.window.size ==> Rank(t.sender) < Rank(s.sender))
  {
    assert WriterEnabled(s.sender);
    WriterStepInv(s);
    WriterKeeps(s.sender);
    RankDrops(s.sender);
    QueueOrder(s.sender);
  }

  lemma {:induction false} WriterWaits(s: Sys) returns (events: seq<Event>, t: Sys)
    requires ProtocolInv(s) && s.sender.window.size > 0
    requires Base(s.sender.window, s.sender.sent) + 2 * WINDOW < 0x1_0000_0000
    ensures Steps(s, events, t) && Round(events)
    ensures ProtocolInv(t) && t.sender.window.size > 0 && t.sender.state.WaitOnRead? && SameElsewhere(s, t)
    decreases WINDOW - s.sender.window.size, Rank(s.sender)
  {
    if s.sender.state.WaitOnRead? {
      events, t := [], s;
    } else {
      WriterMoves(s);
      events, t := WriterWaits(Next(s, WriterStep));
      FirstStep(s, WriterStep, events, t);
      events := [WriterStep] + events;
    }
  }

  /** All unacknowledged packets from `from` on are in the channel. */
  ghost predicate OnTheWire(s: Sys, from: int, to: int) {
    forall k | 0 <= k < |s.sender.sent| && from <= k < to :: DataFrame(s.sender.sent, k) in s.frames
  }

  ghost function AsSet(frames: seq<Frame>): set<Frame> {
    set f | f in frames
  }

  /** One turn of the retransmission loop at packet `k`. */
  lemma SweepTurn(s: Sys, k: nat) returns (m: Sys)
    requires ProtocolInv(s) && Base(s.sender.window, s.sender.sent) <= k < |s.sender.sent|
    requires s.sender.state == RetransmitLoop(k % WINDOW)
    ensures Enabled(s, WriterStep) && !Fault(s, WriterStep) && m == Next(s, WriterStep) && ProtocolInv(m)
    ensures var next := if k + 1 == |s.sender.sent| then EnterWait else RetransmitLoop((k + 1) % WINDOW);
      m == s.(sender := s.sender.(state := next), frames := s.frames + {DataFrame(s.sender.sent, k)})
  {
    m := Next(s, WriterStep);
    WriterStepInv(s);
    NextSlot(k, |s.sender.sent|);
    assert s.sender.window.ring[k % WINDOW] == DataFrame(s.sender.sent, k);
  }

  lemma SweepSplits(s: Sys, k: nat)
    requires ProtocolInv(s) && Base(s.sender.window, s.sender.sent) <= k < |s.sender.sent|
    ensures SendSized(s.sender.window)
    ensures AsSet(Sweep(s.sender.window, k % WINDOW)) == {DataFrame(s.sender.sent, k)}
      + if k + 1 == |s.sender.sent| then {} else AsSet(Sweep(s.sender.window, (k + 1) % WINDOW))
  {
    var w, i := s.sender.window, k % WINDOW;
    NextSlot(k, |s.sender.sent|);
    assert w.ring[i] == DataFrame(s.sender.sent, k);
    var rest := if k + 1 == |s.sender.sent| then [] else Sweep(w, (k + 1) % WINDOW);
    assert Sweep(w, i) == [w.ring[i]] + rest;
    assert forall f :: f in Sweep(w, i) <==> f == w.ring[i] || f in rest;
  }

  lemma StartsWaiting(s: Sys) returns (events: seq<Event>, t: Sys)
    requires Sized(s) && s.sender.state.EnterWait?
    ensures Steps(s, events, t) && Round(events)
    ensures t == s.(sender := s.sender.(state := WaitOnRead(false)))
  {
    t := Next(s, WriterStep);
    FirstStep(s, WriterStep, [], t);
    events := [WriterStep] + [];
  }

  lemma {:induction false} LoopSendsRest(s: Sys, k: nat) returns (events: seq<Event>, t: Sys)
    requires ProtocolInv(s) && Base(s.sender.window, s.sender.sent) <= k < |s.sender.sent|
    requires s.sender.state == RetransmitLoop(k % WINDOW)
    requires OnTheWire(s, Base(s.sender.window, s.sender.sent), k)
    ensures Steps(s, events, t) && Round(events)
    ensures t == s.(sender := s.sender.(state := WaitOnRead(false)), frames := t.frames)
    ensures OnTheWire(t, Base(s.sender.window, s.sender.sent), |s.sender.sent|)
    ensures t.frames == s.frames + AsSet(Sweep(s.sender.window, k % WINDOW))
    decreases |s.sender.sent| - k
  {
    hide ProtocolInv, Next, Sweep, AsSet;
    var m := SweepTurn(s, k);
    SweepSplits(s, k);
    if k + 1 == |s.sender.sent| {
      events, t := StartsWaiting(m);
    } else {
      events, t := LoopSendsRest(m, k + 1);
    }
    FirstStep(s, WriterStep, events, t);
    events := [WriterStep] + events;
  }

  /** With nothing outstanding a timeout puts nothing on the wire. */
  lemma NothingToRetransmit(s: Sys) returns (events: seq<Event>, t: Sys)
    requires Sized(s) && s.sender.window.size == 0 && s.sender.state.Retransmit?
    ensures Steps(s, events, t) && Round(events)
    ensures t == s.(sender := s.sender.(state := WaitOnRead(false)))
  {
    var m := Next(s, WriterStep);
    events, t := StartsWaiting(m);
    FirstStep(s, WriterStep, events, t);
    events := [WriterStep] + events;
  }

  lemma SweepsAll(s: Sys) returns (events: seq<Event>, t: Sys)
    requires ProtocolInv(s) && s.sender.window.size > 0 && s.sender.state.Retransmit?
    ensures Steps(s, events, t) && Round(events)
    ensures t == s.(sender := s.sender.(state := WaitOnRead(false)), frames := t.frames)
    ensures t.frames == s.frames + AsSet(Retransmitted(s.sender.window))
    ensures OnTheWire(t, Base(s.sender.window, s.sender.sent), |s.sender.sent|)
  {
    hide ProtocolInv;
    InvFacts(s);
    var a := Next(s, WriterStep);
    WriterStepInv(s);
    var b := Next(a, WriterStep);
    WriterStepInv(a);
    events, t := LoopSendsRest(b, Base(s.sender.window, s.sender.sent));
    FirstStep(a, WriterStep, events, t);
    FirstStep(s, WriterStep, [WriterStep] + events, t);
    events := [WriterStep] + ([WriterStep] + events);
  }

  /** A timeout puts exactly the unacknowledged packets on the wire: nothing if there are none. */
  lemma RetransmitsAll(s: Sys) returns (events: seq<Event>, t: Sys)
    requires ProtocolInv(s) && s.sender.state.WaitOnRead?
    ensures Steps(s, events, t) && Round(events)
    ensures t == s.(sender := s.sender.(state := WaitOnRead(false), hasWaited := true), frames := t.frames)
    ensures t.frames == s.frames + AsSet(Retransmitted(s.sender.window))
    ensures OnTheWire(t, Base(s.sender.window, s.sender.sent), |s.sender.sent|)
  {
    hide ProtocolInv, Sweep;
    InvFacts(s);
    var m := Next(s, WaitOver(true));
    StepExact(s, WaitOver(true));
    if s.sender.window.size == 0 {
      events, t := NothingToRetransmit(m);
    } else {
      events, t := SweepsAll(m);
    }
    FirstStep(s, WaitOver(true), events, t);
    events := [WaitOver(true)] + events;
  }

  /** The reader thread signals what it still has to signal, so that it can read from the socket again. */
  lemma SignalsWaiter(s: Sys) returns (events: seq<Event>, t: Sys)
    requires Sized(s) && s.sender.state.WaitOnRead?
    ensures Steps(s, events, t) && Round(events)
    ensures t.sender.state == if s.sender.signalDue then WaitOnRead(true) else s.sender.state
    ensures t == s.(sender := s.sender.(state := t.sender.state, signalDue := false))
  {
    if s.sender.signalDue {
      t := Next(s, Signal);
      FirstStep(s, Signal, [], t);
      events := [Signal] + [];
    } else {
      events, t := [], s;
    }
  }

  // ---- The receiver: take every frame in order ----

  /** No buffered frame lies beyond the packet at which the head byte wraps. */
  predicate NoWrap(w: ReceiveWindow)
    requires ReceiveSized(w)
  {
    forall i | 0 <= i < WINDOW && Occupied(w, i) :: w.head + i <= 255
  }

  ghost predicate Roomy(s: Sys) {
    |s.user.queue| + (|s.sender.sent| - s.receiver.window.counter) <= QUEUE_CAPACITY
  }

  /** The receiver can take everything still outstanding without blocking and without a fault. */
  ghost predicate Fit(s: Sys) {
    ProtocolInv(s) && NoWrap(s.receiver.window) && Roomy(s)
  }

  /** What the receiver's own steps leave alone. */
  ghost predicate SameSender(s: Sys, t: Sys) {
    t.sender == s.sender && t.frames == s.frames && s.acks <= t.acks
    && s.receiver.window.counter <= t.receiver.window.counter
  }

  lemma DrainKeepsRoom(s: Sys)
    requires Fit(s)
    requires s.receiver.handling && Occupied(s.receiver.window, 0)
    ensures Enabled(s, DrainFront) && !Fault(s, DrainFront)
    ensures var t := Next(s, DrainFront);
      Fit(t) && t.receiver.handling && SameSender(s, t)
      && t.receiver.window.counter == s.receiver.window.counter + 1
  {
    hide SendOk, AcksOk;
    var w := s.receiver.window;
    DrainFrontExact(s);
    DrainOneExact(w, s.sender.sent);
    var w' := DrainOne(w);
    forall i | 0 <= i < WINDOW && Occupied(w', i) ensures w'.head + i <= 255 {
      if w.head < 255 {
        if i == WINDOW - 1 { LastEmpty(w); } else { assert Occupied(w, i + 1); }
      } else {
        DrainEmpties(w);
      }
    }
  }

  lemma {:induction false} FinishesHandling(s: Sys) returns (events: seq<Event>, t: Sys)
    requires Fit(s) && s.receiver.handling
    ensures Steps(s, events, t) && Round(events)
    ensures Fit(t) && !t.receiver.handling && SameSender(s, t)
    ensures U32(t.receiver.window.counter - 1) in t.acks
    ensures Occupied(s.receiver.window, 0) ==> t.receiver.window.counter > s.receiver.window.counter
    decreases |s.sender.sent| - s.receiver.window.counter
  {
    hide ProtocolInv;
    InvFacts(s);
    if Occupied(s.receiver.window, 0) {
      DrainKeepsRoom(s);
      InvFacts(Next(s, DrainFront));
      events, t := FinishesHandling(Next(s, DrainFront));
      FirstStep(s, DrainFront, events, t);
      events := [DrainFront] + events;
    } else {
      SendAckInv(s);
      t := Next(s, SendAck);
      FirstStep(s, SendAck, [], t);
      events := [SendAck] + [];
    }
  }

  /** Packet `k` arrives at a receiver that is not busy. */
  lemma Arrives(s: Sys, k: nat) returns (m: Sys)
    requires Fit(s) && !s.receiver.handling
    requires k < |s.sender.sent| && k <= s.receiver.window.counter && DataFrame(s.sender.sent, k) in s.frames
    ensures var e := ReceiveFrame(DataFrame(s.sender.sent, k));
      Enabled(s, e) && !Fault(s, e) && m == Next(s, e)
    ensures Fit(m) && m.receiver.handling && SameSender(s, m) && m.receiver.window.counter == s.receiver.window.counter
    ensures k == s.receiver.window.counter ==> Occupied(m.receiver.window, 0)
  {
    var f := DataFrame(s.sender.sent, k);
    m := Next(s, ReceiveFrame(f));
    ReceiveFrameInv(s, f);
    AcceptKeepsNoWrap(s.receiver.window, f);
    AcceptOk(s.receiver.window, s.sender.sent, f);
  }

  /** Receiving packet `k` when all earlier ones have been taken takes packet `k` too. */
  lemma TakesNext(s: Sys, k: nat) returns (events: seq<Event>, t: Sys)
    requires Fit(s) && !s.receiver.handling
    requires k < |s.sender.sent| && DataFrame(s.sender.sent, k) in s.frames && k <= s.receiver.window.counter
    ensures Steps(s, events, t) && Round(events)
    ensures Fit(t) && !t.receiver.handling && SameSender(s, t)
    ensures U32(t.receiver.window.counter - 1) in t.acks && k < t.receiver.window.counter
  {
    hide ProtocolInv, Next, NoWrap, Roomy;
    var e := ReceiveFrame(DataFrame(s.sender.sent, k));
    var m := Arrives(s, k);
    events, t := FinishesHandling(m);
    FirstStep(s, e, events, t);
    events := [e] + events;
  }

  lemma AcceptKeepsNoWrap(w: ReceiveWindow, f: Frame)
    requires ReceiveSized(w) && NoWrap(w) && f.seqNum <= w.counter && w.counter + WINDOW < 0x1_0000_0000
    ensures NoWrap(Accept(w, f))
  {
    var w' := Accept(w, f);
    forall i | 0 <= i < WINDOW && Occupied(w', i) ensures w.head + i <= 255 {
      if i > 0 {
        SlotsDiffer(w.head, 0, i);
        assert Occupied(w, i);
      }
    }
  }

  lemma TookLast(s: Sys)
    requires Fit(s) && |s.sender.sent| <= s.receiver.window.counter && U32(s.receiver.window.counter - 1) in s.acks
    requires s.sender.sent != []
    ensures s.receiver.window.counter == |s.sender.sent| && |s.sender.sent| - 1 in s.acks
  {
  }

  lemma OnTheWireStill(s: Sys, t: Sys, k: nat)
    requires SameSender(s, t) && OnTheWire(s, k, |s.sender.sent|)
    ensures OnTheWire(t, k + 1, |t.sender.sent|)
  {
  }

  lemma {:induction false} TakesAll(s: Sys, k: nat) returns (events: seq<Event>, t: Sys)
    requires Fit(s) && !s.receiver.handling
    requires k < |s.sender.sent| && k <= s.receiver.window.counter && OnTheWire(s, k, |s.sender.sent|)
    ensures Steps(s, events, t) && Round(events)
    ensures ProtocolInv(t) && SameSender(s, t) && !t.receiver.handling
    ensures t.receiver.window.counter == |t.sender.sent| && |t.sender.sent| - 1 in t.acks
    decreases |s.sender.sent| - k
  {
    var first, m := TakesNext(s, k);
    if k + 1 == |s.sender.sent| {
      events, t := first, m;
      TookLast(m);
    } else {
      OnTheWireStill(s, m, k);
      var rest;
      rest, t := TakesAll(m, k + 1);
      StepsCompose(s, first, m, rest, t);
      events := first + rest;
    }
  }

  // ---- The round ----

  /** What was handed up are the first packets, once each and in order. */
  ghost predicate HandedUpRight(s: Sys) {
    && |s.receiver.delivered| <= |s.sender.sent|
    && forall i | 0 <= i < |s.receiver.delivered| :: s.receiver.delivered[i] == DataFrame(s.sender.sent, i)
  }

  /** Everything sent was handed up, once each and in order, and is acknowledged. */
  ghost predicate AllDone(s: Sys, t: Sys) {
    && s.sender.sent <= t.sender.sent
    && t.sender.window.size == 0
    && t.receiver.window.counter == |t.sender.sent| == |t.receiver.delivered|
    && HandedUpRight(t)
    && Payloads(t.receiver.delivered) == t.sender.sent
  }

  lemma LastAckEmpties(s: Sys)
    requires ProtocolInv(s) && s.sender.window.size > 0 && !s.sender.signalDue
    requires s.receiver.window.counter == |s.sender.sent| && |s.sender.sent| - 1 in s.acks
    ensures Enabled(s, ReceiveAck(|s.sender.sent| - 1)) && !Fault(s, ReceiveAck(|s.sender.sent| - 1))
    ensures var t := Next(s, ReceiveAck(|s.sender.sent| - 1));
      && AllDone(s, t) && t.sender == s.sender.(window := t.sender.window, signalDue := true)
      && t.receiver == s.receiver && t.user == s.user
  {
    AckCountExact(s.sender.window, s.sender.sent, s.receiver.window.counter, |s.sender.sent| - 1);
    AdvanceOk(s.sender.window, s.sender.sent, s.sender.window.size);
    DeliveredInOrder(s);
    assert s.sender.sent[..|s.sender.sent|] == s.sender.sent;
  }

  /** Finish what the receiver was handling, so that it can read from the socket again. */
  lemma ReceiverReady(s: Sys) returns (events: seq<Event>, t: Sys)
    requires Fit(s)
    ensures Steps(s, events, t) && Round(events)
    ensures Fit(t) && !t.receiver.handling && SameSender(s, t)
  {
    if s.receiver.handling {
      events, t := FinishesHandling(s);
    } else {
      events, t := [], s;
    }
  }

  /** The writer waits with packets outstanding and nothing left to signal; only its own steps led there. */
  ghost predicate Waiting(s: Sys, t: Sys) {
    && t.sender.window.size > 0 && t.sender.state.WaitOnRead? && !t.sender.signalDue
    && t.acks == s.acks && t.receiver == s.receiver && t.user == s.user && SameBlocks(s.sender, t.sender)
    && Base(t.sender.window, t.sender.sent) == Base(s.sender.window, s.sender.sent)
  }

  lemma WriterReady(s: Sys) returns (events: seq<Event>, t: Sys)
    requires ProtocolInv(s) && s.sender.window.size > 0
    requires Base(s.sender.window, s.sender.sent) + 2 * WINDOW < 0x1_0000_0000
    ensures Steps(s, events, t) && Round(events) && Waiting(s, t)
  {
    var e1, m := WriterWaits(s);
    var e2;
    e2, t := SignalsWaiter(m);
    StepsCompose(s, e1, m, e2, t);
    events := e1 + e2;
  }

  /** How a completed round leaves the sender: waiting, and about to be signalled. */
  ghost predicate Acknowledged(s: Sys, t: Sys) {
    t.sender.state == WaitOnRead(false) && t.sender.signalDue && SameBlocks(s.sender, t.sender)
  }

  /** What may be outstanding once the writer waits fits the user's queue: the round then needs no
      read at all. */
  lemma RoundCompletes(s: Sys) returns (events: seq<Event>, t: Sys)
    requires ProtocolInv(s) && s.sender.window.size > 0 && NoWrap(s.receiver.window)
    requires Base(s.sender.window, s.sender.sent) + 2 * WINDOW < 0x1_0000_0000
    requires var outstanding := Base(s.sender.window, s.sender.sent) + WINDOW - s.receiver.window.counter;
      |s.user.queue| + outstanding <= QUEUE_CAPACITY
    ensures Steps(s, events, t) && Round(events) && AllDone(s, t) && Acknowledged(s, t)
  {
    var e1, s1 := WriterReady(s);
    StepsKeep(s, e1, s1);
    var e2, s2 := RetransmitsAll(s1);
    StepsCompose(s, e1, s1, e2, s2);
    StepsKeep(s1, e2, s2);
    var e3, s3 := ReceiverReady(s2);
    StepsCompose(s, e1 + e2, s2, e3, s3);
    var e4, s4 := TakesAll(s3, Base(s3.sender.window, s3.sender.sent));
    StepsCompose(s, e1 + e2 + e3, s3, e4, s4);
    var ack := ReceiveAck(|s4.sender.sent| - 1);
    LastAckEmpties(s4);
    t := Next(s4, ack);
    FirstStep(s4, ack, [], t);
    assert [ack] + [] == [ack];
    StepsCompose(s, e1 + e2 + e3 + e4, s4, [ack], t);
    events := e1 + e2 + e3 + e4 + [ack];
  }

  // ---- A frame beyond the wrap ----

  lemma DrainKeepsWrap(w: ReceiveWindow)
    requires ReceiveSized(w) && Occupied(w, 0) && !WrapsLoaded(w) && !NoWrap(w)
    requires w.head < 255 ==> forall i | 0 <= i < WINDOW - 1 :: Occupied(DrainOne(w), i) <==> Occupied(w, i + 1)
    ensures !NoWrap(DrainOne(w))
  {
    var i :| 0 <= i < WINDOW && Occupied(w, i) && w.head + i > 255;
    assert Occupied(DrainOne(w), i - 1);
  }

  lemma WrapStays(s: Sys, e: Event)
    requires ProtocolInv(s) && Enabled(s, e) && !Fault(s, e) && !NoWrap(s.receiver.window)
    ensures ReceiveSized(Next(s, e).receiver.window) && !NoWrap(Next(s, e).receiver.window)
  {
    var w, m := s.receiver.window, Next(s, e);
    match e
    case ReceiveFrame(f) =>
      if f.kind.Data? {
        assert Genuine(f, s.sender.sent);
        AcceptOk(w, s.sender.sent, f);
        var i :| 0 <= i < WINDOW && Occupied(w, i) && w.head + i > 255;
        assert Occupied(m.receiver.window, i);
      }
    case DrainFront =>
      DrainOneExact(w, s.sender.sent);
      DrainKeepsWrap(w);
    case _ =>
  }

  /** A frame buffered beyond the wrap stays there: no fault-free continuation ever takes it. */
  lemma {:induction false} WrapBlocks(s: Sys, events: seq<Event>, t: Sys)
    requires ProtocolInv(s) && Steps(s, events, t) && !NoWrap(s.receiver.window)
    ensures t.receiver.window.counter < |t.sender.sent|
    decreases |events|
  {
    if events == [] {
      var w := s.receiver.window;
      var i :| 0 <= i < WINDOW && Occupied(w, i) && w.head + i > 255;
    } else {
      StepExact(s, events[0]);
      WrapStays(s, events[0]);
      WrapBlocks(Next(s, events[0]), events[1..], t);
    }
  }

  // ---- The user reads what has arrived ----

  /** A read with room for more than the first block takes it; a read in progress takes it or ends. */
  function TakingRead(u: User): Event
    requires u.queue != []
  {
    if u.state.Reading? then ReadMore else ReadBegin(|u.queue[0]| + 1)
  }

  lemma {:induction false} UserEmpties(s: Sys) returns (events: seq<Event>, t: Sys)
    requires Sized(s) && UserOk(s.user)
    ensures Steps(s, events, t) && Round(events)
    ensures t == s.(user := t.user) && t.user.queue == []
    decreases |s.user.queue|, if s.user.state.Reading? then 1 else 0
  {
    if s.user.queue == [] {
      events, t := [], s;
    } else {
      var e := TakingRead(s.user);
      UserKeeps(s, e);
      events, t := UserEmpties(Next(s, e));
      FirstStep(s, e, events, t);
      events := [e] + events;
    }
  }

  /** From every state with unacknowledged packets and no frame buffered beyond the wrap, whatever the
      channel still holds, a round without new data, without loss and without a fault delivers every
      sent block and empties the window. */
  lemma NeverStuck(s: Sys) returns (events: seq<Event>, t: Sys)
    requires ProtocolInv(s) && UserOk(s.user) && s.sender.window.size > 0 && NoWrap(s.receiver.window)
    requires Base(s.sender.window, s.sender.sent) + 2 * WINDOW < 0x1_0000_0000
    ensures Steps(s, events, t) && Round(events) && AllDone(s, t) && Acknowledged(s, t)
  {
    var taken, m := UserEmpties(s);
    var round;
    round, t := RoundCompletes(m);
    StepsCompose(s, taken, m, round, t);
    events := taken + round;
  }
}
