/** What can go wrong is reachable, and it breaks what the transport is for: a signal that nobody hears can
    leave the writer asleep on queued data, a duplicated acknowledgement can make the sender forget a
    packet that was never delivered, and a wrap of the receive head can deliver the wrong block. */
module FaultyRuns {
  import opened Prelude
  import opened Windows
  import opened Transport
  import opened Progress
  import opened Delivery

  ghost predicate Reachable(t: Sys) {
    exists events :: Runs(INIT, events, t)
  }

  /** Reached without a fault. */
  ghost predicate Good(t: Sys) {
    Sized(t) && exists events :: Steps(INIT, events, t)
  }

  lemma {:induction false} RunsOn(s: Sys, events: seq<Event>, t: Sys, e: Event)
    requires Runs(s, events, t) && Enabled(t, e)
    ensures Runs(s, events + [e], Next(t, e))
    decreases |events|
  {
    if events == [] {
      assert events + [e] == [e] && [e][1..] == [];
    } else {
      RunsOn(Next(s, events[0]), events[1..], t, e);
      assert (events + [e])[1..] == events[1..] + [e];
    }
  }

  lemma Step(s: Sys, e: Event)
    requires Reachable(s) && Enabled(s, e)
    ensures Reachable(Next(s, e))
  {
    var events :| Runs(INIT, events, s);
    RunsOn(INIT, events, s, e);
  }

  lemma GoodFacts(s: Sys)
    requires Good(s)
    ensures ProtocolInv(s) && Sized(s) && Reachable(s)
  {
    var events :| Steps(INIT, events, s);
    InitInv();
    StepsKeep(INIT, events, s);
    StepsAreRuns(INIT, events, s);
  }

  /** The parts of the invariant that building a run needs. */
  lemma GoodShape(s: Sys)
    requires Good(s)
    ensures Sized(s) && s.sender.nextSeq == |s.sender.sent| && |s.receiver.delivered| == s.receiver.window.counter
    ensures !s.receiver.handling ==> !Occupied(s.receiver.window, 0)
  {
    GoodFacts(s);
  }

  lemma GoodStep(s: Sys, e: Event)
    requires Good(s) && Enabled(s, e) && !Fault(s, e)
    ensures Good(Next(s, e))
  {
    hide ProtocolInv, Next, Enabled, Fault;
    var events :| Steps(INIT, events, s);
    FirstStep(s, e, [], Next(s, e));
    assert [e] + [] == [e];
    StepsCompose(INIT, events, s, [e], Next(s, e));
    GoodFacts(s);
    StepExact(s, e);
    InvFacts(Next(s, e));
  }

  lemma InitReachable()
    ensures Good(INIT) && Reachable(INIT)
  {
    assert Steps(INIT, [], INIT);
    assert Runs(INIT, [], INIT);
  }

  lemma Proceed(s: Sys, e: Event)
    requires Reachable(s) && Enabled(s, e)
    ensures Reachable(Next(s, e))
    ensures Good(s) && !Fault(s, e) ==> Good(Next(s, e))
  {
    Step(s, e);
    if Good(s) && !Fault(s, e) { GoodStep(s, e); }
  }

  // ---- Building states with any number of packets ----

  /** Signals pass unheard: the writer has never waited, so nothing holds the reader thread up. */
  ghost predicate Unheard(x: Sender) {
    !x.signalDue && !x.hasWaited && !x.state.WaitOnRead?
  }

  /** The writer could send at once. */
  ghost predicate CanSend(s: Sys) {
    && Sized(s) && Unheard(s.sender) && s.sender.nextSeq == |s.sender.sent|
    && s.sender.queue == [] && s.sender.pending == []
    && s.sender.window.size < WINDOW && |s.sender.sent| < 1000
    && (s.sender.state == IsWindowFullQ || (s.sender.state == WindowEmptyQ && s.sender.window.size == 0))
  }

  lemma OneChunk(b: Byte)
    ensures Chunks([b]) == [[b]]
  {
  }

  /** One byte passes from the user to the sending queue. */
  lemma QueueByte(s: Sys, b: Byte) returns (t: Sys)
    requires Reachable(s) && Sized(s) && s.sender.queue == [] && s.sender.pending == []
    ensures Reachable(t) && (Good(s) ==> Good(t))
    ensures t == s.(sender := s.sender.(queue := [[b]], written := s.sender.written + [b]))
  {
    hide Good, Reachable;
    OneChunk(b);
    Proceed(s, Write([b]));
    var m := Next(s, Write([b]));
    Proceed(m, Push);
    t := Next(m, Push);
  }

  lemma DecideToSend(s: Sys) returns (t: Sys)
    requires Reachable(s) && Sized(s) && s.sender.queue != [] && s.sender.window.size < WINDOW
    requires s.sender.state == IsWindowFullQ || (s.sender.state == WindowEmptyQ && s.sender.window.size == 0)
    ensures Reachable(t) && (Good(s) ==> Good(t))
    ensures t == s.(sender := s.sender.(state := SendPacket))
  {
    hide Good, Reachable;
    Proceed(s, WriterStep);
    t := Next(s, WriterStep);
    if t.sender.state == BlockOnQueue {
      Proceed(t, WriterStep);
      t := Next(t, WriterStep);
    }
  }

  lemma Emit(s: Sys, b: Byte) returns (t: Sys)
    requires Reachable(s) && Sized(s) && s.sender.nextSeq == |s.sender.sent| < 1000
    requires s.sender.state == SendPacket && s.sender.queue == [[b]]
    ensures Reachable(t) && (Good(s) ==> Good(t))
    ensures t == s.(sender := t.sender, frames := s.frames + {Frame(Data, |s.sender.sent|, [b])})
    ensures t.sender == s.sender.(window := t.sender.window, state := IsWindowFullQ, queue := [],
                                  nextSeq := s.sender.nextSeq + 1, sent := s.sender.sent + [[b]])
    ensures t.sender.window == Put(s.sender.window, Frame(Data, |s.sender.sent|, [b]))
  {
    hide Good, Reachable;
    Proceed(s, WriterStep);
    var m := Next(s, WriterStep);
    Proceed(m, WriterStep);
    t := Next(m, WriterStep);
  }

  /** The user writes one byte and the writer puts its packet on the wire. */
  lemma SendByte(s: Sys, b: Byte) returns (t: Sys)
    requires Reachable(s) && CanSend(s)
    ensures Reachable(t) && (Good(s) ==> Good(t)) && Sized(t) && t.sender.nextSeq == |t.sender.sent|
    ensures t.sender.queue == [] && t.sender.pending == [] && t.sender.state == IsWindowFullQ
    ensures t.sender.sent == s.sender.sent + [[b]] && t.sender.window.size == s.sender.window.size + 1
    ensures t.sender.window == Put(s.sender.window, Frame(Data, |s.sender.sent|, [b]))
    ensures t.frames == s.frames + {Frame(Data, |s.sender.sent|, [b])} && Unheard(t.sender)
    ensures t.acks == s.acks && t.receiver == s.receiver && t.user == s.user
  {
    hide Good, Reachable;
    t := QueueByte(s, b);
    t := DecideToSend(t);
    t := Emit(t, b);
  }

  /** A genuine frame arrives at a receiver that is not busy. */
  lemma Arrive(s: Sys, k: nat) returns (t: Sys)
    requires Good(s) && !s.receiver.handling && k < |s.sender.sent| && DataFrame(s.sender.sent, k) in s.frames
    ensures Good(t)
    ensures ReceiveSized(s.receiver.window)
    ensures t == s.(receiver := s.receiver.(handling := true,
                                            window := Accept(s.receiver.window, DataFrame(s.sender.sent, k))))
  {
    GoodShape(s);
    var f := DataFrame(s.sender.sent, k);
    GoodStep(s, ReceiveFrame(f));
    t := Next(s, ReceiveFrame(f));
  }

  lemma HandUp(s: Sys) returns (t: Sys)
    requires Good(s) && s.receiver.handling && |s.user.queue| < QUEUE_CAPACITY && s.receiver.window.head < 255
    requires ReceiveSized(s.receiver.window) && Occupied(s.receiver.window, 0)
    ensures Good(t)
    ensures t == s.(receiver := Receiver(DrainOne(s.receiver.window), true,
                                         s.receiver.delivered + [Front(s.receiver.window)]),
                    user := s.user.(queue := s.user.queue + [Front(s.receiver.window).payload]))
  {
    GoodShape(s);
    GoodStep(s, DrainFront);
    t := Next(s, DrainFront);
  }

  lemma Acknowledge(s: Sys) returns (t: Sys)
    requires Good(s) && s.receiver.handling && ReceiveSized(s.receiver.window) && !Occupied(s.receiver.window, 0)
    ensures Good(t)
    ensures t == s.(receiver := s.receiver.(handling := false), acks := s.acks + {U32(s.receiver.window.counter - 1)})
  {
    GoodShape(s);
    GoodStep(s, SendAck);
    t := Next(s, SendAck);
  }

  lemma TakeWindow(w: ReceiveWindow, f: Frame)
    requires ReceiveSized(w) && w.head < 255 && f.kind.Data? && f.seqNum == w.counter < 1000
    requires EmptyRing(w)
    ensures var m := Accept(w, f);
      Occupied(m, 0) && Front(m) == f && !Occupied(DrainOne(m), 0)
      && DrainOne(m).counter == w.counter + 1 && DrainOne(m).head == w.head + 1
    ensures EmptyRing(DrainOne(Accept(w, f)))
  {
    var m := Accept(w, f);
    assert SlotOf(m, 0) == w.head % WINDOW && m.ring == w.ring[w.head % WINDOW := f];
    assert EmptyRing(DrainOne(m));
  }

  predicate EmptyRing(w: ReceiveWindow)
    requires ReceiveSized(w)
  {
    forall k | 0 <= k < WINDOW :: w.ring[k].kind.Uninitialized?
  }

  /** The next expected frame arrives at an empty ring and is acknowledged. */
  lemma TakeFront(s: Sys, b: Byte) returns (t: Sys)
    requires Good(s) && !s.receiver.handling && |s.user.queue| < QUEUE_CAPACITY
    requires s.receiver.window.counter + 1 == |s.sender.sent| <= 255
    requires s.receiver.window.head == s.receiver.window.counter
    requires ReceiveSized(s.receiver.window) && EmptyRing(s.receiver.window)
    requires s.sender.sent[|s.sender.sent| - 1] == [b] && Frame(Data, |s.sender.sent| - 1, [b]) in s.frames
    ensures Good(t) && t.sender == s.sender && t.frames == s.frames && !t.receiver.handling
    ensures t.acks == s.acks + {|s.sender.sent| - 1} && t.user == s.user.(queue := s.user.queue + [[b]])
    ensures t.receiver.window.counter == |s.sender.sent| == t.receiver.window.head
    ensures ReceiveSized(t.receiver.window) && EmptyRing(t.receiver.window)
  {
    hide Good;
    var k := |s.sender.sent| - 1;
    var f := DataFrame(s.sender.sent, k);
    TakeWindow(s.receiver.window, f);
    var m := Arrive(s, k);
    assert m.receiver.window == Accept(s.receiver.window, f) && m.user == s.user && m.acks == s.acks;
    var n := HandUp(m);
    assert n.receiver.window == DrainOne(m.receiver.window) && n.user.queue == s.user.queue + [[b]] && n.acks == s.acks;
    t := Acknowledge(n);
  }

  lemma LastAckedWindow(w: SendWindow, sent: seq<Block>)
    requires SendOk(w, sent) && w.size == 1 && |sent| + WINDOW < 0x1_0000_0000
    ensures Acked(w, |sent| - 1) == w.(size := 0, head := w.tail)
  {
    var a := |sent| - 1;
    AckCountExact(w, sent, a + 1, a);
    NextSlot(a, a + 1);
  }

  lemma LastAcked(s: Sys)
    requires Good(s) && s.sender.window.size == 1 && s.receiver.window.counter == |s.sender.sent|
    ensures SendSized(s.sender.window)
    ensures Acked(s.sender.window, |s.sender.sent| - 1) == s.sender.window.(size := 0, head := s.sender.window.tail)
  {
    hide Good, RingOk, Acked, ReceiverOk, FramesOk;
    GoodFacts(s);
    LastAckedWindow(s.sender.window, s.sender.sent);
  }

  /** The only outstanding packet is acknowledged. */
  lemma AckLast(s: Sys) returns (t: Sys)
    requires Good(s) && s.sender.window.size == 1 && Unheard(s.sender)
    requires s.receiver.window.counter == |s.sender.sent| && |s.sender.sent| - 1 in s.acks
    ensures Good(t) && t == s.(sender := s.sender.(window := t.sender.window))
    ensures t.sender.window == s.sender.window.(size := 0, head := s.sender.window.tail)
  {
    hide Good;
    GoodShape(s);
    var a := |s.sender.sent| - 1;
    LastAcked(s);
    GoodStep(s, ReceiveAck(a));
    var m := Next(s, ReceiveAck(a));
    GoodShape(m);
    GoodStep(m, Signal);
    t := Next(m, Signal);
  }

  // ---- One byte ----

  /** One byte is sent, delivered and acknowledged. */
  lemma FirstByte() returns (t: Sys)
    ensures Good(t) && Reachable(t) && Sized(t) && t.sender.nextSeq == 1 && t.sender.sent == [[7]]
    ensures t.sender.queue == [] && t.sender.pending == [] && t.sender.state == IsWindowFullQ
    ensures t.sender.window == SendWindow(1, 1, 0, [Frame(Data, 0, [7]), BLANK, BLANK, BLANK, BLANK, BLANK])
    ensures 0 in t.acks && t.receiver.window.counter == 1 && Unheard(t.sender)
    ensures t.frames == {Frame(Data, 0, [7])}
  {
    hide Good, Reachable;
    InitReachable();
    var s := SendByte(INIT, 7);
    s := TakeFront(s, 7);
    t := AckLast(s);
    GoodFacts(t);
  }

  // ---- A signal that nobody hears ----

  /** The first packet is acknowledged before the writer first waits, so the signal passes unheard. The
      writer then sleeps, and a block written afterwards is never sent, whatever else happens short of a
      fault or a spurious wake-up. */
  lemma LostWakeupRun() returns (t: Sys)
    ensures Good(t) && Asleep(t.sender) && t.sender.sent == [[7]] && t.sender.queue == [[8]]
    ensures t.frames == {Frame(Data, 0, [7])} && t.receiver.window.counter == 1
    ensures forall events, u | Steps(t, events, u) && Heard(events) :: u.sender.sent == [[7]]
  {
    hide Good, Reachable;
    var s := FirstByte();
    GoodStep(s, WriterStep);
    GoodFacts(Next(s, WriterStep));
    t := QueueByte(Next(s, WriterStep), 8);
    GoodFacts(t);
    forall events, u | Steps(t, events, u) && Heard(events) ensures u.sender.sent == [[7]] {
      AsleepForEver(t, events, u);
    }
  }

  // ---- A duplicated acknowledgement ----

  /** The acknowledgement 0 arrives again while every slot holds a blank frame or packet 0: each time
      the head moves on and the size drops by one, modulo 256. */
  lemma {:induction false} RepeatAck(s: Sys, n: nat) returns (t: Sys)
    requires Reachable(s) && Sized(s) && 0 in s.acks && Unheard(s.sender)
    requires forall k | 0 <= k < WINDOW :: s.sender.window.ring[k].seqNum == 0
    ensures Reachable(t) && t == s.(sender := s.sender.(window := t.sender.window))
    ensures t.sender.window
      == s.sender.window.(head := (s.sender.window.head + n) % WINDOW, size := U8(s.sender.window.size - n))
  {
    hide Reachable;
    if n == 0 {
      t := s;
      assert (s.sender.window.head + n) % WINDOW == s.sender.window.head;
      assert U8(s.sender.window.size - n) == s.sender.window.size;
    } else {
      var m := RepeatAck(s, n - 1);
      t := AckAgain(m);
      OneMoreTurn(s.sender.window.head, s.sender.window.size, n);
    }
  }

  lemma OneMoreTurn(head: nat, size: int, n: nat)
    requires n > 0
    ensures ((head + (n - 1)) % WINDOW + 1) % WINDOW == (head + n) % WINDOW
    ensures U8(U8(size - (n - 1)) - 1) == U8(size - n)
  {
  }

  lemma AckAgain(s: Sys) returns (t: Sys)
    requires Reachable(s) && Sized(s) && 0 in s.acks && Unheard(s.sender)
    requires s.sender.window.ring[s.sender.window.head].seqNum == 0
    ensures Reachable(t) && t == s.(sender := s.sender.(window := t.sender.window))
    ensures t.sender.window
      == s.sender.window.(head := (s.sender.window.head + 1) % WINDOW, size := U8(s.sender.window.size - 1))
  {
    hide Reachable;
    Proceed(s, ReceiveAck(0));
    var m := Next(s, ReceiveAck(0));
    Proceed(m, Signal);
    t := Next(m, Signal);
  }

  /** The same acknowledgement arrives twice. The sender then believes that its window holds 255
      packets. */
  lemma DuplicateAckRun() returns (t: Sys)
    ensures Reachable(t) && t.sender.sent == [[7]] && t.receiver.window.counter == 1
    ensures t.sender.window.size == 255 && !ProtocolInv(t)
  {
    hide Good, Reachable;
    var s := FirstByte();
    t := AckAgain(s);
  }

  lemma SendThree(s: Sys, a: Byte, b: Byte, c: Byte) returns (t: Sys)
    requires Reachable(s) && CanSend(s) && s.sender.window.size + 3 <= WINDOW && |s.sender.sent| < 900
    ensures Reachable(t) && Sized(t) && t.sender.nextSeq == |t.sender.sent|
    ensures t.sender.queue == [] && t.sender.pending == [] && t.sender.state == IsWindowFullQ
    ensures t.sender.sent == s.sender.sent + [[a], [b], [c]] && t.sender.window.size == s.sender.window.size + 3
    ensures var n, w := |s.sender.sent|, s.sender.window;
      t.sender.window == Put(Put(Put(w, Frame(Data, n, [a])), Frame(Data, n + 1, [b])), Frame(Data, n + 2, [c]))
    ensures t.acks == s.acks && t.receiver == s.receiver && Unheard(t.sender)
  {
    hide Good, Reachable;
    t := SendByte(s, a);
    t := SendByte(t, b);
    t := SendByte(t, c);
  }

  /** The state before the last six packets: packet 1 is sent and neither delivered nor acknowledged,
      but the sender's window is empty again. */
  lemma ForgottenSize() returns (t: Sys)
    ensures Reachable(t) && Sized(t) && t.sender.nextSeq == 2 && t.sender.sent == [[7], [1]]
    ensures t.sender.queue == [] && t.sender.pending == [] && t.sender.state == IsWindowFullQ
    ensures t.sender.window
      == SendWindow(0, 2, 0, [Frame(Data, 0, [7]), Frame(Data, 1, [1]), BLANK, BLANK, BLANK, BLANK])
    ensures t.receiver.window.counter == 1 && Unheard(t.sender)
  {
    hide Good, Reachable;
    var s := FirstByte();
    s := RepeatAck(s, 256);
    assert s.sender.window.head == 5 && s.sender.window.size == 0;
    s := SendByte(s, 1);
    t := AckAgain(s);
  }

  /** After enough repetitions of one acknowledgement the writer overwrites a packet that was never
      delivered: no slot holds it any more, so no retransmission can send it. */
  lemma LostPacketRun() returns (t: Sys)
    ensures Reachable(t) && t.receiver.window.counter == 1 && |t.sender.sent| == 8 && SendSized(t.sender.window)
    ensures forall k | 0 <= k < WINDOW :: t.sender.window.ring[k].seqNum != 1
  {
    hide Good, Reachable, Put;
    var m := ForgottenSize();
    var s := SendThree(m, 2, 3, 4);
    t := SendThree(s, 5, 6, 7);
    PutMiddle(m.sender.window, Frame(Data, 2, [2]), Frame(Data, 3, [3]), Frame(Data, 4, [4]));
    PutEnds(s.sender.window, Frame(Data, 5, [5]), Frame(Data, 6, [6]), Frame(Data, 7, [7]));
  }

  lemma PutMiddle(w: SendWindow, a: Frame, b: Frame, c: Frame)
    requires SendSized(w) && w.tail == 2
    ensures var m := Put(Put(Put(w, a), b), c);
      SendSized(m) && m.tail == 5 && m.ring == [w.ring[0], w.ring[1], a, b, c, w.ring[5]]
  {
    assert Put(w, a).ring == [w.ring[0], w.ring[1], a, w.ring[3], w.ring[4], w.ring[5]];
    assert Put(Put(w, a), b).ring == [w.ring[0], w.ring[1], a, b, w.ring[4], w.ring[5]];
  }

  lemma PutEnds(w: SendWindow, a: Frame, b: Frame, c: Frame)
    requires SendSized(w) && w.tail == 5
    ensures var m := Put(Put(Put(w, a), b), c);
      SendSized(m) && m.ring == [b, c, w.ring[2], w.ring[3], w.ring[4], a]
  {
    assert Put(w, a).ring == [w.ring[0], w.ring[1], w.ring[2], w.ring[3], w.ring[4], a];
    assert Put(Put(w, a), b).ring == [b, w.ring[1], w.ring[2], w.ring[3], w.ring[4], a];
  }

  // ---- The head byte wraps ----

  /** One large read is in progress and has taken `n` bytes, or none was started. */
  predicate ReadSoFar(u: User, n: nat) {
    if n == 0 then u.state == Idle
    else u.state.Reading? && u.state.len == 1000 && |u.state.got| == n
  }

  /** `n` bytes have been sent, delivered, acknowledged and taken by a large read in progress. */
  ghost predicate Settled(s: Sys, n: nat) {
    && Good(s) && CanSend(s) && s.sender.window.size == 0 && |s.sender.sent| == n
    && !s.receiver.handling && s.receiver.window.counter == n == s.receiver.window.head
    && ReceiveSized(s.receiver.window) && EmptyRing(s.receiver.window)
    && s.user.queue == [] && s.user.offset == 0
    && ReadSoFar(s.user, n)
  }

  lemma UserTakes(s: Sys, n: nat) returns (t: Sys)
    requires Good(s) && n < 255 && s.user.queue == [[0]] && s.user.offset == 0
    requires ReadSoFar(s.user, n)
    ensures Good(t) && t == s.(user := t.user) && t.user.queue == [] && t.user.offset == 0
    ensures t.user.state.Reading? && t.user.state.len == 1000 && |t.user.state.got| == n + 1
  {
    GoodShape(s);
    var e := if n == 0 then ReadBegin(1000) else ReadMore;
    GoodStep(s, e);
    t := Next(s, e);
  }

  lemma OneMore(s: Sys, n: nat) returns (t: Sys)
    requires Settled(s, n) && n < 255
    ensures Settled(t, n + 1)
  {
    hide Good, Reachable;
    GoodFacts(s);
    t := SendByte(s, 0);
    t := TakeFront(t, 0);
    t := AckLast(t);
    t := UserTakes(t, n);
    GoodShape(t);
  }

  lemma {:induction false} SettledAt(n: nat) returns (s: Sys)
    requires n <= 255
    ensures Settled(s, n)
  {
    if n == 0 {
      s := INIT;
      InitReachable();
    } else {
      var p := SettledAt(n - 1);
      s := OneMore(p, n - 1);
    }
  }

  /** Four packets on the wire at once. */
  lemma SendFour(s: Sys) returns (t: Sys)
    requires Settled(s, 255)
    ensures Good(t) && t.receiver == s.receiver && t.user == s.user
    ensures t.sender.sent == s.sender.sent + [[1], [2], [3], [4]]
    ensures Frame(Data, 255, [1]) in t.frames && Frame(Data, 258, [4]) in t.frames
  {
    hide Good;
    t := SendTwo(s, 1, 2);
    GoodShape(t);
    t := SendTwo(t, 3, 4);
  }

  lemma SendTwo(s: Sys, a: Byte, b: Byte) returns (t: Sys)
    requires Good(s) && CanSend(s) && s.sender.window.size + 2 <= WINDOW && |s.sender.sent| < 999
    ensures Good(t) && t.receiver == s.receiver && t.user == s.user && Unheard(t.sender)
    ensures t.sender.queue == [] && t.sender.pending == [] && t.sender.state == IsWindowFullQ
    ensures t.sender.sent == s.sender.sent + [[a]] + [[b]] && t.sender.window.size == s.sender.window.size + 2
    ensures t.frames == s.frames + {Frame(Data, |s.sender.sent|, [a])} + {Frame(Data, |s.sender.sent| + 1, [b])}
  {
    hide Good;
    GoodFacts(s);
    t := SendByte(s, a);
    t := SendByte(t, b);
  }

  /** A later packet arrives first: it is buffered, and only an old acknowledgement goes out. */
  lemma BufferFourth(s: Sys) returns (t: Sys)
    requires Good(s) && !s.receiver.handling && |s.sender.sent| == 259
    requires DataFrame(s.sender.sent, 258) in s.frames
    requires s.receiver.window.head == 255 == s.receiver.window.counter
    ensures Good(t) && t == s.(acks := t.acks, receiver := s.receiver.(window := t.receiver.window))
    ensures t.receiver.window == s.receiver.window.(ring := t.receiver.window.ring)
    ensures ReceiveSized(t.receiver.window) && Occupied(t.receiver.window, 3)
    ensures t.receiver.window.ring[SlotOf(t.receiver.window, 3)] == DataFrame(s.sender.sent, 258)
  {
    hide Good;
    GoodShape(s);
    t := Arrive(s, 258);
    SlotsDiffer(255, 0, 3);
    GoodShape(t);
    GoodStep(t, SendAck);
    t := Next(t, SendAck);
  }

  /** Then the first of the four arrives. */
  lemma FirstArrives(s: Sys) returns (t: Sys)
    requires Good(s) && !s.receiver.handling && |s.sender.sent| == 259 && DataFrame(s.sender.sent, 255) in s.frames
    requires s.receiver.window.head == 255 == s.receiver.window.counter
    requires ReceiveSized(s.receiver.window) && Occupied(s.receiver.window, 3)
    requires s.receiver.window.ring[SlotOf(s.receiver.window, 3)] == DataFrame(s.sender.sent, 258)
    ensures Reachable(t) && Sized(t) && t.user == s.user && t.sender == s.sender
    ensures t.receiver.handling && |t.receiver.delivered| == 255 && t.receiver.window.head == 255
    ensures Occupied(t.receiver.window, 0) && Occupied(t.receiver.window, 3)
    ensures t.receiver.window.ring[SlotOf(t.receiver.window, 3)] == DataFrame(s.sender.sent, 258)
  {
    hide Good;
    GoodShape(s);
    SlotsDiffer(255, 0, 3);
    t := Arrive(s, 255);
    GoodShape(t);
    GoodFacts(t);
  }

  lemma FourthFirst() returns (t: Sys)
    ensures Reachable(t) && Sized(t) && t.user.queue == []
    ensures t.receiver.handling && |t.receiver.delivered| == 255 && t.receiver.window.head == 255
    ensures |t.sender.sent| == 259 && t.sender.sent[256] == [2] && t.sender.sent[258] == [4]
    ensures Occupied(t.receiver.window, 0) && Occupied(t.receiver.window, 3)
    ensures t.receiver.window.ring[SlotOf(t.receiver.window, 3)] == DataFrame(t.sender.sent, 258)
  {
    var s := SettledAt(255);
    t := SendFour(s);
    var sent := t.sender.sent;
    assert sent == s.sender.sent + [[1], [2], [3], [4]];
    assert |sent| == 259 && sent[258] == [4] && sent[255] == [1] && sent[256] == [2];
    t := BufferFourth(t);
    t := FirstArrives(t);
  }

  /** A reachable state, with no acknowledgement misread, in which the 257th block handed up is
      the 259th block sent. */
  lemma WrapDeliversWrongBlock() returns (t: Sys)
    ensures Reachable(t) && |t.receiver.delivered| == 257 && |t.sender.sent| == 259
    ensures t.sender.sent[256] == [2] && t.receiver.delivered[256].payload == [4]
  {
    hide Reachable;
    var s := FourthFirst();
    var w := s.receiver.window;
    SlotsDiffer(255, 0, 3);
    Step(s, DrainFront);
    var m := Next(s, DrainFront);
    assert SlotOf(m.receiver.window, 0) == SlotOf(w, 3);
    Step(m, DrainFront);
    t := Next(m, DrainFront);
  }
}
