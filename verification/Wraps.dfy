/** What the wrap of the receive head does to a round: the code wraps through buffered frames without
    noticing, which some rounds survive and others do not. Faulty steps are allowed throughout. */
module Wraps {
  import opened Prelude
  import opened Windows
  import opened Transport
  import opened Streams
  import opened Progress

  // ---- Frames beyond the wrap ----

  /** The number of the packet that is drained while the head is 255. */
  function WrapAt(w: ReceiveWindow): nat
    requires ReceiveSized(w)
  {
    w.counter + (255 - w.head)
  }

  /** Packet WrapAt + j is buffered already. */
  predicate Beyond(w: ReceiveWindow, j: nat)
    requires ReceiveSized(w)
  {
    255 - w.head + j < WINDOW && Occupied(w, 255 - w.head + j)
  }

  /** Whether some round that ends with `k` packets numbered hands them up right: after the wrap the
      frame three beyond is in front at once, those one and two beyond stand behind packet p + 4 and
      packet p + 5, where only the packets p + 5 and p + 6 can overwrite them, and the others can
      always be overwritten. */
  predicate Deliverable(w: ReceiveWindow, k: nat)
    requires ReceiveSized(w)
  {
    && !Beyond(w, 3)
    && !(Beyond(w, 1) && k == WrapAt(w) + 5)
    && !(Beyond(w, 2) && k == WrapAt(w) + 6)
  }

  /** The same packet wraps, and the same packets are buffered beyond it. */
  ghost predicate SameBeyond(w: ReceiveWindow, w': ReceiveWindow)
    requires ReceiveSized(w) && ReceiveSized(w')
  {
    WrapAt(w') == WrapAt(w) && forall j | 1 <= j < WINDOW :: Beyond(w', j) == Beyond(w, j)
  }

  lemma DrainKeepsBeyond(w: ReceiveWindow, sent: seq<Block>)
    requires ReceiveOk(w, sent) && Occupied(w, 0) && w.head < 255 && |sent| + WINDOW < 0x1_0000_0000
    ensures ReceiveSized(DrainOne(w)) && SameBeyond(w, DrainOne(w))
  {
    var w' := DrainOne(w);
    assert w.counter + 1 <= |sent|;
    forall j | 1 <= j < WINDOW ensures Beyond(w', j) == Beyond(w, j) {
      var i := 255 - w'.head + j;
      if i < WINDOW { SlotMoves(w, i); }
    }
  }

  lemma AcceptKeepsBeyond(w: ReceiveWindow, sent: seq<Block>, f: Frame)
    requires ReceiveOk(w, sent) && |sent| + WINDOW < 0x1_0000_0000
    requires f.seqNum < |sent| && f == DataFrame(sent, f.seqNum)
    ensures ReceiveSized(Accept(w, f)) && WrapAt(Accept(w, f)) == WrapAt(w)
    ensures forall j | 1 <= j < WINDOW && Beyond(w, j) :: Beyond(Accept(w, f), j)
    ensures f.seqNum == w.counter ==> SameBeyond(w, Accept(w, f))
  {
    AcceptOk(w, sent, f);
    if f.seqNum == w.counter {
      forall j | 1 <= j < WINDOW && 255 - w.head + j < WINDOW ensures Beyond(Accept(w, f), j) == Beyond(w, j) {
        SlotsDiffer(w.head, 0, 255 - w.head + j);
      }
    }
  }

  /** Where the six slots stand once the head has wrapped. */
  lemma WrapMoves(w: ReceiveWindow)
    requires ReceiveSized(w) && w.head == 255 && Occupied(w, 0) && w.counter + 1 < 0x1_0000_0000
    ensures var w' := DrainOne(w);
      && ReceiveSized(w') && w'.head == 0 && w'.counter == w.counter + 1
      && w'.ring[0] == w.ring[SlotOf(w, 3)] && w'.ring[1] == w.ring[SlotOf(w, 4)]
      && w'.ring[2] == w.ring[SlotOf(w, 5)] && w'.ring[3].kind.Uninitialized?
      && w'.ring[4] == w.ring[SlotOf(w, 1)] && w'.ring[5] == w.ring[SlotOf(w, 2)]
  {
  }

  // ---- Three beyond: every continuation goes wrong ----

  ghost predicate Before3(s: Sys, p: nat) {
    TransferInv(s) && WrapAt(s.receiver.window) == p && Beyond(s.receiver.window, 3)
  }

  /** The head has wrapped, and packet p + 3 is the next to be handed up. */
  ghost predicate At3(s: Sys, p: nat) {
    var w := s.receiver.window;
    && Sized(s) && s.receiver.handling
    && w.head == 0 && w.counter == p + 1 == |s.receiver.delivered|
    && w.ring[0].kind.Data? && w.ring[0].seqNum == p + 3
  }

  ghost predicate After3(s: Sys, p: nat) {
    |s.receiver.delivered| > p + 1 && s.receiver.delivered[p + 1].seqNum == p + 3
  }

  lemma DrainBefore3(s: Sys, p: nat)
    requires Before3(s, p) && Enabled(s, DrainFront)
    ensures Before3(Next(s, DrainFront), p) || At3(Next(s, DrainFront), p)
  {
    var w, t := s.receiver.window, Next(s, DrainFront);
    if w.head < 255 {
      DrainFrontTransfers(s);
      DrainKeepsBeyond(w, s.sender.sent);
    } else {
      WrapMoves(w);
      assert w.ring[SlotOf(w, 3)] == DataFrame(s.sender.sent, w.counter + 3);
    }
  }

  lemma Stays3(s: Sys, p: nat, e: Event)
    requires (Before3(s, p) || At3(s, p) || After3(s, p)) && Enabled(s, e)
    ensures var t := Next(s, e); Before3(t, p) || At3(t, p) || After3(t, p)
  {
    if Before3(s, p) && !At3(s, p) && !After3(s, p) {
      match e
      case DrainFront => DrainBefore3(s, p);
      case ReceiveFrame(f) =>
        StepTransfers(s, e);
        if f.kind.Data? { AcceptKeepsBeyond(s.receiver.window, s.sender.sent, f); }
      case _ => StepTransfers(s, e);
    }
  }

  /** With packet p + 3 buffered when packet p is drained at head 255, every continuation, whatever its
      faults and its reordering, either has not handed up packet number p + 1, or has handed up packet
      p + 3 in its place. */
  lemma {:induction false} WrapMisplaces(s: Sys, p: nat, events: seq<Event>, t: Sys)
    requires (Before3(s, p) || At3(s, p) || After3(s, p)) && Runs(s, events, t)
    ensures |t.receiver.delivered| <= p + 1 || t.receiver.delivered[p + 1].seqNum == p + 3
    decreases |events|
  {
    if events != [] {
      Stays3(s, p, events[0]);
      WrapMisplaces(Next(s, events[0]), p, events[1..], t);
    }
  }

  // ---- One or two beyond: the last packet leaves a stale frame in front ----

  /** The sender is in order, and no acknowledgement covers the last packet. */
  ghost predicate Behind(s: Sys) {
    && SenderOk(s.sender) && FramesOk(s) && s.sender.window.size > 0
    && forall a | a in s.acks :: 0 <= a < |s.sender.sent| - 1 || a == 0xFFFF_FFFF
  }

  /** Packets p + 4 and, if it can still be numbered, p + 5 are the last ones. */
  ghost predicate Caught(s: Sys, p: nat) {
    p + 5 <= |s.sender.sent| && |s.sender.sent| + |s.sender.queue| <= p + 6
  }

  ghost predicate BeforeWrap(s: Sys, p: nat) {
    var w, last := s.receiver.window, |s.sender.sent| + |s.sender.queue|;
    && ReceiverOk(s) && WrapAt(w) == p
    && (|s.sender.sent| == p + 5 ==> Beyond(w, 1))
    && (last == p + 6 ==> Beyond(w, 2))
  }

  predicate Stale(w: ReceiveWindow, slot: nat, q: nat)
    requires ReceiveSized(w) && slot < WINDOW
  {
    w.ring[slot].kind.Data? && w.ring[slot].seqNum == q
  }

  ghost predicate AfterWrap(s: Sys, p: nat) {
    var w, n, last := s.receiver.window, |s.sender.sent|, |s.sender.sent| + |s.sender.queue|;
    && ReceiveSized(w)
    && p + 1 <= w.counter <= n && w.head == w.counter - (p + 1) && |s.receiver.delivered| == w.counter
    && (w.counter == n ==> s.receiver.handling)
    && (n == p + 5 ==> Stale(w, 4, p + 1))
    && (last == p + 6 ==> Stale(w, 5, p + 2))
  }

  ghost predicate Wrong(s: Sys) {
    exists i :: 0 <= i < |s.receiver.delivered| && s.receiver.delivered[i].seqNum != i
  }

  ghost predicate Doomed(s: Sys, p: nat) {
    Wrong(s) || (Behind(s) && Caught(s, p) && (BeforeWrap(s, p) || AfterWrap(s, p)))
  }

  lemma WrongStays(s: Sys, e: Event)
    requires Wrong(s) && Enabled(s, e)
    ensures Wrong(Next(s, e))
  {
    var i :| 0 <= i < |s.receiver.delivered| && s.receiver.delivered[i].seqNum != i;
    assert Next(s, e).receiver.delivered[i] == s.receiver.delivered[i];
  }

  lemma BehindStays(s: Sys, e: Event)
    requires Behind(s) && Enabled(s, e) && !e.Write? && !e.Push?
    requires e.SendAck? ==> s.receiver.window.counter < |s.sender.sent|
    ensures Behind(Next(s, e))
  {
    match e
    case WriterStep =>
      WriterKeeps(s.sender);
      WriterFrames(s);
    case ReceiveAck(a) => AckExact(s.sender.window, s.sender.sent, |s.sender.sent| - 1, a);
    case _ =>
  }

  lemma CaughtStays(s: Sys, p: nat, e: Event)
    requires Caught(s, p) && Enabled(s, e) && !e.Write? && !e.Push?
    ensures Caught(Next(s, e), p)
    ensures var x, x' := s.sender, Next(s, e).sender;
      |x.sent| <= |x'.sent| && |x'.sent| + |x'.queue| == |x.sent| + |x.queue| && x.sent <= x'.sent
  {
  }

  lemma DrainToWrap(s: Sys, p: nat)
    requires Behind(s) && Caught(s, p) && BeforeWrap(s, p) && Enabled(s, DrainFront)
    ensures BeforeWrap(Next(s, DrainFront), p) || AfterWrap(Next(s, DrainFront), p)
  {
    var w := s.receiver.window;
    if w.head < 255 {
      DrainFrontTransfers(s);
      DrainKeepsBeyond(w, s.sender.sent);
    } else {
      WrapMoves(w);
    }
  }

  lemma BeforeWrapStays(s: Sys, p: nat, e: Event)
    requires Behind(s) && Caught(s, p) && BeforeWrap(s, p) && Enabled(s, e) && !e.Write? && !e.Push?
    ensures BeforeWrap(Next(s, e), p) || AfterWrap(Next(s, e), p)
  {
    CaughtStays(s, p, e);
    match e
    case DrainFront => DrainToWrap(s, p);
    case WriterStep => WriterTransfers(s);
    case ReceiveFrame(f) =>
      ReceiveFrameTransfers(s, f);
      if f.kind.Data? { AcceptKeepsBeyond(s.receiver.window, s.sender.sent, f); }
    case _ =>
  }

  /** No frame that was sent overwrites a stale one in the slot of a packet never sent. */
  lemma StaleStays(w: ReceiveWindow, p: nat, f: Frame, slot: nat, q: nat)
    requires ReceiveSized(w) && p + 1 <= w.counter <= p + 6 && w.head == w.counter - (p + 1)
    requires 4 <= slot < WINDOW && Stale(w, slot, q) && f.seqNum <= p + slot && w.counter <= p + 1 + slot
    ensures ReceiveSized(Accept(w, f)) && Stale(Accept(w, f), slot, q)
  {
    if w.counter <= f.seqNum < U32(w.counter + WINDOW) {
      assert SlotOf(w, f.seqNum - w.counter) == (f.seqNum - (p + 1)) % WINDOW;
    }
  }

  lemma ReceiveAfterWrap(s: Sys, p: nat, f: Frame)
    requires Behind(s) && Caught(s, p) && AfterWrap(s, p) && Enabled(s, ReceiveFrame(f))
    ensures AfterWrap(Next(s, ReceiveFrame(f)), p)
  {
    var w, n := s.receiver.window, |s.sender.sent|;
    assert Genuine(f, s.sender.sent);
    if f.kind.Data? {
      if n == p + 5 { StaleStays(w, p, f, 4, p + 1); }
      if n + |s.sender.queue| == p + 6 { StaleStays(w, p, f, 5, p + 2); }
    }
  }

  lemma DrainAfterWrap(s: Sys, p: nat)
    requires Behind(s) && Caught(s, p) && AfterWrap(s, p) && Enabled(s, DrainFront)
    ensures Wrong(Next(s, DrainFront)) || AfterWrap(Next(s, DrainFront), p)
  {
    var w, t := s.receiver.window, Next(s, DrainFront);
    if Front(w).seqNum != w.counter {
      assert t.receiver.delivered[w.counter].seqNum != w.counter;
    } else {
      assert SlotOf(w, 0) == w.head;
      assert w.counter < |s.sender.sent|;
    }
  }

  lemma AfterWrapStays(s: Sys, p: nat, e: Event)
    requires Behind(s) && Caught(s, p) && AfterWrap(s, p) && Enabled(s, e) && !e.Write? && !e.Push?
    ensures Wrong(Next(s, e)) || AfterWrap(Next(s, e), p)
    ensures e.SendAck? ==> s.receiver.window.counter < |s.sender.sent|
  {
    CaughtStays(s, p, e);
    match e
    case DrainFront => DrainAfterWrap(s, p);
    case ReceiveFrame(f) => ReceiveAfterWrap(s, p, f);
    case SendAck =>
      if s.receiver.window.counter == |s.sender.sent| {
        assert false;
      }
    case _ =>
  }

  lemma DoomedStays(s: Sys, p: nat, e: Event)
    requires Doomed(s, p) && Enabled(s, e) && !e.Write? && !e.Push?
    ensures Doomed(Next(s, e), p)
  {
    if Wrong(s) {
      WrongStays(s, e);
    } else {
      CaughtStays(s, p, e);
      if AfterWrap(s, p) { AfterWrapStays(s, p, e); } else { BeforeWrapStays(s, p, e); }
      BehindStays(s, e);
    }
  }

  lemma {:induction false} DoomedNeverDone(s: Sys, p: nat, events: seq<Event>, t: Sys, start: Sys)
    requires Doomed(s, p) && Runs(s, events, t) && NoData(events)
    ensures !AllDone(start, t)
    decreases |events|
  {
    if events == [] {
      assert Wrong(t) ==> !HandedUpRight(t);
    } else {
      assert events[0] in events && forall e | e in events[1..] :: e in events;
      DoomedStays(s, p, events[0]);
      DoomedNeverDone(Next(s, events[0]), p, events[1..], t, start);
    }
  }

  // ---- Up to the wrap, in order ----

  /** The receiver has not reached the wrap, and everything outstanding is in the channel. */
  ghost predicate Approaching(s: Sys, p: nat) {
    && ProtocolInv(s) && WrapAt(s.receiver.window) == p < |s.sender.sent|
    && OnTheWire(s, s.receiver.window.counter, |s.sender.sent|)
    && |s.user.queue| + (p + 1 - s.receiver.window.counter) <= QUEUE_CAPACITY
  }

  /** What the way to the wrap leaves alone. */
  ghost predicate SameOutside(s: Sys, t: Sys) {
    && t.sender == s.sender && t.frames == s.frames
    && |t.user.queue| - t.receiver.window.counter == |s.user.queue| - s.receiver.window.counter
  }

  lemma DrainOn(s: Sys, p: nat) returns (t: Sys)
    requires Approaching(s, p) && s.receiver.handling && Occupied(s.receiver.window, 0) && s.receiver.window.head < 255
    ensures Enabled(s, DrainFront) && !Fault(s, DrainFront) && t == Next(s, DrainFront)
    ensures Approaching(t, p) && SameOutside(s, t) && SameBeyond(s.receiver.window, t.receiver.window)
    ensures t.receiver.window.counter == s.receiver.window.counter + 1
  {
    t := Next(s, DrainFront);
    DrainFrontExact(s);
    DrainKeepsBeyond(s.receiver.window, s.sender.sent);
  }

  lemma AckOn(s: Sys, p: nat) returns (t: Sys)
    requires Approaching(s, p) && s.receiver.handling && !Occupied(s.receiver.window, 0)
    ensures Enabled(s, SendAck) && !Fault(s, SendAck) && t == Next(s, SendAck)
    ensures Approaching(t, p) && SameOutside(s, t) && t.receiver.window == s.receiver.window && !t.receiver.handling
  {
    t := Next(s, SendAck);
    SendAckInv(s);
  }

  lemma ReceiveOn(s: Sys, p: nat) returns (e: Event, t: Sys)
    requires Approaching(s, p) && !s.receiver.handling
    ensures (e.ReceiveFrame? && Enabled(s, e) && !Fault(s, e)) && t == Next(s, e)
    ensures Approaching(t, p) && SameOutside(s, t) && SameBeyond(s.receiver.window, t.receiver.window)
    ensures t.receiver.handling && Occupied(t.receiver.window, 0)
    ensures t.receiver.window.counter == s.receiver.window.counter
  {
    var w := s.receiver.window;
    var f := DataFrame(s.sender.sent, w.counter);
    e := ReceiveFrame(f);
    t := Next(s, e);
    ReceiveFrameInv(s, f);
    AcceptOk(w, s.sender.sent, f);
    AcceptKeepsBeyond(w, s.sender.sent, f);
  }

  lemma {:induction false} ReachWrap(s: Sys, p: nat) returns (events: seq<Event>, t: Sys)
    requires Approaching(s, p)
    ensures Steps(s, events, t) && Round(events)
    ensures Approaching(t, p) && SameOutside(s, t) && SameBeyond(s.receiver.window, t.receiver.window)
    ensures t.receiver.handling && Occupied(t.receiver.window, 0) && t.receiver.window.head == 255
    decreases p - s.receiver.window.counter,
      if !s.receiver.handling then 1 else if Occupied(s.receiver.window, 0) then 0 else 2
  {
    hide ProtocolInv, Next;
    InvFacts(s);
    var e, m;
    if !s.receiver.handling {
      e, m := ReceiveOn(s, p);
    } else if !Occupied(s.receiver.window, 0) {
      e := SendAck;
      m := AckOn(s, p);
    } else if s.receiver.window.head == 255 {
      return [], s;
    } else {
      e := DrainFront;
      m := DrainOn(s, p);
    }
    events, t := ReachWrap(m, p);
    FirstStep(s, e, events, t);
    events := [e] + events;
  }

  // ---- Over the wrap ----

  /** Packets up to `p` are handed up, the head has wrapped, and the `k` packets numbered are in the
      channel; from `lo` on the ring holds them at their offsets, and the slot after the last is free. */
  ghost predicate Refilling(s: Sys, p: nat, k: nat, lo: nat) {
    var w := s.receiver.window;
    && Sized(s) && SenderOk(s.sender) && s.sender.window.size > 0 && !s.sender.signalDue
    && Base(s.sender.window, s.sender.sent) <= p + 1
    && |s.sender.sent| == k && p + 2 <= k <= p + 7
    && OnTheWire(s, p + 1, k)
    && !s.receiver.handling && w.head == 0 && w.counter == p + 1 == |s.receiver.delivered| && HandedUpRight(s)
    && 1 <= lo <= k - (p + 1)
    && (forall i | lo <= i < k - (p + 1) :: w.ring[i] == DataFrame(s.sender.sent, p + 1 + i))
    && w.ring[0].kind.Uninitialized?
    && (k - (p + 1) < WINDOW ==> w.ring[k - (p + 1)].kind.Uninitialized?)
    && |s.user.queue| + (k - (p + 1)) <= QUEUE_CAPACITY
  }

  /** Packet `p` is handed up and acknowledged, and the head has wrapped with its front slot free. */
  ghost predicate Crossed(s: Sys, t: Sys, p: nat)
    requires ReceiveSized(s.receiver.window)
  {
    && t.sender == s.sender && t.frames == s.frames && p in t.acks && |t.user.queue| == |s.user.queue| + 1
    && Sized(t) && !t.receiver.handling && |t.receiver.delivered| == p + 1 && HandedUpRight(t)
    && t.receiver.window == DrainOne(s.receiver.window) && t.receiver.window.counter == p + 1
    && t.receiver.window.ring[0].kind.Uninitialized?
  }

  lemma CrossWrap(s: Sys, p: nat) returns (t: Sys)
    requires Approaching(s, p) && s.receiver.handling && Occupied(s.receiver.window, 0) && s.receiver.window.head == 255
    requires !Beyond(s.receiver.window, 3) && |s.user.queue| < QUEUE_CAPACITY
    ensures Runs(s, [DrainFront, SendAck], t) && Crossed(s, t, p)
  {
    hide Approaching;
    var m := DrainOver(s, p);
    t := Next(m, SendAck);
    assert [DrainFront, SendAck][1..] == [SendAck] && [SendAck][1..] == [];
    assert Runs(t, [], t) && Runs(m, [SendAck], t);
  }

  /** Packet `p` is handed up and the head wraps. */
  lemma DrainOver(s: Sys, p: nat) returns (t: Sys)
    requires Approaching(s, p) && s.receiver.handling && Occupied(s.receiver.window, 0) && s.receiver.window.head == 255
    requires !Beyond(s.receiver.window, 3) && |s.user.queue| < QUEUE_CAPACITY
    ensures Enabled(s, DrainFront) && t == Next(s, DrainFront) && Sized(t)
    ensures t.sender == s.sender && t.frames == s.frames && t.acks == s.acks && t.receiver.handling
    ensures |t.user.queue| == |s.user.queue| + 1 && |t.receiver.delivered| == p + 1 && HandedUpRight(t)
    ensures t.receiver.window == DrainOne(s.receiver.window) && t.receiver.window.counter == p + 1 < 0x1_0000_0000
    ensures t.receiver.window.head == 0 && t.receiver.window.ring[0].kind.Uninitialized?
  {
    hide SenderOk, AcksOk, FramesOk;
    assert ReceiverOk(s);
    WrapMoves(s.receiver.window);
    t := Next(s, DrainFront);
    assert Front(s.receiver.window) == DataFrame(s.sender.sent, p);
  }

  /** The slot after the last packet is free once the head has wrapped. */
  lemma StopFree(w: ReceiveWindow, sent: seq<Block>, k: nat)
    requires ReceiveOk(w, sent) && w.head == 255 && Occupied(w, 0) && |sent| + WINDOW < 0x1_0000_0000
    requires |sent| <= k && w.counter + 2 <= k <= w.counter + 6 && Deliverable(w, k)
    ensures ReceiveSized(DrainOne(w)) && DrainOne(w).ring[k - (w.counter + 1)].kind.Uninitialized?
  {
    WrapMoves(w);
    var w', i := DrainOne(w), k - (w.counter + 1);
    if i == 1 { assert w'.ring[i] == w.ring[SlotOf(w, 4)]; }
    if i == 2 { assert w'.ring[i] == w.ring[SlotOf(w, 5)]; }
    if i == 4 { assert w'.ring[i] == w.ring[SlotOf(w, 1)]; }
    if i == 5 { assert w'.ring[i] == w.ring[SlotOf(w, 2)]; }
  }

  // ---- The sender numbers up to two packets more ----

  ghost predicate MayNumber(s: Sys, e: nat) {
    && Sized(s) && SenderOk(s.sender) && s.sender.window.size > 0
    && s.sender.window.size + e <= WINDOW && e <= |s.sender.queue| && |s.sender.sent| + e + WINDOW < 0x1_0000_0000
  }

  /** One packet more is numbered and in the channel. */
  ghost predicate OneNumbered(s: Sys, t: Sys) {
    && Base(t.sender.window, t.sender.sent) == Base(s.sender.window, s.sender.sent)
    && t == s.(sender := t.sender, frames := t.frames) && s.frames <= t.frames
    && t.sender.signalDue == s.sender.signalDue
    && |t.sender.sent| == |s.sender.sent| + 1 && s.sender.sent <= t.sender.sent
    && DataFrame(t.sender.sent, |s.sender.sent|) in t.frames
  }

  lemma NumberOne(s: Sys, e: nat) returns (t: Sys)
    requires MayNumber(s, e) && e > 0 && s.sender.state.IsWindowFullQ?
    ensures Runs(s, [WriterStep, WriterStep, WriterStep], t)
    ensures MayNumber(t, e - 1) && t.sender.state.IsWindowFullQ? && OneNumbered(s, t)
  {
    hide RingOk, Genuine;
    var a := Next(s, WriterStep);
    WriterKeeps(s.sender);
    var b := Next(a, WriterStep);
    WriterKeeps(a.sender);
    t := Next(b, WriterStep);
    WriterKeeps(b.sender);
    var three := [WriterStep, WriterStep, WriterStep];
    assert three[1..] == [WriterStep, WriterStep];
    assert [WriterStep, WriterStep][1..] == [WriterStep] && [WriterStep][1..] == [];
    assert Runs(t, [], t) && Runs(b, [WriterStep], t) && Runs(a, [WriterStep, WriterStep], t);
  }

  lemma {:induction false} NumberMore(s: Sys, e: nat, from: nat) returns (events: seq<Event>, t: Sys)
    requires MayNumber(s, e) && s.sender.state.IsWindowFullQ? && OnTheWire(s, from, |s.sender.sent|)
    ensures Runs(s, events, t) && Round(events)
    ensures MayNumber(t, 0) && Base(t.sender.window, t.sender.sent) == Base(s.sender.window, s.sender.sent)
    ensures t == s.(sender := t.sender, frames := t.frames) && t.sender.signalDue == s.sender.signalDue
    ensures |t.sender.sent| == |s.sender.sent| + e && s.sender.sent <= t.sender.sent
    ensures OnTheWire(t, from, |t.sender.sent|)
    decreases e
  {
    hide SenderOk;
    if e == 0 {
      events, t := [], s;
    } else {
      var m := NumberOne(s, e);
      assert OnTheWire(m, from, |m.sender.sent|) by {
        forall k | 0 <= k < |m.sender.sent| && from <= k ensures DataFrame(m.sender.sent, k) in m.frames {
          if k < |s.sender.sent| { assert DataFrame(m.sender.sent, k) == DataFrame(s.sender.sent, k); }
        }
      }
      var rest;
      rest, t := NumberMore(m, e - 1, from);
      RunsCompose(s, [WriterStep, WriterStep, WriterStep], m, rest, t);
      events := [WriterStep, WriterStep, WriterStep] + rest;
    }
  }

  lemma RefillStarts(s: Sys, p: nat, k: nat)
    requires Sized(s) && SenderOk(s.sender) && s.sender.window.size > 0 && !s.sender.signalDue
    requires Base(s.sender.window, s.sender.sent) <= p + 1
    requires |s.sender.sent| == k && p + 2 <= k <= p + 7 && OnTheWire(s, p + 1, k)
    requires !s.receiver.handling && s.receiver.window.head == 0
    requires s.receiver.window.counter == p + 1 == |s.receiver.delivered| && HandedUpRight(s)
    requires s.receiver.window.ring[0].kind.Uninitialized?
    requires k - (p + 1) < WINDOW ==> s.receiver.window.ring[k - (p + 1)].kind.Uninitialized?
    requires |s.user.queue| + (k - (p + 1)) <= QUEUE_CAPACITY
    ensures Refilling(s, p, k, k - (p + 1))
  {
  }

  lemma HandedUpStill(s: Sys, t: Sys)
    requires HandedUpRight(s) && t.receiver.delivered == s.receiver.delivered && s.sender.sent <= t.sender.sent
    ensures HandedUpRight(t)
  {
  }

  // ---- The packets after the wrap, the last one first ----

  lemma RefillOne(s: Sys, p: nat, k: nat, lo: nat) returns (events: seq<Event>, t: Sys)
    requires Refilling(s, p, k, lo) && lo > 1 && k + WINDOW < 0x1_0000_0000
    ensures Runs(s, events, t) && Round(events) && Refilling(t, p, k, lo - 1) && t.sender == s.sender
  {
    hide SenderOk, RingOk;
    var f := DataFrame(s.sender.sent, p + lo);
    var w := s.receiver.window;
    assert SlotOf(w, lo - 1) == lo - 1 && SlotOf(w, 0) == 0;
    var m := Next(s, ReceiveFrame(f));
    assert m.receiver.window == w.(ring := w.ring[lo - 1 := f]);
    t := Next(m, SendAck);
    events := [ReceiveFrame(f), SendAck];
    assert events[1..] == [SendAck] && [SendAck][1..] == [];
    assert Runs(t, [], t) && Runs(m, [SendAck], t);
  }

  lemma {:induction false} Refill(s: Sys, p: nat, k: nat, lo: nat) returns (events: seq<Event>, t: Sys)
    requires Refilling(s, p, k, lo) && lo >= 1 && k + WINDOW < 0x1_0000_0000
    ensures Runs(s, events, t) && Round(events) && Refilling(t, p, k, 1) && t.sender == s.sender
    decreases lo
  {
    hide Refilling, Next;
    if lo == 1 {
      events, t := [], s;
    } else {
      var first, m := RefillOne(s, p, k, lo);
      var rest;
      rest, t := Refill(m, p, k, lo - 1);
      RunsCompose(s, first, m, rest, t);
      events := first + rest;
    }
  }

  /** The first `i` packets after the wrap are handed up too, and the others stand behind them. */
  ghost predicate Emptying(s: Sys, p: nat, k: nat, i: nat) {
    var w := s.receiver.window;
    && Sized(s) && SenderOk(s.sender) && s.sender.window.size > 0 && !s.sender.signalDue
    && Base(s.sender.window, s.sender.sent) <= p + 1
    && |s.sender.sent| == k && p + 2 <= k <= p + 7 && i <= k - (p + 1)
    && s.receiver.handling && w.head == i && w.counter == p + 1 + i == |s.receiver.delivered| && HandedUpRight(s)
    && (forall m | i <= m < k - (p + 1) :: w.ring[m] == DataFrame(s.sender.sent, p + 1 + m))
    && (i > 0 ==> w.ring[0].kind.Uninitialized?)
    && (k - (p + 1) < WINDOW ==> w.ring[k - (p + 1)].kind.Uninitialized?)
    && |s.user.queue| + (k - (p + 1) - i) <= QUEUE_CAPACITY
  }

  /** The packet right after the wrap arrives last. */
  lemma FrontArrives(s: Sys, p: nat, k: nat) returns (events: seq<Event>, t: Sys)
    requires Refilling(s, p, k, 1) && k + WINDOW < 0x1_0000_0000
    ensures Runs(s, events, t) && Round(events) && Emptying(t, p, k, 0) && t.sender == s.sender
  {
    var f := DataFrame(s.sender.sent, p + 1);
    var w := s.receiver.window;
    assert SlotOf(w, 0) == 0;
    t := Next(s, ReceiveFrame(f));
    assert t.receiver.window == w.(ring := w.ring[0 := f]);
    events := [ReceiveFrame(f)];
    assert events[1..] == [] && Runs(t, [], t);
  }

  lemma EmptyOne(s: Sys, p: nat, k: nat, i: nat) returns (t: Sys)
    requires Emptying(s, p, k, i) && i < k - (p + 1) && k + WINDOW < 0x1_0000_0000
    ensures Runs(s, [DrainFront], t) && Emptying(t, p, k, i + 1) && t.sender == s.sender
  {
    hide SenderOk, RingOk;
    assert SlotOf(s.receiver.window, 0) == i;
    t := Next(s, DrainFront);
    assert [DrainFront][1..] == [] && Runs(t, [], t);
  }

  lemma {:induction false} EmptyAll(s: Sys, p: nat, k: nat, i: nat) returns (events: seq<Event>, t: Sys)
    requires Emptying(s, p, k, i) && k + WINDOW < 0x1_0000_0000
    ensures Runs(s, events, t) && Round(events) && Emptying(t, p, k, k - (p + 1)) && t.sender == s.sender
    decreases k - (p + 1) - i
  {
    if i == k - (p + 1) {
      events, t := [], s;
    } else {
      var m := EmptyOne(s, p, k, i);
      var rest;
      rest, t := EmptyAll(m, p, k, i + 1);
      RunsCompose(s, [DrainFront], m, rest, t);
      events := [DrainFront] + rest;
    }
  }

  lemma LastAckCovers(w: SendWindow, sent: seq<Block>)
    requires SendOk(w, sent) && w.size > 0 && |sent| + WINDOW < 0x1_0000_0000
    ensures SendSized(w) && Acked(w, |sent| - 1).size == 0
  {
    AckAdvances(w, sent, |sent|, |sent| - 1);
  }

  /** The last acknowledgement empties the window. */
  lemma Finish(s: Sys, p: nat, k: nat) returns (events: seq<Event>, t: Sys)
    requires k >= p + 2 && Emptying(s, p, k, k - (p + 1)) && k + WINDOW < 0x1_0000_0000
    ensures Runs(s, events, t) && Round(events) && AllDone(s, t)
  {
    var w, x := s.receiver.window, s.sender;
    LastAckCovers(x.window, x.sent);
    hide SenderOk, Acked, AckCount;
    assert SlotOf(w, 0) == (if k - (p + 1) < WINDOW then k - (p + 1) else 0);
    var m := Next(s, SendAck);
    t := Next(m, ReceiveAck(k - 1));
    events := [SendAck, ReceiveAck(k - 1)];
    assert events[1..] == [ReceiveAck(k - 1)] && [ReceiveAck(k - 1)][1..] == [];
    assert Runs(t, [], t) && Runs(m, [ReceiveAck(k - 1)], t);
    assert Payloads(t.receiver.delivered) == t.sender.sent;
  }

  lemma FromRefilling(s: Sys, p: nat, k: nat) returns (events: seq<Event>, t: Sys)
    requires k >= p + 2 && Refilling(s, p, k, k - (p + 1)) && k + WINDOW < 0x1_0000_0000
    ensures Runs(s, events, t) && Round(events) && AllDone(s, t)
  {
    hide Refilling, Emptying, Next, HandedUpRight, Payloads;
    var e1, a := Refill(s, p, k, k - (p + 1));
    var e2, b := FrontArrives(a, p, k);
    var e3, c := EmptyAll(b, p, k, 0);
    var e4;
    e4, t := Finish(c, p, k);
    RunsCompose(s, e1, a, e2, b);
    RunsCompose(s, e1 + e2, b, e3, c);
    RunsCompose(s, e1 + e2 + e3, c, e4, t);
    events := e1 + e2 + e3 + e4;
  }

  // ---- The whole round ----

  /** The acknowledgement of packet `p` arrives. */
  lemma RoomMade(s: Sys, p: nat) returns (t: Sys)
    requires Sized(s) && SenderOk(s.sender) && s.sender.state.WaitOnRead? && s.sender.window.size > 0
    requires Base(s.sender.window, s.sender.sent) <= p && p + 2 <= |s.sender.sent| && p in s.acks
    requires !s.sender.signalDue
    ensures Enabled(s, ReceiveAck(p)) && t == Next(s, ReceiveAck(p)) && Sized(t)
    ensures t == s.(sender := s.sender.(window := t.sender.window, signalDue := true))
    ensures SenderOk(t.sender) && t.sender.window.size > 0 && Base(t.sender.window, t.sender.sent) == p + 1
  {
    t := Next(s, ReceiveAck(p));
    AckCountExact(s.sender.window, s.sender.sent, p + 1, p);
    AdvanceOk(s.sender.window, s.sender.sent, p + 1 - Base(s.sender.window, s.sender.sent));
  }

  /** The writer is signalled and asks whether the window is full. */
  lemma Woken(s: Sys) returns (t: Sys)
    requires Sized(s) && SenderOk(s.sender) && s.sender.state.WaitOnRead? && s.sender.window.size > 0
    requires s.sender.signalDue
    ensures Runs(s, [Signal, WaitOver(false), WriterStep], t) && Sized(t) && SenderOk(t.sender)
    ensures t == s.(sender := s.sender.(state := IsWindowFullQ, signalDue := false, hasWaited := true))
  {
    var m := Next(s, Signal);
    var n := Next(m, WaitOver(false));
    t := Next(n, WriterStep);
    var three := [Signal, WaitOver(false), WriterStep];
    assert three[1..] == [WaitOver(false), WriterStep];
    assert [WaitOver(false), WriterStep][1..] == [WriterStep] && [WriterStep][1..] == [];
    assert Runs(t, [], t) && Runs(n, [WriterStep], t) && Runs(m, [WaitOver(false), WriterStep], t);
  }

  /** `e` packets more are numbered and in the channel, and packet `p` no longer counts as outstanding. */
  ghost predicate MoreNumbered(s: Sys, t: Sys, p: nat, e: nat) {
    && t == s.(sender := t.sender, frames := t.frames) && s.sender.sent <= t.sender.sent && !t.sender.signalDue
    && Sized(t) && SenderOk(t.sender) && t.sender.window.size > 0 && Base(t.sender.window, t.sender.sent) <= p + 1
    && |t.sender.sent| == |s.sender.sent| + e && OnTheWire(t, p + 1, |t.sender.sent|)
  }

  /** The acknowledgement of packet `p` makes room, and the writer numbers `e` packets more. */
  lemma MakeRoom(s: Sys, p: nat, e: nat) returns (events: seq<Event>, t: Sys)
    requires Sized(s) && SenderOk(s.sender) && s.sender.state.WaitOnRead? && s.sender.window.size > 0
    requires Base(s.sender.window, s.sender.sent) <= p && p + 2 <= |s.sender.sent| && p in s.acks
    requires |s.sender.sent| + e <= p + 7 && e <= |s.sender.queue| && |s.sender.sent| + e + WINDOW < 0x1_0000_0000
    requires OnTheWire(s, p + 1, |s.sender.sent|) && !s.sender.signalDue
    ensures Runs(s, events, t) && Round(events) && MoreNumbered(s, t, p, e)
  {
    hide SenderOk, Next;
    var a := RoomMade(s, p);
    var b := Woken(a);
    var rest;
    rest, t := NumberMore(b, e, p + 1);
    RunsCompose(a, [Signal, WaitOver(false), WriterStep], b, rest, t);
    events := [ReceiveAck(p)] + ([Signal, WaitOver(false), WriterStep] + rest);
    assert events[1..] == [Signal, WaitOver(false), WriterStep] + rest;
  }

  lemma AtWrapFacts(s: Sys, p: nat)
    requires Approaching(s, p) && s.receiver.window.head == 255
    ensures Sized(s) && SenderOk(s.sender) && Base(s.sender.window, s.sender.sent) <= p == s.receiver.window.counter
    ensures ReceiveOk(s.receiver.window, s.sender.sent) && |s.sender.sent| + WINDOW < 0x1_0000_0000
    ensures forall t: Sys | t.sender == s.sender && t.frames == s.frames :: OnTheWire(t, p + 1, |t.sender.sent|)
  {
  }

  /** From the wrap on: `e` more packets make the number one that can be handed up. */
  lemma FromWrap(s: Sys, p: nat, e: nat) returns (events: seq<Event>, t: Sys)
    requires Approaching(s, p) && s.receiver.handling && Occupied(s.receiver.window, 0) && s.receiver.window.head == 255
    requires s.sender.state.WaitOnRead? && s.sender.window.size > 0 && p + 2 <= |s.sender.sent|
    requires !s.sender.signalDue
    requires |s.sender.sent| + e <= p + 7 && e <= |s.sender.queue| && |s.sender.sent| + e + WINDOW < 0x1_0000_0000
    requires Deliverable(s.receiver.window, |s.sender.sent| + e)
    requires |s.user.queue| + WINDOW < QUEUE_CAPACITY
    ensures Runs(s, events, t) && Round(events) && AllDone(s, t)
  {
    hide SenderOk, ReceiveOk, HandedUpRight, Refilling, OnTheWire, Approaching, Runs, Payloads;
    AtWrapFacts(s, p);
    var k := |s.sender.sent| + e;
    if k < p + 7 { StopFree(s.receiver.window, s.sender.sent, k); }
    var a := CrossWrap(s, p);
    WrapMoves(s.receiver.window);
    var more, b := MakeRoom(a, p, e);
    HandedUpStill(a, b);
    RefillStarts(b, p, k);
    var rest;
    rest, t := FromRefilling(b, p, k);
    RunsCompose(s, [DrainFront, SendAck], a, more, b);
    RunsCompose(s, [DrainFront, SendAck] + more, b, rest, t);
    events := [DrainFront, SendAck] + more + rest;
  }

  ghost predicate CompletedBy(s: Sys, events: seq<Event>, t: Sys) {
    Runs(s, events, t) && NoData(events) && AllDone(s, t)
  }

  /** Some number of packets, reached by numbering none or some of those queued, can be handed up. */
  ghost predicate CanDeliver(s: Sys)
    requires ReceiveSized(s.receiver.window)
  {
    exists k :: |s.sender.sent| <= k <= |s.sender.sent| + |s.sender.queue| && Deliverable(s.receiver.window, k)
  }

  /** At most two more packets are ever needed. */
  lemma FewMore(s: Sys) returns (e: nat)
    requires ProtocolInv(s) && CanDeliver(s) && |s.sender.sent| <= WrapAt(s.receiver.window) + 6
    ensures e <= |s.sender.queue| && e <= 2 && |s.sender.sent| + e <= WrapAt(s.receiver.window) + 7
    ensures Deliverable(s.receiver.window, |s.sender.sent| + e)
  {
    var w, n := s.receiver.window, |s.sender.sent|;
    var k :| n <= k <= n + |s.sender.queue| && Deliverable(w, k);
    e := if Deliverable(w, n) then 0 else if Deliverable(w, n + 1) then 1 else 2;
  }

  /** A frame beyond the wrap bounds everything else. */
  lemma WrapNear(s: Sys)
    requires ProtocolInv(s) && !NoWrap(s.receiver.window)
    ensures var p := WrapAt(s.receiver.window);
      s.receiver.window.counter <= p <= s.receiver.window.counter + 4 && p + 2 <= |s.sender.sent| <= p + 6
  {
    var w := s.receiver.window;
    var i :| 0 <= i < WINDOW && Occupied(w, i) && w.head + i > 255;
  }

  lemma ApproachStarts(s: Sys, p: nat)
    requires ProtocolInv(s) && !NoWrap(s.receiver.window) && WrapAt(s.receiver.window) == p && s.user.queue == []
    requires OnTheWire(s, Base(s.sender.window, s.sender.sent), |s.sender.sent|)
    ensures Approaching(s, p)
  {
    WrapNear(s);
  }

  /** Nothing is left to signal, and the user has read what has arrived. */
  ghost predicate RoundReady(s: Sys, t: Sys) {
    && t == s.(sender := t.sender, user := t.user) && t.user.queue == []
    && t.sender == s.sender.(state := t.sender.state, signalDue := false) && t.sender.state.WaitOnRead?
  }

  lemma ReadyForRound(s: Sys) returns (events: seq<Event>, t: Sys)
    requires Sized(s) && UserOk(s.user) && s.sender.state.WaitOnRead?
    ensures Steps(s, events, t) && Round(events) && RoundReady(s, t)
  {
    var m;
    events, m := SignalsWaiter(s);
    var rest;
    rest, t := UserEmpties(m);
    StepsCompose(s, events, m, rest, t);
    events := events + rest;
  }

  lemma SurvivesWrap(s: Sys) returns (events: seq<Event>, t: Sys)
    requires ProtocolInv(s) && UserOk(s.user) && s.sender.state.WaitOnRead? && s.sender.window.size > 0
    requires Base(s.sender.window, s.sender.sent) + 3 * WINDOW < 0x1_0000_0000
    requires CanDeliver(s) && !NoWrap(s.receiver.window)
    ensures CompletedBy(s, events, t)
  {
    hide ProtocolInv, Next, Beyond;
    InvFacts(s);
    var p := WrapAt(s.receiver.window);
    WrapNear(s);
    var e := FewMore(s);
    var e1, a := ReadyForRound(s);
    StepsKeep(s, e1, a);
    var e2, b := RetransmitsAll(a);
    StepsKeep(a, e2, b);
    ApproachStarts(b, p);
    var e3, c := ReachWrap(b, p);
    InvFacts(b);
    InvFacts(c);
    SameDeliverable(b.receiver.window, c.receiver.window, |s.sender.sent| + e);
    var e4;
    e4, t := FromWrap(c, p, e);
    StepsCompose(s, e1, a, e2, b);
    StepsCompose(s, e1 + e2, b, e3, c);
    StepsAreRuns(s, e1 + e2 + e3, c);
    RunsCompose(s, e1 + e2 + e3, c, e4, t);
    events := e1 + e2 + e3 + e4;
  }

  lemma SameDeliverable(w: ReceiveWindow, w': ReceiveWindow, k: nat)
    requires ReceiveSized(w) && ReceiveSized(w') && SameBeyond(w, w') && Deliverable(w, k)
    ensures Deliverable(w', k)
  {
  }

  /** Without such a number every round goes wrong, from any state of the writer. */
  lemma CannotDeliver(s: Sys, events: seq<Event>, t: Sys)
    requires ProtocolInv(s) && s.sender.window.size > 0 && !CanDeliver(s)
    requires Runs(s, events, t) && NoData(events)
    ensures !AllDone(s, t)
  {
    var w, n, last := s.receiver.window, |s.sender.sent|, |s.sender.sent| + |s.sender.queue|;
    var p := WrapAt(w);
    if Beyond(w, 3) {
      WrapMisplaces(s, p, events, t);
      assert w.counter + (255 - w.head + 3) == p + 3 < n;
    } else {
      assert !Deliverable(w, n);
      assert last >= n + 1 ==> !Deliverable(w, n + 1);
      assert last >= n + 2 ==> !Deliverable(w, n + 2);
      DoomedNeverDone(s, p, events, t, s);
    }
  }

  /** Main progress result: where the writer waits with unacknowledged packets, whatever the channel
      holds, some round without new data and without loss hands up every packet right and empties the
      window if and only if a deliverable number of packets can be reached. */
  lemma NeverStuckExact(s: Sys)
    requires ProtocolInv(s) && UserOk(s.user) && s.sender.state.WaitOnRead? && s.sender.window.size > 0
    requires Base(s.sender.window, s.sender.sent) + 3 * WINDOW < 0x1_0000_0000
    ensures (exists events, t :: CompletedBy(s, events, t)) <==> CanDeliver(s)
  {
    if CanDeliver(s) {
      if NoWrap(s.receiver.window) {
        var events, t := NeverStuck(s);
        StepsAreRuns(s, events, t);
        assert CompletedBy(s, events, t);
      } else {
        var events, t := SurvivesWrap(s);
        assert CompletedBy(s, events, t);
      }
    } else {
      forall events, t ensures !CompletedBy(s, events, t) {
        if CompletedBy(s, events, t) { CannotDeliver(s, events, t); }
      }
    }
  }
}
