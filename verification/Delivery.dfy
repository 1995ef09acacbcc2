/** Everything written can still be handed up: with nothing outstanding the writer takes up queued data,
    except when it waits for a signal that was given before anyone could hear it. */
module Delivery {
  import opened Prelude
  import opened Windows
  import opened Transport
  import opened Streams
  import opened Progress

  /** Pieces of runs in which the user writes nothing more. */
  ghost predicate NoWrite(events: seq<Event>) {
    forall e | e in events :: !e.Write?
  }

  /** The writer's wait never ends without a signal or a timeout. */
  ghost predicate Heard(events: seq<Event>) {
    forall e | e in events :: !e.SpuriousWake?
  }

  /** Nothing is outstanding, no signal is due, and the writer waits or is on its way to wait. */
  predicate Asleep(x: Sender) {
    && x.window.size == 0 && !x.signalDue
    && match x.state
       case EnterWait => true
       case WaitOnRead(signalled) => !signalled
       case Retransmit => true
       case RetransmitFromHead => true
       case RetransmitLoop(_) => true
       case _ => false
  }

  // ---- A sleeping writer sleeps on ----

  lemma AsleepStays(s: Sys, e: Event)
    requires ProtocolInv(s) && Asleep(s.sender) && Enabled(s, e) && !Fault(s, e) && !e.SpuriousWake?
    ensures Asleep(Next(s, e).sender) && Next(s, e).sender.sent == s.sender.sent
  {
  }

  /** Whatever happens short of a fault or a spurious wake-up, new data included, a sleeping writer
      never numbers another block. */
  lemma {:induction false} AsleepForEver(s: Sys, events: seq<Event>, t: Sys)
    requires ProtocolInv(s) && Asleep(s.sender) && Steps(s, events, t) && Heard(events)
    ensures Asleep(t.sender) && t.sender.sent == s.sender.sent
    decreases |events|
  {
    hide ProtocolInv, Next, Enabled, Fault, Asleep;
    if events != [] {
      assert events[0] in events && forall e | e in events[1..] :: e in events;
      AsleepStays(s, events[0]);
      StepExact(s, events[0]);
      AsleepForEver(Next(s, events[0]), events[1..], t);
    }
  }

  /** The writer falls asleep in three ways: it decides to wait with nothing outstanding and nothing
      queued, a signal is given while nobody waits, or a timeout overtakes a signal. */
  lemma FallsAsleepExactly(s: Sys, e: Event)
    requires ProtocolInv(s) && !Asleep(s.sender) && Enabled(s, e) && !Fault(s, e)
    ensures var x := s.sender;
      Asleep(Next(s, e).sender) <==>
        x.window.size == 0
        && (|| (e.WriterStep? && x.state.IsWindowFullQ? && x.queue == [] && !x.signalDue)
            || (e.Signal? && !x.state.WaitOnRead? && Asleep(x.(signalDue := false)))
            || (e == WaitOver(true) && !x.signalDue))
  {
  }

  // ---- Once the writer has waited ----

  /** With nothing outstanding, a writer that has waited before is up for data or has a signal coming. */
  predicate Attentive(x: Sender) {
    && x.hasWaited
    && (x.window.size == 0 && !x.signalDue ==>
          match x.state
          case WindowEmptyQ => true
          case BlockOnQueue => true
          case SendPacket => true
          case WaitOnRead(signalled) => signalled
          case _ => false)
  }

  /** A timeout ends the wait although the signal was given. */
  predicate Overtaken(s: Sys, e: Event) {
    e == WaitOver(true) && s.sender.state == WaitOnRead(true)
  }

  lemma StaysAttentive(s: Sys, e: Event)
    requires ProtocolInv(s) && Attentive(s.sender) && Enabled(s, e) && !Fault(s, e) && !Overtaken(s, e)
    ensures Attentive(Next(s, e).sender) && !Asleep(Next(s, e).sender)
  {
  }

  /** Once attentive, the writer never again sleeps on data in a fault-free run, as long as no timeout
      overtakes a signal. */
  lemma {:induction false} AttentiveOn(events: seq<Event>, states: seq<Sys>, i: nat, j: nat)
    requires IsRun(events, states) && i <= j < |states| && Attentive(states[i].sender)
    requires forall k | 0 <= k < |events| :: !Fault(states[k], events[k])
    requires forall k | i <= k < j :: !Overtaken(states[k], events[k])
    ensures Attentive(states[j].sender) && !Asleep(states[j].sender)
    decreases j
  {
    hide ProtocolInv, Next, Enabled, Fault, Attentive;
    if i < j {
      AttentiveOn(events, states, i, j - 1);
      RunExact(events, states);
      assert ProtocolInv(states[j - 1]);
      StaysAttentive(states[j - 1], events[j - 1]);
    } else {
      AttentiveAwake(states[i].sender);
    }
  }

  lemma AttentiveAwake(x: Sender)
    requires Attentive(x)
    ensures !Asleep(x)
  {
  }

  /** A wait that a signal ends, or that ends with packets outstanding, makes the writer attentive. */
  lemma BecomesAttentive(s: Sys, e: Event)
    requires ProtocolInv(s) && Enabled(s, e) && (e.WaitOver? || e.SpuriousWake?)
    ensures Attentive(Next(s, e).sender) <==> !(e == WaitOver(true) && s.sender.window.size == 0 && !s.sender.signalDue)
  {
  }

  /** A writer that finds its window empty takes up the next block before it ever waits again. */
  predicate Ready(x: Sender) {
    x.window.size == 0 && (x.state.WindowEmptyQ? || x.state.BlockOnQueue? || x.state.SendPacket?)
  }

  lemma ReadyStays(s: Sys, e: Event)
    requires ProtocolInv(s) && Ready(s.sender) && Enabled(s, e) && !Fault(s, e)
    ensures var y := Next(s, e).sender;
      if s.sender.state.SendPacket? && e.WriterStep? then y.sent == s.sender.sent + [s.sender.queue[0]]
      else Ready(y) && y.sent == s.sender.sent
  {
  }

  lemma StepSends(s: Sys, e: Event)
    requires Enabled(s, e)
    ensures s.sender.sent <= Next(s, e).sender.sent
  {
  }

  lemma {:induction false} ReadyUntilSent(s: Sys, events: seq<Event>, t: Sys)
    requires ProtocolInv(s) && Ready(s.sender) && Steps(s, events, t)
    ensures (Ready(t.sender) && t.sender.sent == s.sender.sent) || |t.sender.sent| > |s.sender.sent|
    decreases |events|
  {
    hide ProtocolInv, Next, Enabled, Fault, Ready;
    if events != [] {
      var m := Next(s, events[0]);
      ReadyStays(s, events[0]);
      StepExact(s, events[0]);
      if |m.sender.sent| > |s.sender.sent| {
        SentGrows(m, events[1..], t);
      } else {
        ReadyUntilSent(m, events[1..], t);
      }
    }
  }

  lemma {:induction false} SentGrows(s: Sys, events: seq<Event>, t: Sys)
    requires Steps(s, events, t)
    ensures s.sender.sent <= t.sender.sent
    decreases |events|
  {
    hide Next, Enabled, Fault;
    if events != [] {
      StepSends(s, events[0]);
      SentGrows(Next(s, events[0]), events[1..], t);
    }
  }

  // ---- From an empty window to the next packet ----

  /** How far a writer with an empty window and queued data is from its next packet. */
  function ToSend(x: Sender): nat {
    match x.state
    case SendPacket => 0
    case BlockOnQueue => 1
    case IsWindowFullQ => 1
    case WindowEmptyQ => 2
    case Transmit(_) => 2
    case WaitOnRead(signalled) => if signalled then 3 else 4
    case EnterWait => 5
    case RetransmitLoop(_) => 6 + SweepDistance(x)
    case RetransmitFromHead => 12
    case Retransmit => 6
  }

  /** The steps towards the next packet touch neither the blocks nor the receiving side. */
  ghost predicate OnlyWriter(s: Sys, t: Sys) {
    && t == s.(sender := t.sender, frames := t.frames)
    && t.sender.window == s.sender.window && t.sender.sent == s.sender.sent
    && t.sender.queue == s.sender.queue && t.sender.pending == s.sender.pending && t.sender.written == s.sender.written
  }

  function Approach(x: Sender): Event {
    if !x.state.WaitOnRead? then WriterStep
    else if x.state.signalled then WaitOver(false)
    else Signal
  }

  lemma Approaches(s: Sys)
    requires ProtocolInv(s) && s.sender.window.size == 0 && s.sender.queue != [] && !Asleep(s.sender)
    requires !s.sender.state.SendPacket?
    ensures var e := Approach(s.sender);
      Enabled(s, e) && !Fault(s, e) && ProtocolInv(Next(s, e)) && OnlyWriter(s, Next(s, e))
      && !Asleep(Next(s, e).sender) && ToSend(Next(s, e).sender) < ToSend(s.sender)
  {
    hide ProtocolInv, Acked, AckCount, Put;
    InvFacts(s);
    StepExact(s, Approach(s.sender));
    if s.sender.state.RetransmitLoop? { LoopNearer(s.sender); }
  }

  lemma LoopNearer(x: Sender)
    requires SendSized(x.window) && x.state.RetransmitLoop? && x.state.slot < WINDOW
    ensures WriterNext(x).0 == x.(state := WriterNext(x).0.state) && ToSend(WriterNext(x).0) < ToSend(x)
  {
    if (x.state.slot + 1) % WINDOW != x.window.tail {
      SweepAdvances(x.window.tail, x.state.slot);
    }
  }

  lemma {:induction false} ComesToSend(s: Sys) returns (events: seq<Event>, t: Sys)
    requires ProtocolInv(s) && s.sender.window.size == 0 && s.sender.queue != [] && !Asleep(s.sender)
    ensures Steps(s, events, t) && Round(events)
    ensures ProtocolInv(t) && OnlyWriter(s, t) && t.sender.state.SendPacket?
    decreases ToSend(s.sender)
  {
    hide ProtocolInv, Asleep, Next, Enabled, Fault;
    if s.sender.state.SendPacket? {
      events, t := [], s;
    } else {
      var e := Approach(s.sender);
      Approaches(s);
      events, t := ComesToSend(Next(s, e));
      FirstStep(s, e, events, t);
      events := [e] + events;
    }
  }

  /** All blocks, numbered or not, in order; only a write adds to them. */
  function Blocks(x: Sender): seq<Block> {
    x.sent + x.queue + x.pending
  }

  ghost predicate SmallEnough(x: Sender) {
    |Blocks(x)| + 2 * WINDOW < 0x1_0000_0000
  }

  /** The first block not yet numbered has its number, and nothing else has happened to the blocks. */
  ghost predicate NextNumbered(s: Sys, t: Sys) {
    && t == s.(sender := t.sender, frames := t.frames) && t.sender.window.size == 1
    && Blocks(t.sender) == Blocks(s.sender) && t.sender.written == s.sender.written
    && |t.sender.sent| == |s.sender.sent| + 1
  }

  /** That block is queued. */
  ghost predicate NextQueued(s: Sys, t: Sys) {
    && t == s.(sender := t.sender) && t.sender.queue != []
    && t.sender.window == s.sender.window && t.sender.sent == s.sender.sent
    && Blocks(t.sender) == Blocks(s.sender) && t.sender.written == s.sender.written
  }

  /** With an empty window the first of the blocks not yet numbered gets its number. */
  lemma NumbersNext(s: Sys) returns (events: seq<Event>, t: Sys)
    requires ProtocolInv(s) && UserOk(s.user) && SmallEnough(s.sender) && !Asleep(s.sender)
    requires s.sender.window.size == 0 && s.sender.queue + s.sender.pending != []
    ensures Steps(s, events, t) && NoWrite(events) && Heard(events) && NextNumbered(s, t)
  {
    hide ProtocolInv, Asleep;
    var e1, a := Queued(s);
    var e2, b := ComesToSend(a);
    var e3;
    e3, t := Sends(b);
    StepsCompose(s, e1, a, e2, b);
    StepsCompose(s, e1 + e2, b, e3, t);
    events := e1 + e2 + e3;
  }

  lemma Queued(s: Sys) returns (events: seq<Event>, t: Sys)
    requires ProtocolInv(s) && !Asleep(s.sender) && s.sender.queue + s.sender.pending != []
    ensures Steps(s, events, t) && NoWrite(events) && Heard(events)
    ensures ProtocolInv(t) && !Asleep(t.sender) && NextQueued(s, t)
  {
    if s.sender.queue != [] {
      events, t := [], s;
    } else {
      OtherStepInv(s, Push);
      t := Next(s, Push);
      assert s.sender.pending == [s.sender.pending[0]] + s.sender.pending[1..];
      FirstStep(s, Push, [], t);
      events := [Push] + [];
    }
  }

  lemma Sends(s: Sys) returns (events: seq<Event>, t: Sys)
    requires ProtocolInv(s) && s.sender.window.size == 0 && s.sender.queue != [] && s.sender.state.SendPacket?
    requires SmallEnough(s.sender)
    ensures Steps(s, events, t) && NoWrite(events) && Heard(events) && NextNumbered(s, t)
  {
    t := Next(s, WriterStep);
    var x := s.sender;
    assert x.queue == [x.queue[0]] + x.queue[1..];
    FirstStep(s, WriterStep, [], t);
    events := [WriterStep] + [];
  }

  // ---- Everything ----

  /** Every block was numbered, handed up once and in order, and acknowledged. */
  ghost predicate AllHandedUp(s: Sys, t: Sys) {
    && t.sender.queue == [] && t.sender.pending == [] && AllDone(s, t)
    && Payloads(t.receiver.delivered) == Blocks(s.sender)
  }

  lemma {:induction false} StepsKeepUser(s: Sys, events: seq<Event>, t: Sys)
    requires UserOk(s.user) && Steps(s, events, t)
    ensures UserOk(t.user)
    decreases |events|
  {
    hide Fault, Next, Enabled, UserOk;
    if events != [] {
      UserKeeps(s, events[0]);
      StepsKeepUser(Next(s, events[0]), events[1..], t);
    }
  }

  /** With an empty window the receiver has taken everything, and nothing is buffered. */
  lemma NothingBuffered(s: Sys)
    requires ProtocolInv(s) && s.sender.window.size == 0
    ensures s.receiver.window.counter == |s.sender.sent| && NoWrap(s.receiver.window)
    ensures s.sender.queue == [] && s.sender.pending == [] ==> AllHandedUp(s, s)
  {
    DeliveredInOrder(s);
    assert s.sender.sent[..|s.sender.sent|] == s.sender.sent;
  }

  /** Everything written is handed up, whatever the writer was doing, unless it sleeps on queued data. */
  lemma {:induction false} DeliversAll(s: Sys) returns (events: seq<Event>, t: Sys)
    requires ProtocolInv(s) && UserOk(s.user) && SmallEnough(s.sender) && NoWrap(s.receiver.window)
    requires Asleep(s.sender) ==> s.sender.queue + s.sender.pending == []
    ensures Steps(s, events, t) && NoWrite(events) && Heard(events) && AllHandedUp(s, t)
    decreases |s.sender.queue| + |s.sender.pending|, s.sender.window.size
  {
    hide ProtocolInv, Next, Enabled, NoWrap;
    InvFacts(s);
    if s.sender.window.size > 0 {
      var round, m := NeverStuck(s);
      StepsKeep(s, round, m);
      StepsKeepUser(s, round, m);
      NothingBuffered(m);
      var rest;
      rest, t := DeliversAll(m);
      StepsCompose(s, round, m, rest, t);
      events := round + rest;
    } else if s.sender.queue + s.sender.pending != [] {
      var first, m := NumbersNext(s);
      StepsKeep(s, first, m);
      var rest;
      rest, t := DeliversAll(m);
      StepsCompose(s, first, m, rest, t);
      events := first + rest;
    } else {
      NothingBuffered(s);
      events, t := [], s;
    }
  }

  lemma StepBlocks(s: Sys, e: Event)
    requires Enabled(s, e) && !e.Write?
    ensures Blocks(Next(s, e).sender) == Blocks(s.sender) && Next(s, e).sender.written == s.sender.written
  {
    hide WriterNext;
    match e
    case WriterStep => QueueOrder(s.sender);
    case Push => SendKeepsWritten(s.sender.sent, s.sender.queue, s.sender.pending);
    case _ =>
  }

  lemma {:induction false} StepsKeepBlocks(s: Sys, events: seq<Event>, t: Sys)
    requires Steps(s, events, t) && NoWrite(events)
    ensures Blocks(t.sender) == Blocks(s.sender) && t.sender.written == s.sender.written
    decreases |events|
  {
    hide Next, Enabled, Fault, Blocks;
    if events != [] {
      assert events[0] in events && forall e | e in events[1..] :: e in events;
      StepBlocks(s, events[0]);
      StepsKeepBlocks(Next(s, events[0]), events[1..], t);
    }
  }

  lemma SleepsOnData(s: Sys, events: seq<Event>, t: Sys)
    requires ProtocolInv(s) && Asleep(s.sender) && s.sender.queue + s.sender.pending != []
    requires Steps(s, events, t) && NoWrite(events) && Heard(events)
    ensures t.sender.queue + t.sender.pending == s.sender.queue + s.sender.pending
  {
    hide ProtocolInv, Asleep;
    AsleepForEver(s, events, t);
    StepsKeepBlocks(s, events, t);
    var n := |s.sender.sent|;
    assert Blocks(s.sender)[n..] == s.sender.queue + s.sender.pending;
    assert Blocks(t.sender)[n..] == t.sender.queue + t.sender.pending;
  }

  ghost predicate DeliveredBy(s: Sys, events: seq<Event>, t: Sys) {
    Steps(s, events, t) && NoWrite(events) && AllHandedUp(s, t)
  }

  /** What was handed up in the end are the bytes written. */
  lemma AllBytes(s: Sys, events: seq<Event>, t: Sys)
    requires Accounted(s.sender) && DeliveredBy(s, events, t)
    ensures Flat(Payloads(t.receiver.delivered)) == t.sender.written == s.sender.written
  {
    StepsKeepBlocks(s, events, t);
  }

  /** Without spurious wake-ups: everything written can be handed up by a fault-free continuation if and
      only if no frame is buffered beyond the wrap and the writer does not sleep on data. */
  lemma DeliveryExact(s: Sys)
    requires ProtocolInv(s) && UserOk(s.user) && SmallEnough(s.sender)
    ensures (exists events, t :: DeliveredBy(s, events, t) && Heard(events))
       <==> NoWrap(s.receiver.window) && (Asleep(s.sender) ==> s.sender.queue + s.sender.pending == [])
  {
    hide ProtocolInv, NoWrap, Asleep;
    InvFacts(s);
    if NoWrap(s.receiver.window) && (Asleep(s.sender) ==> s.sender.queue + s.sender.pending == []) {
      var events, t := DeliversAll(s);
      assert DeliveredBy(s, events, t) && Heard(events);
    } else if exists events, t :: DeliveredBy(s, events, t) && Heard(events) {
      var events, t :| DeliveredBy(s, events, t) && Heard(events);
      if NoWrap(s.receiver.window) {
        SleepsOnData(s, events, t);
      } else {
        WrapBlocks(s, events, t);
      }
    }
  }

  // ---- Spurious wake-ups, which POSIX allows ----

  lemma {:induction false} ComesToWait(s: Sys) returns (events: seq<Event>, t: Sys)
    requires ProtocolInv(s) && Asleep(s.sender)
    ensures Steps(s, events, t) && NoWrite(events)
    ensures ProtocolInv(t) && OnlyWriter(s, t) && t.sender.state.WaitOnRead?
    decreases ToSend(s.sender)
  {
    hide ProtocolInv;
    InvFacts(s);
    if s.sender.state.WaitOnRead? {
      events, t := [], s;
    } else {
      WriterStepInv(s);
      if s.sender.state.RetransmitLoop? { LoopNearer(s.sender); }
      events, t := ComesToWait(Next(s, WriterStep));
      FirstStep(s, WriterStep, events, t);
      events := [WriterStep] + events;
    }
  }

  lemma WakesUp(s: Sys) returns (events: seq<Event>, t: Sys)
    requires ProtocolInv(s) && Asleep(s.sender)
    ensures Steps(s, events, t) && NoWrite(events)
    ensures ProtocolInv(t) && OnlyWriter(s, t) && Ready(t.sender) && !Asleep(t.sender)
  {
    hide ProtocolInv;
    var m;
    events, m := ComesToWait(s);
    InvFacts(m);
    OtherStepInv(m, SpuriousWake);
    t := Next(m, SpuriousWake);
    FirstStep(m, SpuriousWake, [], t);
    StepsCompose(s, events, m, [SpuriousWake] + [], t);
    events := events + ([SpuriousWake] + []);
  }

  /** With spurious wake-ups: from every state of the writer, everything written can be handed up by a
      fault-free continuation if and only if no frame is buffered beyond the wrap. */
  lemma DeliveryWithWakes(s: Sys)
    requires ProtocolInv(s) && UserOk(s.user) && SmallEnough(s.sender)
    ensures (exists events, t :: DeliveredBy(s, events, t)) <==> NoWrap(s.receiver.window)
  {
    hide ProtocolInv, NoWrap, Asleep, Next, Enabled;
    InvFacts(s);
    if NoWrap(s.receiver.window) {
      if Asleep(s.sender) {
        var first, m := WakesUp(s);
        var rest, t := DeliversAll(m);
        StepsCompose(s, first, m, rest, t);
        assert DeliveredBy(s, first + rest, t);
      } else {
        var events, t := DeliversAll(s);
        assert DeliveredBy(s, events, t);
      }
    } else if exists events, t :: DeliveredBy(s, events, t) {
      var events, t :| DeliveredBy(s, events, t);
      WrapBlocks(s, events, t);
    }
  }

  // ---- In every state of a run ----

  lemma StepAccounts(s: Sys, e: Event)
    requires Accounted(s.sender) && Enabled(s, e)
    ensures Accounted(Next(s, e).sender)
  {
    if e.Write? {
      var x := s.sender;
      FlatAppend(x.sent + x.queue, Chunks(e.bytes));
      assert x.sent + x.queue + x.pending == x.sent + x.queue;
    } else {
      hide Flat;
      StepBlocks(s, e);
    }
  }

  lemma RunAccounts(events: seq<Event>, states: seq<Sys>)
    requires IsRun(events, states)
    ensures forall i | 0 <= i < |states| :: Accounted(states[i].sender) && UserOk(states[i].user)
  {
    hide Next, Enabled;
    var i := 0;
    while i < |events|
      invariant 0 <= i <= |events|
      invariant forall j | 0 <= j <= i :: Accounted(states[j].sender) && UserOk(states[j].user)
    {
      StepAccounts(states[i], events[i]);
      UserKeeps(states[i], events[i]);
      i := i + 1;
    }
  }

  /** `t` is a fault-free continuation, without further writes, in which every byte written so far was
      handed up, in order. */
  ghost predicate Completes(s: Sys, events: seq<Event>, t: Sys) {
    DeliveredBy(s, events, t) && Heard(events) && Flat(Payloads(t.receiver.delivered)) == s.sender.written
  }

  /** Main result about progress: from any state of a fault-free run, whatever the channel lost, every
      byte written so far can be handed up if and only if no frame is buffered beyond the wrap of the
      receive head and the writer does not sleep on data. */
  lemma RunDelivers(events: seq<Event>, states: seq<Sys>, i: nat)
    requires IsRun(events, states) && i < |states| && SmallEnough(states[i].sender)
    requires forall k | 0 <= k < |events| :: !Fault(states[k], events[k])
    ensures ReceiveSized(states[i].receiver.window)
    ensures var x := states[i].sender;
      (exists more, t :: Completes(states[i], more, t))
      <==> NoWrap(states[i].receiver.window) && (Asleep(x) ==> x.queue + x.pending == [])
  {
    hide ProtocolInv, NoWrap, Asleep, Flat, Payloads, Next, Enabled, Fault;
    var s := states[i];
    RunExact(events, states);
    assert ProtocolInv(s);
    InvFacts(s);
    RunAccounts(events, states);
    DeliveryExact(s);
    forall more, t | DeliveredBy(s, more, t) && Heard(more) ensures Completes(s, more, t) {
      AllBytes(s, more, t);
    }
    if more, t :| DeliveredBy(s, more, t) && Heard(more) {
      assert Completes(s, more, t);
    }
  }
}
