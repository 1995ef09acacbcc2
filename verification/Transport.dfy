/** The sliding-window transport as a step system: one sending socket, one receiving socket, and
    a channel that drops, duplicates and reorders. Every step is one the code takes between two
    points where another thread may run. */
module Transport {
  import opened Prelude
  import opened Windows

  const QUEUE_CAPACITY := 128
  const PACKET_SIZE := 4096

  // ---- Byte streams ----

  function Flat(blocks: seq<Block>): seq<Byte> {
    if blocks == [] then [] else blocks[0] + Flat(blocks[1..])
  }

  lemma {:induction false} FlatAppend(a: seq<Block>, b: seq<Block>)
    ensures Flat(a + b) == Flat(a) + Flat(b)
  {
    if a == [] {
      assert a + b == b;
    } else {
      FlatAppend(a[1..], b);
      assert (a + b)[1..] == a[1..] + b;
    }
  }

  /** gbn_socket_write's division of a buffer into blocks of at most 4096 bytes. */
  function Chunks(bytes: seq<Byte>): (blocks: seq<Block>)
    ensures Flat(blocks) == bytes
    ensures forall b | b in blocks :: 0 < |b| <= PACKET_SIZE
    ensures forall i | 0 <= i < |blocks| - 1 :: |blocks[i]| == PACKET_SIZE
  {
    if bytes == [] then []
    else if |bytes| <= PACKET_SIZE then
      assert Flat([bytes]) == bytes + Flat([bytes][1..]);
      [bytes]
    else [bytes[..PACKET_SIZE]] + Chunks(bytes[PACKET_SIZE..])
  }

  // ---- States ----

  /** The writer thread's states; the retransmission loop is split at each read of shared data. Before
      `WaitOnRead` the writer has decided to wait but cannot hear a signal yet; while it waits, it may
      have been signalled. */
  datatype WriterState =
    | WindowEmptyQ
    | BlockOnQueue
    | SendPacket
    | Transmit(frame: Frame)
    | IsWindowFullQ
    | EnterWait
    | WaitOnRead(signalled: bool)
    | Retransmit
    | RetransmitFromHead
    | RetransmitLoop(slot: nat)

  /** `pending` are the blocks of the running gbn_socket_write not yet queued; `written` and `sent`
      record everything passed to gbn_socket_write and every block given a sequence number.
      `signalDue` holds between an acknowledgement that moved the window and its signal to the writer.
      The writer never locks the mutex of the signal, but a wait that ends acquires it: once it
      `hasWaited`, the writer holds that mutex whenever it is not waiting. */
  datatype Sender = Sender(
    window: SendWindow,
    nextSeq: nat,
    state: WriterState,
    queue: seq<Block>,
    pending: seq<Block>,
    written: seq<Byte>,
    sent: seq<Block>,
    signalDue: bool,
    hasWaited: bool)

  /** `handling` holds between storing a data frame and acknowledging it; `delivered` records the
      frames handed up. */
  datatype Receiver = Receiver(window: ReceiveWindow, handling: bool, delivered: seq<Frame>)

  datatype ReadState = Idle | Reading(len: nat, got: seq<Byte>)

  /** The reading user: the queue of blocks, the offset into its first block, and all bytes that
      gbn_socket_read has returned. */
  datatype User = User(queue: seq<Block>, offset: nat, state: ReadState, returned: seq<Byte>)

  /** The channel only grows: a frame or ack in it may arrive any number of times, or never. */
  datatype Sys = Sys(sender: Sender, frames: set<Frame>, acks: set<int>, receiver: Receiver, user: User)

  datatype Event =
    | Write(bytes: seq<Byte>)
    | Push
    | WriterStep
    | WaitOver(timedOut: bool)
    | SpuriousWake
    | ReceiveAck(ack: int)
    | Signal
    | ReceiveFrame(frame: Frame)
    | DrainFront
    | SendAck
    | ReadBegin(len: nat)
    | ReadMore

  const NO_WINDOW := SendWindow(0, 0, 0, [BLANK, BLANK, BLANK, BLANK, BLANK, BLANK])
  const NO_FRAMES := ReceiveWindow(0, 0, [BLANK, BLANK, BLANK, BLANK, BLANK, BLANK])

  const INIT := Sys(
    Sender(NO_WINDOW, 0, WindowEmptyQ, [], [], [], [], false, false), {}, {},
    Receiver(NO_FRAMES, false, []), User([], 0, Idle, []))

  // ---- Steps ----

  ghost predicate Sized(s: Sys) {
    && SendSized(s.sender.window) && ReceiveSized(s.receiver.window)
    && (s.sender.state.RetransmitLoop? ==> s.sender.state.slot < WINDOW)
  }

  /** Sequence numbers are followed below 2^32 - 6: the code's comparisons are not modular. */
  ghost predicate WriterEnabled(x: Sender) {
    match x.state
    case BlockOnQueue => x.queue != []
    case SendPacket => x.queue != [] && x.nextSeq + 1 + WINDOW < 0x1_0000_0000
    case WaitOnRead(_) => false
    case _ => true
  }

  /** The reader thread signals before it reads from the socket again, and needs the mutex for it. */
  ghost predicate Enabled(s: Sys, e: Event) {
    && Sized(s)
    && match e
       case Write(bytes) => s.sender.pending == []
       case Push => s.sender.pending != [] && |s.sender.queue| < QUEUE_CAPACITY
       case WriterStep => WriterEnabled(s.sender)
       case WaitOver(timedOut) => s.sender.state.WaitOnRead? && (timedOut || s.sender.state.signalled)
       case SpuriousWake => s.sender.state.WaitOnRead?
       case ReceiveAck(a) => a in s.acks && !s.sender.signalDue
       case Signal => s.sender.signalDue && (s.sender.state.WaitOnRead? || !s.sender.hasWaited)
       case ReceiveFrame(f) => f in s.frames && !s.receiver.handling
       case DrainFront => s.receiver.handling && Occupied(s.receiver.window, 0) && |s.user.queue| < QUEUE_CAPACITY
       case SendAck => s.receiver.handling && !Occupied(s.receiver.window, 0)
       case ReadBegin(len) => s.user.state.Idle? && s.user.queue != [] && s.user.offset <= |s.user.queue[0]|
       case ReadMore => s.user.state.Reading? && s.user.queue != [] && |s.user.state.got| < s.user.state.len
  }

  /** The writer state machine; the second result is the frame put on the wire, if any. */
  function WriterNext(x: Sender): (Sender, Option<Frame>)
    requires SendSized(x.window)
    requires x.state.SendPacket? ==> x.queue != []
    requires x.state.RetransmitLoop? ==> x.state.slot < WINDOW
  {
    match x.state
    case WindowEmptyQ => (x.(state := if x.window.size == 0 then BlockOnQueue else IsWindowFullQ), None)
    case BlockOnQueue => (x.(state := SendPacket), None)
    case SendPacket =>
      var f := Frame(Data, x.nextSeq, x.queue[0]);
      (x.(window := Put(x.window, f), nextSeq := U32(x.nextSeq + 1), state := Transmit(f),
          queue := x.queue[1..], sent := x.sent + [x.queue[0]]), None)
    case Transmit(f) => (x.(state := IsWindowFullQ), Some(f))
    case IsWindowFullQ =>
      (x.(state := if x.window.size < WINDOW && x.queue != [] then SendPacket else EnterWait), None)
    case EnterWait => (x.(state := WaitOnRead(false)), None)
    case WaitOnRead(_) => (x, None)
    case Retransmit => (x.(state := if x.window.size == 0 then EnterWait else RetransmitFromHead), None)
    case RetransmitFromHead => (x.(state := RetransmitLoop(x.window.head)), None)
    case RetransmitLoop(i) =>
      var j := (i + 1) % WINDOW;
      (x.(state := if j == x.window.tail then EnterWait else RetransmitLoop(j)), Some(x.window.ring[i]))
  }

  /** The first copy of gbn_socket_read: it starts at the block's first byte, whatever the offset. */
  function ReadFirst(u: User, len: nat): User
    requires u.queue != [] && u.offset <= |u.queue[0]|
  {
    var n := FirstLength(u, len);
    var copied := u.queue[0][..n];
    if n != len then User(u.queue[1..], 0, Reading(len, copied), u.returned)
    else User(u.queue, u.offset + n, Idle, u.returned + copied)
  }

  function FirstLength(u: User, len: nat): nat
    requires u.queue != [] && u.offset <= |u.queue[0]|
  {
    if len < |u.queue[0]| - u.offset then len else |u.queue[0]| - u.offset
  }

  /** One turn of gbn_socket_read's loop. */
  function ReadNext(u: User): User
    requires u.queue != [] && u.state.Reading? && |u.state.got| < u.state.len
  {
    var len, got, b := u.state.len, u.state.got, u.queue[0];
    if |b| <= len - |got| then
      if |got + b| == len then User(u.queue[1..], u.offset, Idle, u.returned + got + b)
      else User(u.queue[1..], u.offset, Reading(len, got + b), u.returned)
    else User(u.queue, len - |got|, Idle, u.returned + got + b[..len - |got|])
  }

  function Next(s: Sys, e: Event): Sys
    requires Enabled(s, e)
  {
    match e
    case Write(bytes) =>
      s.(sender := s.sender.(pending := Chunks(bytes), written := s.sender.written + bytes))
    case Push =>
      s.(sender := s.sender.(queue := s.sender.queue + [s.sender.pending[0]], pending := s.sender.pending[1..]))
    case WriterStep =>
      var (x, wire) := WriterNext(s.sender);
      s.(sender := x, frames := s.frames + (if wire.Some? then {wire.value} else {}))
    case WaitOver(timedOut) =>
      s.(sender := s.sender.(state := if timedOut then Retransmit else WindowEmptyQ, hasWaited := true))
    case SpuriousWake =>
      s.(sender := s.sender.(state := WindowEmptyQ, hasWaited := true))
    case ReceiveAck(a) =>
      var w := s.sender.window;
      s.(sender := s.sender.(window := Acked(w, a), signalDue := AckCount(w, a) != -1))
    case Signal =>
      var state := if s.sender.state.WaitOnRead? then WaitOnRead(true) else s.sender.state;
      s.(sender := s.sender.(state := state, signalDue := false))
    case ReceiveFrame(f) =>
      if f.kind.Uninitialized? then s
      else s.(receiver := s.receiver.(window := Accept(s.receiver.window, f), handling := true))
    case DrainFront =>
      var w := s.receiver.window;
      s.(receiver := s.receiver.(window := DrainOne(w), delivered := s.receiver.delivered + [Front(w)]),
         user := s.user.(queue := s.user.queue + [Front(w).payload]))
    case SendAck =>
      s.(receiver := s.receiver.(handling := false), acks := s.acks + {U32(s.receiver.window.counter - 1)})
    case ReadBegin(len) => s.(user := ReadFirst(s.user, len))
    case ReadMore => s.(user := ReadNext(s.user))
  }

  ghost predicate IsRun(events: seq<Event>, states: seq<Sys>) {
    && |states| == |events| + 1
    && states[0] == INIT
    && forall i | 0 <= i < |events| :: Enabled(states[i], events[i]) && states[i + 1] == Next(states[i], events[i])
  }

  // ---- Where the code departs from its purpose ----

  /** A valid-looking acknowledgement reaches an empty window. */
  ghost predicate AckFault(s: Sys, e: Event)
    requires Sized(s)
  {
    e.ReceiveAck? && s.sender.window.size == 0 && AckCount(s.sender.window, e.ack) != -1
  }

  /** The receive head wraps in front of buffered frames. */
  ghost predicate WrapFault(s: Sys, e: Event)
    requires Sized(s)
  {
    e.DrainFront? && WrapsLoaded(s.receiver.window)
  }

  /** The guards that decide whether the window protocol survives a step. */
  ghost predicate Fault(s: Sys, e: Event)
    requires Sized(s)
  {
    AckFault(s, e) || WrapFault(s, e)
  }

  /** A read starts inside a block that an earlier read left unfinished. */
  ghost predicate ReadFault(s: Sys, e: Event)
    requires Enabled(s, e)
  {
    e.ReadBegin? && s.user.offset != 0 && FirstLength(s.user, e.len) != 0
  }

  // ---- What is transferred: right under any acknowledgements ----

  /** A frame on the wire is one that was really sent, or a blank slot that receivers ignore. */
  ghost predicate Genuine(f: Frame, sent: seq<Block>) {
    f == BLANK || (f.seqNum < |sent| && f == DataFrame(sent, f.seqNum))
  }

  ghost predicate RingSender(x: Sender) {
    && RingOk(x.window, x.sent)
    && x.nextSeq == |x.sent| && |x.sent| + WINDOW < 0x1_0000_0000
    && match x.state
       case Transmit(f) => f.seqNum < |x.sent| && f == DataFrame(x.sent, f.seqNum)
       case RetransmitLoop(i) => i < WINDOW
       case _ => true
  }

  ghost predicate FramesOk(s: Sys) {
    forall f | f in s.frames :: Genuine(f, s.sender.sent)
  }

  ghost predicate ReceiverOk(s: Sys) {
    && ReceiveOk(s.receiver.window, s.sender.sent)
    && (!s.receiver.handling ==> !Occupied(s.receiver.window, 0))
    && |s.receiver.delivered| == s.receiver.window.counter
    && (forall i | 0 <= i < |s.receiver.delivered| :: s.receiver.delivered[i] == DataFrame(s.sender.sent, i))
  }

  /** Every frame in flight is genuine, both rings hold exactly what they should, and what was
      handed up are the first packets in order. Acknowledgements play no part. */
  ghost predicate TransferInv(s: Sys) {
    RingSender(s.sender) && FramesOk(s) && ReceiverOk(s)
  }

  // ---- The window protocol's invariant ----

  ghost predicate SenderOk(x: Sender) {
    && RingSender(x) && SendOk(x.window, x.sent)
    && match x.state
       case BlockOnQueue => x.window.size == 0
       case SendPacket => x.window.size < WINDOW && x.queue != []
       case _ => true
  }

  ghost predicate AcksOk(s: Sys) {
    forall a | a in s.acks :: 0 <= a < s.receiver.window.counter || a == 0xFFFF_FFFF
  }

  /** In addition base <= counter <= next <= base + 6, and every ack in flight is below the counter. */
  ghost predicate ProtocolInv(s: Sys) {
    && TransferInv(s)
    && SenderOk(s.sender)
    && AcksOk(s)
    && Base(s.sender.window, s.sender.sent) <= s.receiver.window.counter
  }

  /** Whatever slot the retransmission loop reads, however acks moved the head meanwhile, it holds
      a frame that was sent or a blank one. */
  lemma RingGenuine(w: SendWindow, sent: seq<Block>, i: nat)
    requires RingOk(w, sent) && i < WINDOW
    ensures Genuine(w.ring[i], sent)
  {
    var n := |sent|;
    if n > i {
      var s := LatestIn(n, i);
      assert w.ring[s % WINDOW] == DataFrame(sent, s);
    }
  }

  /** The last of `n` packets that went to slot `i`. */
  lemma LatestIn(n: nat, i: nat) returns (s: nat)
    requires i < WINDOW && i < n
    ensures s < n <= s + WINDOW && s % WINDOW == i
  {
    s := n - 1 - (n - 1 - i) % WINDOW;
  }

  /** The writer puts only genuine or blank frames on the wire and keeps the ring's contents right,
      whatever the window's head and size have become. */
  lemma WriterCarries(x: Sender)
    requires RingSender(x) && WriterEnabled(x)
    ensures var (x', wire) := WriterNext(x);
      && RingSender(x')
      && x.sent <= x'.sent
      && (wire.Some? ==> Genuine(wire.value, x'.sent))
  {
    match x.state {
      case SendPacket => RingPut(x.window, x.sent, x.queue[0]);
      case RetransmitLoop(i) => RingGenuine(x.window, x.sent, i);
      case _ =>
    }
  }

  /** The writer never sends into a full window, and its own steps acknowledge nothing. */
  lemma WriterKeeps(x: Sender)
    requires SenderOk(x) && WriterEnabled(x)
    ensures var (x', wire) := WriterNext(x);
      && SenderOk(x')
      && Base(x'.window, x'.sent) == Base(x.window, x.sent)
      && x.sent <= x'.sent
      && (wire.Some? ==> Genuine(wire.value, x'.sent))
  {
    WriterCarries(x);
    if x.state.SendPacket? {
      PutOk(x.window, x.sent, x.queue[0]);
    }
  }

  lemma GenuineLater(f: Frame, a: seq<Block>, b: seq<Block>)
    requires Genuine(f, a) && a <= b
    ensures Genuine(f, b)
  {
  }

  lemma ReceiveLater(w: ReceiveWindow, a: seq<Block>, b: seq<Block>)
    requires ReceiveOk(w, a) && a <= b
    ensures ReceiveOk(w, b)
  {
  }

  // ---- One step ----

  lemma WriterFrames(s: Sys)
    requires RingSender(s.sender) && FramesOk(s) && Enabled(s, WriterStep)
    ensures FramesOk(Next(s, WriterStep))
  {
    var s' := Next(s, WriterStep);
    WriterCarries(s.sender);
    forall f | f in s'.frames ensures Genuine(f, s'.sender.sent) {
      if f in s.frames { GenuineLater(f, s.sender.sent, s'.sender.sent); }
    }
  }

  lemma WriterTransfers(s: Sys)
    requires TransferInv(s) && Enabled(s, WriterStep)
    ensures TransferInv(Next(s, WriterStep))
  {
    var s' := Next(s, WriterStep);
    WriterCarries(s.sender);
    WriterFrames(s);
    ReceiveLater(s.receiver.window, s.sender.sent, s'.sender.sent);
  }

  lemma ReceiveAckTransfers(s: Sys, a: int)
    requires TransferInv(s) && Enabled(s, ReceiveAck(a))
    ensures TransferInv(Next(s, ReceiveAck(a)))
  {
    RingAcked(s.sender.window, s.sender.sent, a);
  }

  lemma ReceiveFrameTransfers(s: Sys, f: Frame)
    requires TransferInv(s) && Enabled(s, ReceiveFrame(f))
    ensures TransferInv(Next(s, ReceiveFrame(f)))
  {
    assert Genuine(f, s.sender.sent);
    if f.kind.Data? {
      AcceptOk(s.receiver.window, s.sender.sent, f);
    }
  }

  lemma DrainFrontTransfers(s: Sys)
    requires TransferInv(s) && Enabled(s, DrainFront)
    ensures TransferInv(Next(s, DrainFront)) <==> !WrapFault(s, DrainFront)
  {
    DrainOneExact(s.receiver.window, s.sender.sent);
  }

  /** Every step of the code, misread acknowledgements included, transfers only right packets,
      exactly when the receive head does not wrap in front of buffered frames. */
  lemma StepTransfers(s: Sys, e: Event)
    requires TransferInv(s) && Enabled(s, e)
    ensures TransferInv(Next(s, e)) <==> !WrapFault(s, e)
  {
    match e
    case WriterStep => WriterTransfers(s);
    case ReceiveAck(a) => ReceiveAckTransfers(s, a);
    case ReceiveFrame(f) => ReceiveFrameTransfers(s, f);
    case DrainFront => DrainFrontTransfers(s);
    case _ =>
  }

  lemma WriterStepInv(s: Sys)
    requires ProtocolInv(s) && Enabled(s, WriterStep)
    ensures ProtocolInv(Next(s, WriterStep))
  {
    WriterTransfers(s);
    WriterKeeps(s.sender);
  }

  lemma ReceiveAckExact(s: Sys, a: int)
    requires ProtocolInv(s) && Enabled(s, ReceiveAck(a))
    ensures ProtocolInv(Next(s, ReceiveAck(a))) <==> !Fault(s, ReceiveAck(a))
  {
    ReceiveAckTransfers(s, a);
    AckExact(s.sender.window, s.sender.sent, s.receiver.window.counter, a);
    var s' := Next(s, ReceiveAck(a));
    if !Fault(s, ReceiveAck(a)) {
      assert SendOk(s'.sender.window, s'.sender.sent);
      assert s'.sender.window.size <= s.sender.window.size;
    }
  }

  lemma ReceiveFrameInv(s: Sys, f: Frame)
    requires ProtocolInv(s) && Enabled(s, ReceiveFrame(f))
    ensures ProtocolInv(Next(s, ReceiveFrame(f)))
  {
    ReceiveFrameTransfers(s, f);
  }

  lemma DrainFrontExact(s: Sys)
    requires ProtocolInv(s) && Enabled(s, DrainFront)
    ensures ProtocolInv(Next(s, DrainFront)) <==> !Fault(s, DrainFront)
  {
    DrainFrontTransfers(s);
  }

  lemma SendAckInv(s: Sys)
    requires ProtocolInv(s) && Enabled(s, SendAck)
    ensures ProtocolInv(Next(s, SendAck))
  {
  }

  /** The steps of the users, the signal, and the end of a wait. */
  lemma OtherStepInv(s: Sys, e: Event)
    requires ProtocolInv(s) && Enabled(s, e)
    requires e.Write? || e.Push? || e.WaitOver? || e.SpuriousWake? || e.Signal? || e.ReadBegin? || e.ReadMore?
    ensures ProtocolInv(Next(s, e))
  {
  }

  /** Every step of the code keeps the invariant exactly when it is not one of the two faults. */
  lemma StepExact(s: Sys, e: Event)
    requires ProtocolInv(s) && Enabled(s, e)
    ensures ProtocolInv(Next(s, e)) <==> !Fault(s, e)
  {
    hide ProtocolInv;
    match e
    case WriterStep => WriterStepInv(s);
    case ReceiveAck(a) => ReceiveAckExact(s, a);
    case ReceiveFrame(f) => ReceiveFrameInv(s, f);
    case DrainFront => DrainFrontExact(s);
    case SendAck => SendAckInv(s);
    case _ => OtherStepInv(s, e);
  }

  lemma InitInv()
    ensures ProtocolInv(INIT)
  {
  }

  /** Over whole runs: only right packets are transferred, in every state, if and only if the
      receive head never wraps in front of buffered frames. */
  lemma RunTransfers(events: seq<Event>, states: seq<Sys>)
    requires IsRun(events, states)
    ensures (forall i | 0 <= i < |states| :: TransferInv(states[i]))
       <==> (forall i | 0 <= i < |events| :: !WrapFault(states[i], events[i]))
  {
    if forall i | 0 <= i < |states| :: TransferInv(states[i]) {
      forall i | 0 <= i < |events| ensures !WrapFault(states[i], events[i]) {
        assert TransferInv(states[i]) && TransferInv(states[i + 1]);
        StepTransfers(states[i], events[i]);
      }
    }
    if forall i | 0 <= i < |events| :: !WrapFault(states[i], events[i]) {
      InitInv();
      var i := 0;
      while i < |events|
        invariant 0 <= i <= |events|
        invariant forall j | 0 <= j <= i :: TransferInv(states[j])
      {
        assert !WrapFault(states[i], events[i]);
        StepTransfers(states[i], events[i]);
        i := i + 1;
      }
    }
  }

  /** Main safety result: the protocol's invariant holds in every state of a run if and only if no
      step of the run is a fault. */
  lemma RunExact(events: seq<Event>, states: seq<Sys>)
    requires IsRun(events, states)
    ensures (forall i | 0 <= i < |states| :: ProtocolInv(states[i]))
       <==> (forall i | 0 <= i < |events| :: !Fault(states[i], events[i]))
  {
    if forall i | 0 <= i < |states| :: ProtocolInv(states[i]) {
      forall i | 0 <= i < |events| ensures !Fault(states[i], events[i]) {
        assert ProtocolInv(states[i]) && ProtocolInv(states[i + 1]);
        StepExact(states[i], events[i]);
      }
    }
    if forall i | 0 <= i < |events| :: !Fault(states[i], events[i]) {
      InitInv();
      var i := 0;
      while i < |events|
        invariant 0 <= i <= |events|
        invariant forall j | 0 <= j <= i :: ProtocolInv(states[j])
      {
        assert !Fault(states[i], events[i]);
        StepExact(states[i], events[i]);
        i := i + 1;
      }
    }
  }
}
