/** The two six-slot rings of the transport, as values and as the mutable windows of gbn_socket.h. */
module Windows {
  import opened Prelude

  const WINDOW := 6

  type Byte = b: int | 0 <= b < 256
  type Block = seq<Byte>

  datatype Kind = Uninitialized | Data

  datatype Frame = Frame(kind: Kind, seqNum: nat, payload: Block)

  /** What calloc leaves in a slot. */
  const BLANK := Frame(Uninitialized, 0, [])

  function DataFrame(sent: seq<Block>, s: nat): Frame
    requires s < |sent|
  {
    Frame(Data, s, sent[s])
  }

  /** _m_sending_window: three byte-sized counters and the ring. */
  datatype SendWindow = SendWindow(head: nat, tail: nat, size: nat, ring: seq<Frame>)

  /** _m_receive_window: the head is a byte that is never reduced modulo the ring size. */
  datatype ReceiveWindow = ReceiveWindow(head: nat, counter: nat, ring: seq<Frame>)

  predicate SendSized(w: SendWindow) {
    w.head < WINDOW && w.tail < WINDOW && w.size < 256 && |w.ring| == WINDOW
  }

  predicate ReceiveSized(w: ReceiveWindow) {
    w.head < 256 && |w.ring| == WINDOW
  }

  // ---- Sending side ----

  function Put(w: SendWindow, f: Frame): SendWindow
    requires SendSized(w)
  {
    SendWindow(w.head, (w.tail + 1) % WINDOW, U8(w.size + 1), w.ring[w.tail := f])
  }

  /** Number of frames that acknowledgement `a` covers, counted from the head slot; -1 if invalid. */
  function AckCount(w: SendWindow, a: int): int
    requires SendSized(w)
  {
    var h := w.ring[w.head].seqNum;
    if h <= a < U32(h + WINDOW) then a - h + 1 else -1
  }

  /** The ack case of the reader thread; it does not ask whether the window is empty. */
  function Acked(w: SendWindow, a: int): SendWindow
    requires SendSized(w)
  {
    var d := AckCount(w, a);
    if d == -1 then w else w.(head := U8(w.head + d) % WINDOW, size := U8(w.size - d))
  }

  /** The frames that the retransmission loop sends, starting at slot `i`. */
  function Sweep(w: SendWindow, i: nat): (frames: seq<Frame>)
    requires SendSized(w) && i < WINDOW
    ensures frames != []
    decreases (w.tail - i + WINDOW - 1) % WINDOW
  {
    var j := (i + 1) % WINDOW;
    if j == w.tail then [w.ring[i]] else [w.ring[i]] + Sweep(w, j)
  }

  lemma SweepStep(w: SendWindow, i: nat, sent: seq<Frame>)
    requires SendSized(w) && i < WINDOW
    ensures var j := (i + 1) % WINDOW;
      sent + Sweep(w, i) == (sent + [w.ring[i]]) + (if j == w.tail then [] else Sweep(w, j))
  {
  }

  function Retransmitted(w: SendWindow): seq<Frame>
    requires SendSized(w)
  {
    if w.size == 0 then [] else Sweep(w, w.head)
  }

  /** The ring holds the last six of the blocks given sequence numbers so far: packet s sits in slot
      s mod 6, and slots not yet used are blank. This does not depend on the head or the size. */
  ghost predicate RingOk(w: SendWindow, sent: seq<Block>) {
    && SendSized(w)
    && w.tail == |sent| % WINDOW
    && (forall s | 0 <= s < |sent| && |sent| - WINDOW <= s :: w.ring[s % WINDOW] == DataFrame(sent, s))
    && (forall k | |sent| <= k < WINDOW :: w.ring[k] == BLANK)
  }

  /** In addition the last `size` blocks, and no others, count as unacknowledged. */
  ghost predicate SendOk(w: SendWindow, sent: seq<Block>) {
    && RingOk(w, sent)
    && w.size <= WINDOW && w.size <= |sent|
    && w.head == (|sent| - w.size) % WINDOW
  }

  ghost function Base(w: SendWindow, sent: seq<Block>): int {
    |sent| - w.size
  }

  lemma SlotsDiffer(h: nat, i: nat, j: nat)
    requires i < WINDOW && j < WINDOW && i != j
    ensures (h + i) % WINDOW != (h + j) % WINDOW
  {
  }

  /** Sending a packet keeps the slot discipline, whatever the head and the size say. */
  lemma RingPut(w: SendWindow, sent: seq<Block>, b: Block)
    requires RingOk(w, sent)
    ensures RingOk(Put(w, Frame(Data, |sent|, b)), sent + [b])
  {
    var w', sent' := Put(w, Frame(Data, |sent|, b)), sent + [b];
    NextSlot(|sent|, |sent| + 1);
    forall s | 0 <= s < |sent'| && |sent'| - WINDOW <= s ensures w'.ring[s % WINDOW] == DataFrame(sent', s) {
      if s < |sent| {
        assert w.ring[s % WINDOW] == DataFrame(sent, s);
        SlotsDiffer(s, 0, |sent| - s);
      }
    }
  }

  /** Sending a packet into a window with room writes a free slot and keeps the window right. */
  lemma PutOk(w: SendWindow, sent: seq<Block>, b: Block)
    requires SendOk(w, sent) && w.size < WINDOW
    ensures SendOk(Put(w, Frame(Data, |sent|, b)), sent + [b])
    ensures Base(Put(w, Frame(Data, |sent|, b)), sent + [b]) == Base(w, sent)
  {
    RingPut(w, sent, b);
  }

  /** An acknowledgement, misread or not, leaves the ring and the tail alone. */
  lemma RingAcked(w: SendWindow, sent: seq<Block>, a: int)
    requires RingOk(w, sent)
    ensures RingOk(Acked(w, a), sent)
  {
  }

  /** On a non-empty window the head slot is the oldest unacknowledged packet, and an ack covers
      at most what the receiver has taken, so nothing undelivered is dropped. */
  lemma AckCountExact(w: SendWindow, sent: seq<Block>, counter: nat, a: int)
    requires SendOk(w, sent) && w.size > 0 && |sent| + WINDOW < 0x1_0000_0000
    requires Base(w, sent) <= counter <= |sent|
    requires 0 <= a < counter || a == 0xFFFF_FFFF
    ensures AckCount(w, a) == if Base(w, sent) <= a < counter then a - Base(w, sent) + 1 else -1
    ensures AckCount(w, a) <= w.size
  {
    var base := Base(w, sent);
    assert w.ring[base % WINDOW] == DataFrame(sent, base);
  }

  lemma AdvanceOk(w: SendWindow, sent: seq<Block>, d: nat)
    requires SendOk(w, sent) && d <= w.size
    ensures SendOk(w.(head := U8(w.head + d) % WINDOW, size := U8(w.size - d)), sent)
    ensures U8(w.size - d) == w.size - d
  {
    HeadAdvances(|sent| - w.size, d);
    ByteFits(w.size - d);
  }

  lemma ByteFits(x: int)
    requires 0 <= x < 256
    ensures U8(x) == x
  {
  }

  lemma HeadAdvances(base: nat, d: nat)
    requires d <= WINDOW
    ensures U8(base % WINDOW + d) % WINDOW == (base + d) % WINDOW
  {
  }

  /** On a non-empty window an acknowledgement moves the base right behind the packet it names. */
  lemma AckAdvances(w: SendWindow, sent: seq<Block>, counter: nat, a: int)
    requires SendOk(w, sent) && w.size > 0 && |sent| + WINDOW < 0x1_0000_0000
    requires Base(w, sent) <= counter <= |sent|
    requires 0 <= a < counter || a == 0xFFFF_FFFF
    ensures SendOk(Acked(w, a), sent)
    ensures Base(Acked(w, a), sent) == if Base(w, sent) <= a < counter then a + 1 else Base(w, sent)
  {
    assert SendSized(w);
    hide RingOk;
    var d := AckCount(w, a);
    AckCountExact(w, sent, counter, a);
    if d != -1 { AdvanceOk(w, sent, d); }
  }

  /** A valid-looking acknowledgement of an empty window makes its size wrap around. */
  lemma AckUnderflows(w: SendWindow, a: int)
    requires SendSized(w) && w.size == 0 && AckCount(w, a) != -1
    ensures Acked(w, a).size > WINDOW
  {
    var d := AckCount(w, a);
    assert 1 <= d <= WINDOW;
    assert Acked(w, a).size == U8(-d) == 256 - d;
  }

  /** Exactly when an acknowledgement keeps the window right, for every receiver counter that the
      window allows: the only failing family is a valid-looking ack on an empty window. */
  lemma AckExact(w: SendWindow, sent: seq<Block>, counter: nat, a: int)
    requires SendOk(w, sent) && |sent| + WINDOW < 0x1_0000_0000
    requires Base(w, sent) <= counter <= |sent|
    requires 0 <= a < counter || a == 0xFFFF_FFFF
    ensures SendOk(Acked(w, a), sent) <==> !(w.size == 0 && AckCount(w, a) != -1)
    ensures w.size > 0 ==>
      Base(Acked(w, a), sent) == if Base(w, sent) <= a < counter then a + 1 else Base(w, sent)
  {
    assert SendSized(w);
    hide RingOk;
    if w.size > 0 {
      AckAdvances(w, sent, counter, a);
    } else if AckCount(w, a) != -1 {
      AckUnderflows(w, a);
    }
  }

  /** A concrete corruption: two packets were sent and acknowledged, and the second ack arrives
      once more. The window then claims 254 unacknowledged packets. */
  lemma DuplicateAckCorrupts()
    ensures exists w: SendWindow, sent: seq<Block> ::
      SendOk(w, sent) && |sent| == 2 && w.size == 0 && Acked(w, 1).size == 254 && !SendOk(Acked(w, 1), sent)
  {
    var sent: seq<Block> := [[7], [8]];
    var w := SendWindow(2, 2, 0, [DataFrame(sent, 0), DataFrame(sent, 1), BLANK, BLANK, BLANK, BLANK]);
    assert SendOk(w, sent);
    assert Acked(w, 1).size == 254;
  }

  /** With no ack in between, retransmission sends exactly the unacknowledged packets in order,
      the full ring included. */
  lemma {:induction false} SweepFrom(w: SendWindow, sent: seq<Block>, s: nat)
    requires SendOk(w, sent) && Base(w, sent) <= s < |sent|
    ensures |Sweep(w, s % WINDOW)| == |sent| - s
    ensures forall k | 0 <= k < |sent| - s :: Sweep(w, s % WINDOW)[k] == DataFrame(sent, s + k)
    decreases |sent| - s
  {
    var i := s % WINDOW;
    NextSlot(s, |sent|);
    assert w.ring[i] == DataFrame(sent, s);
    if s + 1 < |sent| {
      SweepFrom(w, sent, s + 1);
      var rest := Sweep(w, (s + 1) % WINDOW);
      assert Sweep(w, i) == [w.ring[i]] + rest;
      forall k | 0 <= k < |sent| - s ensures Sweep(w, i)[k] == DataFrame(sent, s + k) {
        if k > 0 { assert Sweep(w, i)[k] == rest[k - 1]; }
      }
    }
  }

  lemma NextSlot(s: nat, next: nat)
    requires s < next <= s + WINDOW
    ensures (s % WINDOW + 1) % WINDOW == (s + 1) % WINDOW
    ensures (s + 1) % WINDOW == next % WINDOW <==> s + 1 == next
  {
  }

  lemma RetransmitExact(w: SendWindow, sent: seq<Block>)
    requires SendOk(w, sent)
    ensures |Retransmitted(w)| == w.size
    ensures forall k | 0 <= k < w.size :: Retransmitted(w)[k] == DataFrame(sent, Base(w, sent) + k)
  {
    if w.size > 0 {
      SweepFrom(w, sent, Base(w, sent));
    }
  }

  // ---- Receiving side ----

  function SlotOf(w: ReceiveWindow, i: nat): nat {
    (w.head + i) % WINDOW
  }

  predicate Occupied(w: ReceiveWindow, i: nat)
    requires ReceiveSized(w)
  {
    w.ring[SlotOf(w, i)].kind.Data?
  }

  /** Stores an arriving frame at its offset from the receive counter, if it fits the window. */
  function Accept(w: ReceiveWindow, f: Frame): ReceiveWindow
    requires ReceiveSized(w)
  {
    if w.counter <= f.seqNum < U32(w.counter + WINDOW)
    then w.(ring := w.ring[SlotOf(w, f.seqNum - w.counter) := f])
    else w
  }

  /** One turn of the drain loop: the front frame leaves and the byte-sized head moves on. */
  function DrainOne(w: ReceiveWindow): ReceiveWindow
    requires ReceiveSized(w)
  {
    var s := SlotOf(w, 0);
    ReceiveWindow(U8(w.head + 1), U32(w.counter + 1), w.ring[s := w.ring[s].(kind := Uninitialized)])
  }

  function Front(w: ReceiveWindow): Frame
    requires ReceiveSized(w)
  {
    w.ring[SlotOf(w, 0)]
  }

  /** How many slots of the ring are occupied: the measure of the drain loop. */
  function Load(ring: seq<Frame>): nat {
    if ring == [] then 0 else Load(ring[..|ring| - 1]) + (if ring[|ring| - 1].kind.Data? then 1 else 0)
  }

  lemma {:induction false} LoadDrops(ring: seq<Frame>, s: nat)
    requires s < |ring| && ring[s].kind.Data?
    ensures Load(ring[s := ring[s].(kind := Uninitialized)]) == Load(ring) - 1
  {
    var n := |ring| - 1;
    var ring' := ring[s := ring[s].(kind := Uninitialized)];
    if s < n {
      LoadDrops(ring[..n], s);
      assert ring'[..n] == ring[..n][s := ring[s].(kind := Uninitialized)];
    } else {
      assert ring'[..n] == ring[..n];
    }
  }

  datatype Drained = Drained(window: ReceiveWindow, frames: seq<Frame>)

  /** The drain loop: it stops, since every turn empties a slot. */
  function Drain(w: ReceiveWindow): (d: Drained)
    requires ReceiveSized(w)
    ensures ReceiveSized(d.window) && !Occupied(d.window, 0)
    decreases Load(w.ring)
  {
    if !Occupied(w, 0) then Drained(w, [])
    else
      LoadDrops(w.ring, SlotOf(w, 0));
      var d := Drain(DrainOne(w));
      Drained(d.window, [Front(w)] + d.frames)
  }

  lemma DrainTurn(w: ReceiveWindow, out: seq<Frame>)
    requires ReceiveSized(w) && Occupied(w, 0)
    ensures var d := Drain(DrainOne(w));
      Drain(w).window == d.window && out + Drain(w).frames == out + [Front(w)] + d.frames
  {
  }

  /** An occupied slot at offset i holds packet counter + i. */
  ghost predicate ReceiveOk(w: ReceiveWindow, sent: seq<Block>) {
    && ReceiveSized(w) && w.counter <= |sent|
    && forall i | 0 <= i < WINDOW && Occupied(w, i) ::
      w.counter + i < |sent| && w.ring[SlotOf(w, i)] == DataFrame(sent, w.counter + i)
  }

  lemma AcceptOk(w: ReceiveWindow, sent: seq<Block>, f: Frame)
    requires ReceiveOk(w, sent) && |sent| + WINDOW < 0x1_0000_0000
    requires f.seqNum < |sent| && f == DataFrame(sent, f.seqNum)
    ensures ReceiveOk(Accept(w, f), sent)
    ensures w.counter <= f.seqNum < w.counter + WINDOW ==> Occupied(Accept(w, f), f.seqNum - w.counter)
    ensures forall i | 0 <= i < WINDOW && Occupied(w, i) :: Occupied(Accept(w, f), i)
  {
    if w.counter <= f.seqNum < w.counter + WINDOW {
      var o, w' := f.seqNum - w.counter, Accept(w, f);
      forall i | 0 <= i < WINDOW
        ensures Occupied(w', i) <==> Occupied(w, i) || i == o
        ensures Occupied(w', i) ==> w'.ring[SlotOf(w', i)] == DataFrame(sent, w.counter + i)
      {
        if i != o { SlotsDiffer(w.head, i, o); }
      }
    }
  }

  /** The head byte wraps from 255 to 0 although 256 is not a multiple of the ring size: with a
      frame still buffered behind the front one, every later offset is then off by four. */
  predicate WrapsLoaded(w: ReceiveWindow)
    requires ReceiveSized(w)
  {
    w.head == 255 && exists i :: 1 <= i < WINDOW && Occupied(w, i)
  }

  /** Exactly when draining one frame keeps the ring right. */
  lemma DrainOneExact(w: ReceiveWindow, sent: seq<Block>)
    requires ReceiveOk(w, sent) && Occupied(w, 0) && |sent| + WINDOW < 0x1_0000_0000
    ensures Front(w) == DataFrame(sent, w.counter)
    ensures ReceiveOk(DrainOne(w), sent) <==> !WrapsLoaded(w)
    ensures !WrapsLoaded(w) ==> forall i | 0 <= i < WINDOW - 1 :: Occupied(DrainOne(w), i) <==> Occupied(w, i + 1)
  {
    if w.head < 255 {
      DrainShifts(w, sent);
    } else if WrapsLoaded(w) {
      DrainMisplaces(w, sent);
    } else {
      DrainEmpties(w);
    }
  }

  lemma DrainShifts(w: ReceiveWindow, sent: seq<Block>)
    requires ReceiveOk(w, sent) && Occupied(w, 0) && |sent| + WINDOW < 0x1_0000_0000 && w.head < 255
    ensures ReceiveOk(DrainOne(w), sent)
    ensures forall i | 0 <= i < WINDOW - 1 :: Occupied(DrainOne(w), i) <==> Occupied(w, i + 1)
  {
    var w' := DrainOne(w);
    forall i | 0 <= i < WINDOW
      ensures if i == WINDOW - 1 then !Occupied(w', i)
        else (Occupied(w', i) <==> Occupied(w, i + 1)) && w'.ring[SlotOf(w', i)] == w.ring[SlotOf(w, i + 1)]
    {
      SlotMoves(w, i);
    }
  }

  /** Below the wrap every slot moves one offset nearer, and the last one is free. */
  lemma SlotMoves(w: ReceiveWindow, i: nat)
    requires ReceiveSized(w) && w.head < 255 && i < WINDOW
    ensures var w' := DrainOne(w);
      if i == WINDOW - 1 then !Occupied(w', i)
      else (Occupied(w', i) <==> Occupied(w, i + 1)) && w'.ring[SlotOf(w', i)] == w.ring[SlotOf(w, i + 1)]
  {
    assert SlotOf(DrainOne(w), i) == (w.head + (i + 1)) % WINDOW;
    if i < WINDOW - 1 { SlotsDiffer(w.head, 0, i + 1); }
  }

  lemma DrainMisplaces(w: ReceiveWindow, sent: seq<Block>)
    requires ReceiveOk(w, sent) && Occupied(w, 0) && |sent| + WINDOW < 0x1_0000_0000 && WrapsLoaded(w)
    ensures !ReceiveOk(DrainOne(w), sent)
  {
    var w' := DrainOne(w);
    var j :| 1 <= j < WINDOW && Occupied(w, j);
    var o := (j + 3) % WINDOW;
    SlotsDiffer(w.head, 0, j);
    assert SlotOf(w', o) == SlotOf(w, j);
    assert Occupied(w', o) && w'.ring[SlotOf(w', o)].seqNum == w.counter + j != w'.counter + o;
  }

  lemma DrainEmpties(w: ReceiveWindow)
    requires ReceiveSized(w) && w.head == 255 && !WrapsLoaded(w)
    ensures forall i | 0 <= i < WINDOW :: !Occupied(DrainOne(w), i)
    ensures forall i | 1 <= i < WINDOW :: !Occupied(w, i)
  {
    forall i | 0 <= i < WINDOW ensures !Occupied(DrainOne(w), i) {
      var j := (i + 3) % WINDOW;
      assert SlotOf(DrainOne(w), i) == SlotOf(w, j);
      if j > 0 { assert !Occupied(w, j); }
    }
  }

  // ---- The whole drain loop ----

  /** Draining reaches the frame at which the head byte wraps, with a later frame buffered. */
  predicate DrainWraps(w: ReceiveWindow)
    requires ReceiveSized(w)
  {
    && (forall k | 0 <= k < WINDOW && k <= 255 - w.head :: Occupied(w, k))
    && (exists i :: 0 <= i < WINDOW && i > 255 - w.head && Occupied(w, i))
  }

  /** Frames `frames` are the packets from `counter` on, and the ring left behind is right and has
      an empty front. */
  ghost predicate DrainedOk(d: Drained, counter: nat, sent: seq<Block>) {
    && ReceiveOk(d.window, sent)
    && d.window.counter == counter + |d.frames|
    && !Occupied(d.window, 0)
    && forall k | 0 <= k < |d.frames| :: d.frames[k] == DataFrame(sent, counter + k)
  }

  lemma StaysRight(w: ReceiveWindow, sent: seq<Block>)
    requires ReceiveOk(w, sent) && |sent| + WINDOW < 0x1_0000_0000 && !DrainWraps(w) && Occupied(w, 0)
    ensures ReceiveOk(DrainOne(w), sent) && !DrainWraps(DrainOne(w)) && DrainOne(w).counter == w.counter + 1
  {
    if WrapsLoaded(w) {
      assert DrainWraps(w);
      assert false;
    }
    DrainOneExact(w, sent);
    WrapsLater(w);
  }

  lemma DrainedOneMore(d: Drained, counter: nat, sent: seq<Block>)
    requires DrainedOk(d, counter + 1, sent) && counter < |sent|
    ensures DrainedOk(Drained(d.window, [DataFrame(sent, counter)] + d.frames), counter, sent)
  {
  }

  lemma {:induction false} DrainRight(w: ReceiveWindow, sent: seq<Block>)
    requires ReceiveOk(w, sent) && |sent| + WINDOW < 0x1_0000_0000 && !DrainWraps(w)
    ensures DrainedOk(Drain(w), w.counter, sent)
    decreases Load(w.ring)
  {
    if Occupied(w, 0) {
      LoadDrops(w.ring, SlotOf(w, 0));
      StaysRight(w, sent);
      DrainRight(DrainOne(w), sent);
      assert Front(w) == DataFrame(sent, w.counter + 0);
      DrainedOneMore(Drain(DrainOne(w)), w.counter, sent);
    }
  }

  lemma WrapsLater(w: ReceiveWindow)
    requires ReceiveSized(w) && Occupied(w, 0) && !WrapsLoaded(w)
    requires w.head < 255 ==> forall i | 0 <= i < WINDOW - 1 :: Occupied(DrainOne(w), i) <==> Occupied(w, i + 1)
    ensures DrainWraps(DrainOne(w)) ==> DrainWraps(w)
  {
    var w' := DrainOne(w);
    if w.head < 255 && DrainWraps(w') {
      forall k | 0 <= k < WINDOW && k <= 255 - w.head ensures Occupied(w, k) {
        if k > 0 { assert Occupied(w', k - 1); }
      }
      var i :| 0 <= i < WINDOW && i > 255 - w'.head && Occupied(w', i);
      assert i < WINDOW - 1 by { LastEmpty(w); }
      assert Occupied(w, i + 1);
    }
  }

  lemma LastEmpty(w: ReceiveWindow)
    requires ReceiveSized(w) && w.head < 255
    ensures !Occupied(DrainOne(w), WINDOW - 1)
  {
    assert SlotOf(DrainOne(w), WINDOW - 1) == SlotOf(w, 0);
  }

  predicate Misplaced(w: ReceiveWindow, i: nat)
    requires ReceiveSized(w)
  {
    i < WINDOW && Occupied(w, i) && w.ring[SlotOf(w, i)].seqNum != w.counter + i
  }

  /** Some frame was handed up under a wrong number, or is buffered at a wrong offset. */
  ghost predicate Corrupt(d: Drained, counter: nat)
    requires ReceiveSized(d.window)
  {
    || (exists k :: 0 <= k < |d.frames| && d.frames[k].seqNum != counter + k)
    || (exists i :: Misplaced(d.window, i))
  }

  lemma CorruptIsWrong(d: Drained, counter: nat, sent: seq<Block>)
    requires ReceiveSized(d.window) && Corrupt(d, counter)
    ensures !DrainedOk(d, counter, sent)
  {
  }

  lemma CorruptLater(w: ReceiveWindow)
    requires ReceiveSized(w) && Occupied(w, 0) && w.counter + 1 < 0x1_0000_0000
    requires Corrupt(Drain(DrainOne(w)), w.counter + 1)
    ensures Corrupt(Drain(w), w.counter)
  {
    LoadDrops(w.ring, SlotOf(w, 0));
    var d, d' := Drain(w), Drain(DrainOne(w));
    if k :| 0 <= k < |d'.frames| && d'.frames[k].seqNum != w.counter + 1 + k {
      assert d.frames[k + 1].seqNum != w.counter + (k + 1);
    }
  }

  lemma MisplacedNow(w: ReceiveWindow, i: nat)
    requires ReceiveSized(w) && Misplaced(w, i) && (i == 0 || !Occupied(w, 0))
    ensures Corrupt(Drain(w), w.counter)
  {
    if Occupied(w, 0) {
      LoadDrops(w.ring, SlotOf(w, 0));
      assert Drain(w).frames[0].seqNum != w.counter + 0;
    }
  }

  /** A misplaced frame stays misplaced, or is handed up under a wrong number. */
  lemma {:induction false} MisplacedCorrupts(w: ReceiveWindow, i: nat)
    requires ReceiveSized(w) && Misplaced(w, i) && w.head + i < 255 && w.counter + i + 1 < 0x1_0000_0000
    ensures Corrupt(Drain(w), w.counter)
    decreases i
  {
    hide Drain, Corrupt;
    if i == 0 || !Occupied(w, 0) {
      MisplacedNow(w, i);
    } else {
      MisplacedStays(w, i);
      MisplacedCorrupts(DrainOne(w), i - 1);
      CorruptLater(w);
    }
  }

  lemma MisplacedStays(w: ReceiveWindow, i: nat)
    requires ReceiveSized(w) && Misplaced(w, i) && i > 0 && w.head + i < 255 && w.counter + 1 < 0x1_0000_0000
    ensures Misplaced(DrainOne(w), i - 1)
  {
    SlotsDiffer(w.head, 0, i);
    assert SlotOf(DrainOne(w), i - 1) == SlotOf(w, i);
  }

  lemma WrapCorrupts(w: ReceiveWindow, sent: seq<Block>)
    requires ReceiveOk(w, sent) && |sent| + WINDOW < 0x1_0000_0000 && Occupied(w, 0) && WrapsLoaded(w)
    ensures Corrupt(Drain(DrainOne(w)), w.counter + 1)
  {
    hide Drain;
    var i :| 1 <= i < WINDOW && Occupied(w, i);
    SlotsDiffer(w.head, 0, i);
    assert SlotOf(DrainOne(w), (i + 3) % WINDOW) == SlotOf(w, i);
    assert Misplaced(DrainOne(w), (i + 3) % WINDOW);
    MisplacedCorrupts(DrainOne(w), (i + 3) % WINDOW);
  }

  lemma {:induction false} DrainWrong(w: ReceiveWindow, sent: seq<Block>)
    requires ReceiveOk(w, sent) && |sent| + WINDOW < 0x1_0000_0000 && DrainWraps(w)
    ensures Corrupt(Drain(w), w.counter)
    decreases 255 - w.head
  {
    hide Drain, Corrupt;
    assert Occupied(w, 0);
    if WrapsLoaded(w) {
      WrapCorrupts(w, sent);
    } else {
      DrainOneExact(w, sent);
      LoadDrops(w.ring, SlotOf(w, 0));
      WrapsStill(w);
      DrainWrong(DrainOne(w), sent);
    }
    CorruptLater(w);
  }

  lemma WrapsStill(w: ReceiveWindow)
    requires ReceiveSized(w) && DrainWraps(w) && w.head < 255
    requires forall i | 0 <= i < WINDOW - 1 :: Occupied(DrainOne(w), i) <==> Occupied(w, i + 1)
    ensures DrainWraps(DrainOne(w))
  {
    var w' := DrainOne(w);
    var i :| 0 <= i < WINDOW && i > 255 - w.head && Occupied(w, i);
    assert Occupied(w', i - 1);
    forall k | 0 <= k < WINDOW && k <= 255 - w'.head ensures Occupied(w', k) {
      assert Occupied(w, k + 1);
    }
  }

  /** Exactly when one data frame is handled right, for every ring and every genuine frame: the
      packets handed up are the next ones in order, the drain is maximal, and what stays buffered
      is at its own offset -- unless the head byte wraps in the middle of buffered frames. */
  lemma DataStepExact(w: ReceiveWindow, sent: seq<Block>, f: Frame)
    requires ReceiveOk(w, sent) && |sent| + WINDOW < 0x1_0000_0000
    requires f.seqNum < |sent| && f == DataFrame(sent, f.seqNum)
    ensures DrainedOk(Drain(Accept(w, f)), w.counter, sent) <==> !DrainWraps(Accept(w, f))
  {
    AcceptOk(w, sent, f);
    if DrainWraps(Accept(w, f)) {
      DrainWrong(Accept(w, f), sent);
      CorruptIsWrong(Drain(Accept(w, f)), w.counter, sent);
    } else {
      DrainRight(Accept(w, f), sent);
    }
  }

  // ---- The mutable windows ----

  class SendRing {
    var head: nat
    var tail: nat
    var size: nat
    const buffer: array<Frame>

    ghost predicate Valid()
      reads this, buffer
    {
      buffer.Length == WINDOW && SendSized(Abs())
    }

    ghost function Abs(): SendWindow
      reads this, buffer
    {
      SendWindow(head, tail, size, buffer[..])
    }

    constructor ()
      ensures Valid() && fresh(buffer) && SendOk(Abs(), [])
    {
      head, tail, size := 0, 0, 0;
      buffer := new Frame[WINDOW](_ => BLANK);
    }

    /** The window update of send_packet, under the window's mutex. */
    method Insert(f: Frame)
      requires Valid()
      modifies this, buffer
      ensures Valid() && Abs() == Put(old(Abs()), f)
    {
      buffer[tail] := f;
      tail := (tail + 1) % WINDOW;
      size := U8(size + 1);
    }

    /** GET_SEND_FRAME_id_delta. */
    method IdDelta(a: int) returns (d: int)
      requires Valid()
      ensures d + 1 == AckCount(Abs(), a)
    {
      var h := buffer[head].seqNum;
      if a >= h {
        if a < U32(h + WINDOW) {
          return a - h;
        }
      }
      return -2;
    }

    /** The ack case of the reader thread; the result says whether the writer is signalled. */
    method HandleAck(a: int) returns (signal: bool)
      requires Valid()
      modifies this
      ensures Valid() && Abs() == Acked(old(Abs()), a)
      ensures signal == (AckCount(old(Abs()), a) != -1)
    {
      var d := IdDelta(a);
      var framediff := d + 1;
      signal := framediff != -1;
      if signal {
        head := U8(head + framediff);
        head := head % WINDOW;
        size := U8(size - framediff);
      }
    }

    /** retransmit: a do-while over the ring, since tail may equal head. */
    method Retransmit() returns (wire: seq<Frame>)
      requires Valid()
      ensures wire == Retransmitted(Abs())
    {
      if size == 0 {
        return [];
      }
      var i: nat := head;
      wire := [];
      ghost var w := Abs();
      ghost var all := Sweep(w, head);
      var more := true;
      while more
        invariant i < WINDOW
        invariant if more then wire + Sweep(w, i) == all else wire == all
        decreases |all| - |wire|
      {
        SweepStep(w, i, wire);
        wire := wire + [buffer[i]];
        i := (i + 1) % WINDOW;
        more := i != tail;
      }
    }
  }

  class ReceiveRing {
    var head: nat
    var counter: nat
    const buffer: array<Frame>

    ghost predicate Valid()
      reads this, buffer
    {
      buffer.Length == WINDOW && ReceiveSized(Abs())
    }

    ghost function Abs(): ReceiveWindow
      reads this, buffer
    {
      ReceiveWindow(head, counter, buffer[..])
    }

    constructor ()
      ensures Valid() && fresh(buffer) && Abs() == ReceiveWindow(0, 0, buffer[..])
      ensures ReceiveOk(Abs(), [])
    {
      head, counter := 0, 0;
      buffer := new Frame[WINDOW](_ => BLANK);
    }

    /** One turn of the drain loop. */
    method TakeOne() returns (f: Frame)
      requires Valid() && Occupied(Abs(), 0)
      modifies this, buffer
      ensures Valid() && Abs() == DrainOne(old(Abs())) && f == Front(old(Abs()))
      ensures Load(Abs().ring) < Load(old(Abs()).ring)
    {
      LoadDrops(buffer[..], head % WINDOW);
      var cursor := head % WINDOW;
      f := buffer[cursor];
      counter := U32(counter + 1);
      head := U8(head + 1);
      buffer[cursor] := buffer[cursor].(kind := Uninitialized);
    }

    /** Buffers a frame whose number lies in the window. */
    method Store(f: Frame)
      requires Valid()
      modifies buffer
      ensures Valid() && Abs() == Accept(old(Abs()), f)
    {
      if f.seqNum >= counter {
        if f.seqNum < U32(counter + WINDOW) {
          buffer[(head + (f.seqNum - counter)) % WINDOW] := f;
        }
      }
    }

    /** The drain loop. */
    method DrainAll() returns (out: seq<Frame>)
      requires Valid()
      modifies this, buffer
      ensures Valid() && Drain(old(Abs())) == Drained(Abs(), out)
      ensures !Occupied(Abs(), 0)
    {
      ghost var goal := Drain(Abs());
      ghost var rest := goal.frames;
      out := [];
      while buffer[head % WINDOW].kind != Uninitialized
        invariant Valid()
        invariant Drain(Abs()) == Drained(goal.window, rest) && out + rest == goal.frames
        decreases Load(Abs().ring)
      {
        DrainTurn(Abs(), out);
        rest := Drain(DrainOne(Abs())).frames;
        var next := TakeOne();
        out := out + [next];
      }
    }

    /** The data case of the reader thread: store, drain to the block queue, acknowledge. */
    method HandleData(f: Frame) returns (out: seq<Frame>, ack: int)
      requires Valid()
      modifies this, buffer
      ensures Valid()
      ensures var d := Drain(Accept(old(Abs()), f)); Abs() == d.window && out == d.frames
      ensures ack == U32(counter - 1)
      ensures !Occupied(Abs(), 0)
    {
      Store(f);
      out := DrainAll();
      ack := U32(counter - 1);
    }
  }
}
