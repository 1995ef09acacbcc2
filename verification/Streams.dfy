/** What the reading user sees: the bytes returned are a prefix of the bytes written. */
module Streams {
  import opened Prelude
  import opened Windows
  import opened Transport

  function Payloads(frames: seq<Frame>): seq<Block> {
    seq(|frames|, i requires 0 <= i < |frames| => frames[i].payload)
  }

  function Got(u: User): seq<Byte> {
    if u.state.Reading? then u.state.got else []
  }

  ghost predicate UserOk(u: User) {
    && u.offset <= (if u.queue == [] then 0 else |u.queue[0]|)
    && (u.state.Reading? ==> u.offset == 0 && |u.state.got| < u.state.len)
  }

  function Unread(u: User): seq<Byte> {
    if u.offset <= |Flat(u.queue)| then Flat(u.queue)[u.offset..] else []
  }

  /** What was written is what was numbered, is queued or is being pushed. */
  ghost predicate Accounted(x: Sender) {
    x.written == Flat(x.sent + x.queue + x.pending)
  }

  /** All bytes are accounted for, and what was handed up is what was returned, is being read or
      waits unread. */
  ghost predicate StreamInv(s: Sys) {
    && Accounted(s.sender)
    && UserOk(s.user)
    && Flat(Payloads(s.receiver.delivered)) == s.user.returned + Got(s.user) + Unread(s.user)
  }

  // ---- The first copy of gbn_socket_read ----

  /** The user with other contents in the first block. */
  function WithFirst(u: User, b: Block): User
    requires u.queue != []
  {
    u.(queue := [b] + u.queue[1..])
  }

  ghost predicate FirstCopyRight(u: User, len: nat)
    requires u.queue != [] && u.offset <= |u.queue[0]|
  {
    var v := ReadFirst(u, len);
    v.returned + Got(v) + Unread(v) == u.returned + Got(u) + Unread(u)
  }

  /** Two one-byte reads of the block [1, 2] return [1, 1]. */
  lemma SecondReadRepeats()
    ensures var u := User([[1, 2]], 0, Idle, []);
      ReadFirst(u, 1).offset == 1 && ReadFirst(ReadFirst(u, 1), 1).returned == [1, 1]
  {
  }

  lemma FlatHead(queue: seq<Block>)
    requires queue != []
    ensures Flat(queue) == queue[0] + Flat(queue[1..])
  {
  }

  lemma CutAt(b: Block, rest: seq<Byte>, offset: nat, n: nat)
    requires offset + n <= |b|
    ensures (b + rest)[offset..] == b[offset..offset + n] + (b[offset + n..] + rest)
  {
  }

  lemma UnreadAt(u: User)
    requires u.queue != [] && u.offset <= |u.queue[0]|
    ensures Unread(u) == u.queue[0][u.offset..] + Flat(u.queue[1..])
  {
    FlatHead(u.queue);
    CutAt(u.queue[0], Flat(u.queue[1..]), u.offset, 0);
  }

  lemma ReadWhole(returned: seq<Byte>, got: seq<Byte>, b: seq<Byte>, rest: seq<Byte>)
    ensures returned + got + (b + rest) == returned + got + b + rest == returned + (got + b) + rest
  {
    Regroup(returned, got, b);
  }

  lemma ReadPart(u: User, d: nat)
    requires u.queue != [] && u.offset + d <= |u.queue[0]|
    ensures Unread(u) == u.queue[0][u.offset..u.offset + d] + Unread(u.(offset := u.offset + d))
  {
    var b, rest := u.queue[0], Flat(u.queue[1..]);
    UnreadAt(u);
    UnreadAt(u.(offset := u.offset + d));
    assert b[u.offset..] == b[u.offset..u.offset + d] + b[u.offset + d..];
    Regroup(b[u.offset..u.offset + d], b[u.offset + d..], rest);
  }

  lemma ReadFirstOk(u: User, len: nat)
    requires UserOk(u) && u.state.Idle? && u.queue != [] && !(u.offset != 0 && FirstLength(u, len) != 0)
    ensures UserOk(ReadFirst(u, len))
    ensures var u' := ReadFirst(u, len);
      u'.returned + Got(u') + Unread(u') == u.returned + Got(u) + Unread(u)
  {
    var u', b, n := ReadFirst(u, len), u.queue[0], FirstLength(u, len);
    assert b[u.offset..u.offset + n] == b[..n];
    if n != len {
      UnreadAt(u);
      assert b[u.offset..] == b[..n];
      assert Unread(u') == Flat(u.queue[1..]);
    } else {
      ReadPart(u, n);
      assert Unread(u') == Unread(u.(offset := u.offset + n));
    }
    ReadWhole(u.returned, [], b[..n], Unread(u'));
    assert [] + b[..n] == b[..n];
  }

  /** Exactly when the first copy of a read accounts for the bytes, whatever the first block holds:
      it starts at offset zero, or copies nothing. */
  lemma FirstCopyExact(u: User, len: nat)
    requires UserOk(u) && u.state.Idle? && u.queue != []
    ensures (forall b: Block | |b| == |u.queue[0]| :: FirstCopyRight(WithFirst(u, b), len))
       <==> u.offset == 0 || FirstLength(u, len) == 0
  {
    if u.offset == 0 || FirstLength(u, len) == 0 {
      forall b: Block | |b| == |u.queue[0]| ensures FirstCopyRight(WithFirst(u, b), len) {
        ReadFirstOk(WithFirst(u, b), len);
      }
    } else {
      var b: Block := seq(|u.queue[0]|, i => if i == 0 then 1 else 0);
      FirstCopyRepeats(WithFirst(u, b), len);
    }
  }

  /** A copy from inside a block that begins with a unique byte returns that byte once more. */
  lemma FirstCopyRepeats(u: User, len: nat)
    requires UserOk(u) && u.state.Idle? && u.queue != [] && u.offset != 0 && FirstLength(u, len) != 0
    requires u.queue[0][u.offset] != u.queue[0][0]
    ensures !FirstCopyRight(u, len)
  {
    var v, n := ReadFirst(u, len), |u.returned|;
    UnreadAt(u);
    assert (v.returned + Got(v) + Unread(v))[n] == u.queue[0][0];
    assert (u.returned + Got(u) + Unread(u))[n] == u.queue[0][u.offset];
  }

  lemma ReadNextOk(u: User)
    requires UserOk(u) && u.state.Reading? && u.queue != []
    ensures UserOk(ReadNext(u))
    ensures var u' := ReadNext(u);
      u'.returned + Got(u') + Unread(u') == u.returned + Got(u) + Unread(u)
  {
    var u', b, d, got := ReadNext(u), u.queue[0], u.state.len - |u.state.got|, u.state.got;
    if |b| <= d {
      UnreadAt(u);
      assert Unread(u') == Flat(u.queue[1..]);
      ReadWhole(u.returned, got, b, Flat(u.queue[1..]));
    } else {
      ReadPart(u, d);
      assert Unread(u') == Unread(u.(offset := d));
      ReadWhole(u.returned, got, b[..d], Unread(u'));
    }
  }

  /** Where a reading user stands stays consistent whatever happens, read faults included. */
  lemma UserKeeps(s: Sys, e: Event)
    requires UserOk(s.user) && Enabled(s, e)
    ensures UserOk(Next(s, e).user)
  {
  }

  // ---- One step ----

  lemma SendKeepsWritten(sent: seq<Block>, queue: seq<Block>, pending: seq<Block>)
    ensures queue != [] ==> (sent + [queue[0]]) + queue[1..] + pending == sent + queue + pending
    ensures pending != [] ==> sent + (queue + [pending[0]]) + pending[1..] == sent + queue + pending
  {
  }

  lemma DrainKeepsStream(delivered: seq<Frame>, f: Frame, u: User)
    requires UserOk(u)
    ensures Flat(Payloads(delivered + [f])) == Flat(Payloads(delivered)) + f.payload
    ensures UserOk(u.(queue := u.queue + [f.payload]))
    ensures Unread(u.(queue := u.queue + [f.payload])) == Unread(u) + f.payload
  {
    assert Payloads(delivered + [f]) == Payloads(delivered) + [f.payload];
    FlatAppend(Payloads(delivered), [f.payload]);
    FlatAppend(u.queue, [f.payload]);
    assert Flat([f.payload]) == f.payload + Flat([f.payload][1..]);
    if u.queue != [] { FlatHead(u.queue); }
  }

  lemma WriteStream(s: Sys, bytes: seq<Byte>)
    requires StreamInv(s) && Enabled(s, Write(bytes))
    ensures StreamInv(Next(s, Write(bytes)))
  {
    var x := s.sender;
    FlatAppend(x.sent + x.queue, Chunks(bytes));
    assert x.sent + x.queue + x.pending == x.sent + x.queue;
  }

  lemma PushStream(s: Sys)
    requires StreamInv(s) && Enabled(s, Push)
    ensures StreamInv(Next(s, Push))
  {
    SendKeepsWritten(s.sender.sent, s.sender.queue, s.sender.pending);
  }

  lemma WriterStream(s: Sys)
    requires StreamInv(s) && Enabled(s, WriterStep)
    ensures StreamInv(Next(s, WriterStep))
  {
    hide Flat, Payloads, Unread;
    if s.sender.state.SendPacket? { SendKeepsWritten(s.sender.sent, s.sender.queue, s.sender.pending); }
  }

  lemma DrainStream(s: Sys)
    requires StreamInv(s) && Enabled(s, DrainFront)
    ensures StreamInv(Next(s, DrainFront))
  {
    hide Flat, Payloads;
    DrainKeepsStream(s.receiver.delivered, Front(s.receiver.window), s.user);
    var u := s.user;
    Regroup(u.returned + Got(u), Unread(u), Front(s.receiver.window).payload);
  }

  /** The remaining steps touch neither the byte accounts nor the user. */
  lemma QuietStream(s: Sys, e: Event)
    requires StreamInv(s) && Enabled(s, e)
    requires e.WaitOver? || e.SpuriousWake? || e.ReceiveAck? || e.Signal? || e.ReceiveFrame? || e.SendAck?
    ensures StreamInv(Next(s, e))
  {
  }

  /** Every step keeps the byte accounts, faults of the window protocol included, except a read
      that starts inside a block. */
  lemma StepStream(s: Sys, e: Event)
    requires StreamInv(s) && Enabled(s, e) && !ReadFault(s, e)
    ensures StreamInv(Next(s, e))
  {
    hide Flat, Payloads;
    match e
    case Write(bytes) => WriteStream(s, bytes);
    case Push => PushStream(s);
    case WriterStep => WriterStream(s);
    case DrainFront => DrainStream(s);
    case ReadBegin(len) => ReadFirstOk(s.user, len);
    case ReadMore => ReadNextOk(s.user);
    case _ => QuietStream(s, e);
  }

  // ---- End to end ----

  /** The receive head never wraps in front of buffered frames and no read starts inside a block;
      acknowledgements may be repeated and misread at will. */
  ghost predicate TransferFree(events: seq<Event>, states: seq<Sys>)
    requires IsRun(events, states)
  {
    forall i | 0 <= i < |events| :: !WrapFault(states[i], events[i]) && !ReadFault(states[i], events[i])
  }

  lemma DeliveredInOrder(s: Sys)
    requires TransferInv(s)
    ensures s.receiver.window.counter <= |s.sender.sent| == s.sender.nextSeq
    ensures Payloads(s.receiver.delivered) == s.sender.sent[..s.receiver.window.counter]
  {
  }

  lemma PrefixOfWritten(s: Sys)
    requires TransferInv(s) && StreamInv(s)
    ensures s.user.returned + Got(s.user) <= s.sender.written
  {
    hide Flat, TransferInv;
    var x, n := s.sender, s.receiver.window.counter;
    DeliveredInOrder(s);
    var rest := x.sent[n..] + x.queue + x.pending;
    FlatAppend(x.sent[..n], rest);
    assert x.sent + x.queue + x.pending == x.sent[..n] + rest;
    assert s.sender.written == (s.user.returned + Got(s.user)) + (Unread(s.user) + Flat(rest));
  }

  lemma RunStream(events: seq<Event>, states: seq<Sys>)
    requires IsRun(events, states) && TransferFree(events, states)
    ensures forall i | 0 <= i < |states| :: TransferInv(states[i]) && StreamInv(states[i])
  {
    RunTransfers(events, states);
    var i := 0;
    while i < |events|
      invariant 0 <= i <= |events|
      invariant forall j | 0 <= j <= i :: StreamInv(states[j])
    {
      StepStream(states[i], events[i]);
      i := i + 1;
    }
  }

  /** Main end-to-end result: under any loss, duplication and reordering of frames and of
      acknowledgements, the bytes returned so far are a prefix of the bytes written so far, in every
      state of a run in which the receive head never wraps in front of buffered frames and no read
      starts inside a block. */
  lemma EndToEndPrefix(events: seq<Event>, states: seq<Sys>, i: nat)
    requires IsRun(events, states) && TransferFree(events, states) && i < |states|
    ensures states[i].user.returned <= states[i].sender.written
  {
    RunStream(events, states);
    PrefixOfWritten(states[i]);
    var u := states[i].user;
    assert u.returned <= u.returned + Got(u);
  }

  /** What the window says about loss. Without an acknowledgement misread on an empty window, the
      counters are in order, acknowledgements in flight are below the receiver, and none drops a
      packet the receiver has not taken. */
  ghost predicate WindowCounts(s: Sys) {
    var base := |s.sender.sent| - s.sender.window.size;
    && SendSized(s.sender.window)
    && base <= s.receiver.window.counter <= s.sender.nextSeq <= base + WINDOW
    && (forall a | a in s.acks :: a < s.receiver.window.counter || a == 0xFFFF_FFFF)
    && (forall a | a in s.acks && s.sender.window.size > 0 ::
         AckCount(s.sender.window, a) <= s.receiver.window.counter - base)
  }

  lemma CountsInOrder(s: Sys)
    requires ProtocolInv(s)
    ensures WindowCounts(s)
  {
    forall a | a in s.acks && s.sender.window.size > 0
      ensures AckCount(s.sender.window, a) <= s.receiver.window.counter - (|s.sender.sent| - s.sender.window.size)
    {
      AckCountExact(s.sender.window, s.sender.sent, s.receiver.window.counter, a);
    }
  }

  /** In every state of a run without a wrap, what the receiver handed up are exactly the first
      packets, once each and in order; and while no acknowledgement has been misread either, a packet
      leaves the sending window only after the receiver took it. */
  lemma NothingLost(events: seq<Event>, states: seq<Sys>, i: nat)
    requires IsRun(events, states) && i < |states|
    requires forall k | 0 <= k < |events| :: !WrapFault(states[k], events[k])
    ensures var s := states[i];
      && s.sender.nextSeq == |s.sender.sent| && s.receiver.window.counter <= s.sender.nextSeq
      && Payloads(s.receiver.delivered) == s.sender.sent[..s.receiver.window.counter]
      && ((forall k | 0 <= k < |events| :: !AckFault(states[k], events[k])) ==> WindowCounts(s))
  {
    RunTransfers(events, states);
    DeliveredInOrder(states[i]);
    if forall k | 0 <= k < |events| :: !AckFault(states[k], events[k]) {
      RunExact(events, states);
      CountsInOrder(states[i]);
    }
  }
}
