/** The user's side of the transport: the ring of 128 blocks that links it to the threads, and
    the loops of gbn_socket_write and gbn_socket_read. */
module Sockets {
  import opened Prelude
  import opened Windows
  import opened Transport

  function Min(a: int, b: int): int {
    if a > b then b else a
  }

  // ---- The block queue ----

  function IndexAt(tail: nat, i: nat): (k: nat)
    ensures k < QUEUE_CAPACITY
  {
    (tail + i) % QUEUE_CAPACITY
  }

  lemma IndexNext(tail: nat, i: nat)
    ensures IndexAt((tail + 1) % QUEUE_CAPACITY, i) == IndexAt(tail, i + 1)
  {
  }

  class BlockQueue<T(0)> {
    var head: nat
    var tail: nat
    var size: nat
    const data: array<T>

    ghost predicate Valid()
      reads this
    {
      && data.Length == QUEUE_CAPACITY
      && tail < QUEUE_CAPACITY && size <= QUEUE_CAPACITY
      && head == IndexAt(tail, size)
    }

    /** The queued elements, oldest first. */
    ghost function Contents(): (s: seq<T>)
      requires Valid()
      reads this, data
      ensures |s| == size
    {
      seq(size, i requires 0 <= i < size && Valid() reads this, data => data[IndexAt(tail, i)])
    }

    constructor ()
      ensures Valid() && fresh(data) && Contents() == []
    {
      head, tail, size := 0, 0, 0;
      data := new T[QUEUE_CAPACITY];
    }

    /** block_queue_push_chunk, once there is room. */
    method PushChunk(x: T)
      requires Valid() && |Contents()| < QUEUE_CAPACITY
      modifies this, data
      ensures Valid() && Contents() == old(Contents()) + [x]
    {
      data[head] := x;
      head := head + 1;
      head := head % QUEUE_CAPACITY;
      size := size + 1;
    }

    /** block_queue_pop_chunk: -1 on an empty queue, which it leaves alone. */
    method PopChunk() returns (status: int)
      requires Valid()
      modifies this
      ensures Valid()
      ensures status == if old(Contents()) == [] then -1 else 0
      ensures Contents() == if old(Contents()) == [] then [] else old(Contents())[1..]
    {
      if size == 0 {
        return -1;
      }
      ghost var next := (tail + 1) % QUEUE_CAPACITY;
      forall i | 0 <= i < size ensures IndexAt(next, i) == IndexAt(tail, i + 1) {
        IndexNext(tail, i);
      }
      tail := tail + 1;
      tail := tail % QUEUE_CAPACITY;
      size := size - 1;
      return 0;
    }

    /** block_queue_peek_chunk, once there is a block. */
    method PeekChunk() returns (x: T)
      requires Valid() && Contents() != []
      ensures x == Contents()[0]
    {
      x := data[tail];
    }
  }

  // ---- gbn_socket_write ----

  lemma WholeBlock(bytes: seq<Byte>, cursor: nat)
    requires cursor + PACKET_SIZE <= |bytes|
    ensures Chunks(bytes[cursor..]) == [bytes[cursor..cursor + PACKET_SIZE]] + Chunks(bytes[cursor + PACKET_SIZE..])
  {
    var rest := bytes[cursor..];
    assert bytes[cursor..cursor + PACKET_SIZE] == rest[..PACKET_SIZE];
    assert bytes[cursor + PACKET_SIZE..] == rest[PACKET_SIZE..];
    if |rest| == PACKET_SIZE {
      assert rest == rest[..PACKET_SIZE] && Chunks(rest[PACKET_SIZE..]) == [];
    }
  }

  lemma LastBlock(bytes: seq<Byte>, cursor: nat)
    requires cursor < |bytes| < cursor + PACKET_SIZE
    ensures Chunks(bytes[cursor..]) == [bytes[cursor..|bytes|]] + Chunks(bytes[|bytes|..])
  {
    assert bytes[cursor..|bytes|] == bytes[cursor..] && bytes[|bytes|..] == [];
  }

  /** How a write leaves the queue: as many blocks are pushed as there is room for. */
  ghost predicate Written(was: seq<Block>, now: seq<Block>, blocks: seq<Block>, blocked: bool) {
    var n := Min(|blocks|, QUEUE_CAPACITY - |was|);
    |was| <= QUEUE_CAPACITY && now == was + blocks[..n] && blocked == (n < |blocks|)
  }

  /** The bytes up to `cursor` are queued as the first `k` blocks. */
  ghost predicate Writing(was: seq<Block>, now: seq<Block>, bytes: seq<Byte>, cursor: nat, k: nat) {
    var blocks := Chunks(bytes);
    && cursor <= |bytes| && k <= |blocks|
    && now == was + blocks[..k] && blocks[k..] == Chunks(bytes[cursor..])
  }

  lemma WriteStarts(was: seq<Block>, bytes: seq<Byte>)
    ensures Writing(was, was, bytes, 0, 0)
  {
    assert bytes[0..] == bytes && Chunks(bytes)[0..] == Chunks(bytes);
  }

  lemma WroteBlock(was: seq<Block>, now: seq<Block>, bytes: seq<Byte>, cursor: nat, k: nat, size: nat)
    requires Writing(was, now, bytes, cursor, k) && cursor + size <= |bytes|
    requires Chunks(bytes[cursor..]) == [bytes[cursor..cursor + size]] + Chunks(bytes[cursor + size..])
    ensures Writing(was, now + [bytes[cursor..cursor + size]], bytes, cursor + size, k + 1)
  {
    hide Chunks;
    var blocks := Chunks(bytes);
    assert blocks[k] == blocks[k..][0] && blocks[k + 1..] == blocks[k..][1..];
  }

  lemma WroteWhole(was: seq<Block>, now: seq<Block>, bytes: seq<Byte>, cursor: nat, k: nat)
    requires Writing(was, now, bytes, cursor, k) && cursor + PACKET_SIZE <= |bytes|
    ensures Writing(was, now + [bytes[cursor..cursor + PACKET_SIZE]], bytes, cursor + PACKET_SIZE, k + 1)
  {
    WholeBlock(bytes, cursor);
    WroteBlock(was, now, bytes, cursor, k, PACKET_SIZE);
  }

  lemma WroteRest(was: seq<Block>, now: seq<Block>, bytes: seq<Byte>, cursor: nat, k: nat)
    requires Writing(was, now, bytes, cursor, k) && cursor < |bytes| < cursor + PACKET_SIZE
    ensures Writing(was, now + [bytes[cursor..|bytes|]], bytes, |bytes|, k + 1)
  {
    LastBlock(bytes, cursor);
    WroteBlock(was, now, bytes, cursor, k, |bytes| - cursor);
  }

  lemma WriteEnds(was: seq<Block>, now: seq<Block>, bytes: seq<Byte>, k: nat)
    requires Writing(was, now, bytes, |bytes|, k) && |now| <= QUEUE_CAPACITY
    ensures Written(was, now, Chunks(bytes), false)
  {
    assert bytes[|bytes|..] == [];
  }

  lemma WriteWaits(was: seq<Block>, now: seq<Block>, bytes: seq<Byte>, cursor: nat, k: nat)
    requires Writing(was, now, bytes, cursor, k) && cursor < |bytes| && |now| == QUEUE_CAPACITY
    ensures Written(was, now, Chunks(bytes), true)
  {
    assert Flat(Chunks(bytes[cursor..])) != [];
  }

  /** Pushes whole blocks while there are any, then the remainder. `blocked` when a push would wait
      for room: the blocks before it are then queued and the call has not returned. */
  method SocketWrite(queue: BlockQueue<Block>, bytes: seq<Byte>) returns (blocked: bool, written: nat)
    requires queue.Valid()
    modifies queue, queue.data
    ensures queue.Valid() && Written(old(queue.Contents()), queue.Contents(), Chunks(bytes), blocked)
    ensures !blocked ==> written == |bytes|
  {
    hide Writing, Written;
    ghost var was := queue.Contents();
    var wholeBlocks := |bytes| / PACKET_SIZE;
    var cursor, counter := 0, 0;
    WriteStarts(was, bytes);
    while counter < wholeBlocks
      invariant 0 <= counter <= wholeBlocks && cursor == counter * PACKET_SIZE <= |bytes|
      invariant queue.Valid() && Writing(was, queue.Contents(), bytes, cursor, counter)
    {
      if queue.size == QUEUE_CAPACITY {
        WriteWaits(was, queue.Contents(), bytes, cursor, counter);
        return true, cursor;
      }
      WroteWhole(was, queue.Contents(), bytes, cursor, counter);
      queue.PushChunk(bytes[cursor..cursor + PACKET_SIZE]);
      cursor := cursor + PACKET_SIZE;
      counter := counter + 1;
    }
    var finalLen := 0;
    if wholeBlocks * PACKET_SIZE < |bytes| {
      finalLen := |bytes| - wholeBlocks * PACKET_SIZE;
      if queue.size == QUEUE_CAPACITY {
        WriteWaits(was, queue.Contents(), bytes, cursor, counter);
        return true, cursor;
      }
      WroteRest(was, queue.Contents(), bytes, cursor, counter);
      queue.PushChunk(bytes[cursor..cursor + finalLen]);
      counter := counter + 1;
    }
    WriteEnds(was, queue.Contents(), bytes, counter);
    return false, wholeBlocks * PACKET_SIZE + finalLen;
  }

  // ---- gbn_socket_read ----

  /** A queued block with its IS_CLOSING flag; a closing block carries no data. */
  datatype Chunk = Chunk(data: Block, closing: bool)

  /** How a read of the given queue ends: it waits for a block that is not there, or it returns. */
  datatype ReadResult =
    | Blocked
    | Returned(bytes: seq<Byte>, rest: seq<Chunk>, offset: nat, closed: bool)

  function ReadRest(queue: seq<Chunk>, len: nat, got: seq<Byte>): ReadResult
    requires |got| <= len
    decreases |queue|
  {
    if |got| == len then Returned(got, queue, 0, false)
    else if queue == [] then Blocked
    else if queue[0].closing then Returned(got, queue, 0, true)
    else
      var b := queue[0].data;
      if |b| <= len - |got| then ReadRest(queue[1..], len, got + b)
      else Returned(got + b[..len - |got|], queue, len - |got|, false)
  }

  function ReadCall(queue: seq<Chunk>, offset: nat, len: nat): ReadResult
    requires queue != [] ==> offset <= |queue[0].data|
  {
    if queue == [] then Blocked
    else
      var n := Min(len, |queue[0].data| - offset);
      var copied := queue[0].data[..n];
      if n != len then ReadRest(queue[1..], len, copied)
      else Returned(copied, queue, offset + n, false)
  }

  /** Where the reading side of a socket stands. */
  class ReadSide {
    const queue: BlockQueue<Chunk>
    var currentBlockPtr: nat
    var closed: bool

    ghost predicate Valid()
      reads this, queue, queue.data
    {
      queue.Valid() && currentBlockPtr <= FirstSize(queue.Contents())
    }

    constructor (queue: BlockQueue<Chunk>)
      requires queue.Valid()
      ensures Valid() && this.queue == queue && currentBlockPtr == 0 && !closed
    {
      this.queue, currentBlockPtr, closed := queue, 0, false;
    }

    /** gbn_socket_read against the blocks that arrive before it returns; `blocked` when it would
        wait for one more. */
    method Read(len: nat) returns (blocked: bool, bytes: seq<Byte>)
      requires Valid()
      modifies this, queue
      ensures old(closed) ==> !blocked && bytes == [] && unchanged(this) && unchanged(queue)
      ensures !old(closed) ==>
        var r := ReadCall(old(queue.Contents()), old(currentBlockPtr), len);
        && blocked == r.Blocked?
        && (r.Returned? ==> bytes == r.bytes && Valid() && queue.Contents() == r.rest)
        && (r.Returned? ==> currentBlockPtr == r.offset && closed == r.closed)
    {
      if closed {
        return false, [];
      }
      if queue.size == 0 {
        return true, [];
      }
      var block := queue.PeekChunk();
      var n := Min(len, |block.data| - currentBlockPtr);
      bytes := block.data[..n];
      if n != len {
        var status := queue.PopChunk();
        currentBlockPtr := 0;
        blocked, bytes := ReadOn(len, bytes);
      } else {
        currentBlockPtr := currentBlockPtr + n;
        blocked := false;
      }
    }

    /** The loop of gbn_socket_read. */
    method ReadOn(len: nat, got: seq<Byte>) returns (blocked: bool, bytes: seq<Byte>)
      requires Valid() && |got| <= len && currentBlockPtr == 0 && !closed
      modifies this, queue
      ensures var r := ReadRest(old(queue.Contents()), len, got);
        && blocked == r.Blocked?
        && (r.Returned? ==> bytes == r.bytes && Valid() && queue.Contents() == r.rest)
        && (r.Returned? ==> currentBlockPtr == r.offset && closed == r.closed)
    {
      ghost var result := ReadRest(queue.Contents(), len, got);
      bytes := got;
      while |bytes| < len
        invariant |bytes| <= len && !closed && Valid()
        invariant |bytes| < len ==> currentBlockPtr == 0 && ReadRest(queue.Contents(), len, bytes) == result
        invariant |bytes| == len ==> result == Returned(bytes, queue.Contents(), currentBlockPtr, false)
        decreases |queue.Contents()|, len - |bytes|
      {
        if queue.size == 0 {
          return true, bytes;
        }
        var block := queue.PeekChunk();
        if block.closing {
          closed := true;
          return false, bytes;
        }
        if |block.data| <= len - |bytes| {
          bytes := bytes + block.data;
          var status := queue.PopChunk();
        } else {
          currentBlockPtr := len - |bytes|;
          bytes := bytes + block.data[..len - |bytes|];
        }
      }
      return false, bytes;
    }
  }

  function FirstSize(queue: seq<Chunk>): nat {
    if queue == [] then 0 else |queue[0].data|
  }

  /** The data before the closing block. */
  function Stream(queue: seq<Chunk>): seq<Byte> {
    if queue == [] || queue[0].closing then [] else queue[0].data + Stream(queue[1..])
  }

  function After(queue: seq<Chunk>, offset: nat): seq<Byte> {
    if offset <= |Stream(queue)| then Stream(queue)[offset..] else []
  }

  lemma {:induction false} ReadRestExact(queue: seq<Chunk>, len: nat, got: seq<Byte>)
    requires |got| <= len
    ensures var r := ReadRest(queue, len, got);
      r.Returned? ==>
        && got + Stream(queue) == r.bytes + After(r.rest, r.offset)
        && |r.bytes| <= len && (|r.bytes| == len || r.closed)
        && (r.closed ==> r.rest != [] && r.rest[0].closing && r.offset == 0)
    decreases |queue|
  {
    if |got| == len {
      assert After(queue, 0) == Stream(queue);
    } else if queue != [] && !queue[0].closing {
      var b := queue[0].data;
      var d := len - |got|;
      if |b| <= d {
        ReadRestExact(queue[1..], len, got + b);
        Regroup(got, b, Stream(queue[1..]));
      } else {
        Regroup(got, b[..d], Stream(queue)[d..]);
        assert b[..d] == Stream(queue)[..d];
        assert Stream(queue)[..d] + Stream(queue)[d..] == Stream(queue);
      }
    }
  }

  lemma CutStream(queue: seq<Chunk>, offset: nat, n: nat)
    requires queue != [] && !queue[0].closing && offset + n <= |queue[0].data|
    ensures After(queue, offset)
      == queue[0].data[offset..offset + n] + (queue[0].data[offset + n..] + Stream(queue[1..]))
  {
  }

  /** A returning read hands out exactly the next bytes of the stream, and leaves the rest, when it
      starts at a block boundary: offset zero, or a first block already used up. */
  lemma ReadExact(queue: seq<Chunk>, offset: nat, len: nat)
    requires queue != [] && !queue[0].closing && offset <= |queue[0].data|
    requires offset == 0 || Min(len, |queue[0].data| - offset) == 0
    ensures var r := ReadCall(queue, offset, len);
      r.Returned? ==>
        && After(queue, offset) == r.bytes + After(r.rest, r.offset)
        && |r.bytes| <= len && (|r.bytes| == len || r.closed)
  {
    hide Stream, After, ReadRest;
    var b := queue[0].data;
    var n := Min(len, |b| - offset);
    assert b[offset..offset + n] == b[..n];
    CutStream(queue, offset, n);
    if n != len {
      ReadRestExact(queue[1..], len, b[..n]);
      assert b[offset + n..] + Stream(queue[1..]) == Stream(queue[1..]);
    } else {
      CutStream(queue, offset + n, 0);
    }
  }

  // ---- Exactly which reads are right ----

  /** A read that returns hands out the next bytes of the stream and leaves the rest. */
  predicate ReadRight(queue: seq<Chunk>, offset: nat, len: nat)
    requires queue != [] ==> offset <= |queue[0].data|
  {
    var r := ReadCall(queue, offset, len);
    r.Returned? ==> After(queue, offset) == r.bytes + After(r.rest, r.offset)
  }

  lemma {:induction false} ReadRestKeeps(queue: seq<Chunk>, len: nat, got: seq<Byte>)
    requires |got| <= len
    ensures var r := ReadRest(queue, len, got); r.Returned? ==> got <= r.bytes
    decreases |queue|
  {
    if |got| < len && queue != [] && !queue[0].closing && |queue[0].data| <= len - |got| {
      ReadRestKeeps(queue[1..], len, got + queue[0].data);
    }
  }

  /** Whether a read waits depends on lengths only. */
  lemma {:induction false} ReadRestWaits(queue: seq<Chunk>, len: nat, a: seq<Byte>, b: seq<Byte>)
    requires |a| == |b| <= len
    ensures ReadRest(queue, len, a).Blocked? == ReadRest(queue, len, b).Blocked?
    decreases |queue|
  {
    if |a| < len && queue != [] && !queue[0].closing && |queue[0].data| <= len - |a| {
      ReadRestWaits(queue[1..], len, a + queue[0].data, b + queue[0].data);
    }
  }

  function WithFirst(queue: seq<Chunk>, b: Block): seq<Chunk>
    requires queue != []
  {
    [Chunk(b, false)] + queue[1..]
  }

  lemma SameWait(queue: seq<Chunk>, offset: nat, len: nat, b: Block)
    requires queue != [] && offset <= |queue[0].data| == |b|
    ensures ReadCall(WithFirst(queue, b), offset, len).Blocked? == ReadCall(queue, offset, len).Blocked?
  {
    var n := Min(len, |b| - offset);
    assert WithFirst(queue, b)[1..] == queue[1..];
    if n != len { ReadRestWaits(queue[1..], len, b[..n], queue[0].data[..n]); }
  }

  lemma FirstByteReturned(queue: seq<Chunk>, offset: nat, len: nat)
    requires queue != [] && offset <= |queue[0].data| && Min(len, |queue[0].data| - offset) > 0
    ensures var r := ReadCall(queue, offset, len); r.Returned? ==> r.bytes != [] && r.bytes[0] == queue[0].data[0]
  {
    var n := Min(len, |queue[0].data| - offset);
    if n != len { ReadRestKeeps(queue[1..], len, queue[0].data[..n]); }
  }

  /** A returning read that starts inside a block returns the block's first byte. */
  lemma ReadRepeats(queue: seq<Chunk>, offset: nat, len: nat)
    requires queue != [] && !queue[0].closing && offset <= |queue[0].data|
    requires Min(len, |queue[0].data| - offset) > 0 && queue[0].data[offset] != queue[0].data[0]
    ensures ReadCall(queue, offset, len).Returned? ==> !ReadRight(queue, offset, len)
  {
    hide Stream, After, ReadRest, ReadCall;
    var b := queue[0].data;
    var r := ReadCall(queue, offset, len);
    if r.Returned? {
      FirstByteReturned(queue, offset, len);
      CutStream(queue, offset, Min(len, |b| - offset));
      assert After(queue, offset)[0] == b[offset];
      assert (r.bytes + After(r.rest, r.offset))[0] == b[0];
    }
  }

  /** Exactly when a read is right whatever its first block holds: it starts at offset zero, or
      copies nothing from that block, or does not return. */
  lemma ReadCallExact(queue: seq<Chunk>, offset: nat, len: nat)
    requires queue != [] && !queue[0].closing && offset <= |queue[0].data|
    ensures (forall b: Block | |b| == |queue[0].data| :: ReadRight(WithFirst(queue, b), offset, len))
       <==> offset == 0 || Min(len, |queue[0].data| - offset) == 0 || ReadCall(queue, offset, len).Blocked?
  {
    var size := |queue[0].data|;
    if offset == 0 || Min(len, size - offset) == 0 || ReadCall(queue, offset, len).Blocked? {
      forall b: Block | |b| == size ensures ReadRight(WithFirst(queue, b), offset, len) {
        SameWait(queue, offset, len, b);
        if ReadCall(queue, offset, len).Returned? { ReadExact(WithFirst(queue, b), offset, len); }
      }
    } else {
      var b: Block := seq(size, i => if i == 0 then 1 else 0);
      SameWait(queue, offset, len, b);
      ReadRepeats(WithFirst(queue, b), offset, len);
    }
  }

  predicate Ends(queue: seq<Chunk>) {
    exists i :: 0 <= i < |queue| && queue[i].closing
  }

  lemma {:induction false} RestReturns(queue: seq<Chunk>, len: nat, got: seq<Byte>)
    requires |got| <= len && Ends(queue)
    ensures ReadRest(queue, len, got).Returned?
    decreases |queue|
  {
    if |got| < len && !queue[0].closing && |queue[0].data| <= len - |got| {
      var i :| 0 <= i < |queue| && queue[i].closing;
      assert queue[1..][i - 1].closing;
      RestReturns(queue[1..], len, got + queue[0].data);
    }
  }

  /** The closing flag is not tested on the first block. On a stream whose last block closes it, a
      read waits for ever exactly when that last block is already the first one. */
  lemma ReadHangsExactly(queue: seq<Chunk>, offset: nat, len: nat)
    requires queue != [] && offset <= |queue[0].data| && len > 0
    requires queue[|queue| - 1] == Chunk([], true) && forall i | 0 <= i < |queue| - 1 :: !queue[i].closing
    ensures ReadCall(queue, offset, len) == Blocked <==> |queue| == 1
  {
    if |queue| > 1 {
      assert queue[1..][|queue| - 2].closing;
      var n := Min(len, |queue[0].data| - offset);
      if n != len { RestReturns(queue[1..], len, queue[0].data[..n]); }
    }
  }

  /** A user who has read a block to its last byte, and no further, learns the end of the stream from the
      next read: the used-up block stays in front of the closing one. */
  lemma EndAfterLastByte(b: Block, len: nat)
    requires b != [] && len > 0
    ensures var queue := [Chunk(b, false), Chunk([], true)]; var r := ReadCall(queue, 0, |b|);
      && r.Returned? && r.bytes == b && !r.closed && r.rest != [] && r.offset <= |r.rest[0].data|
      && ReadCall(r.rest, r.offset, len) == Returned([], [Chunk([], true)], 0, true)
  {
    var queue := [Chunk(b, false), Chunk([], true)];
    assert b[..|b|] == b && b[..0] == [] && queue[1..] == [Chunk([], true)];
  }

  // ---- The step system reads as the method does ----

  function Open(queue: seq<Block>): seq<Chunk> {
    seq(|queue|, i requires 0 <= i < |queue| => Chunk(queue[i], false))
  }

  /** The turns of the read loop that need no further block to arrive. */
  function Finish(u: User): User
    decreases |u.queue|, if u.state.Reading? then 1 else 0
  {
    if u.state.Reading? && u.queue != [] && |u.state.got| < u.state.len then Finish(ReadNext(u)) else u
  }

  lemma {:induction false} FinishIsRest(u: User)
    requires u.state.Reading? && |u.state.got| < u.state.len && u.offset == 0
    ensures var r := ReadRest(Open(u.queue), u.state.len, u.state.got);
      if r.Blocked? then Finish(u).state.Reading? && Finish(u).queue == []
      else Finish(u).state.Idle? && Open(Finish(u).queue) == r.rest && Finish(u).offset == r.offset
           && Finish(u).returned == u.returned + r.bytes
    decreases |u.queue|
  {
    if u.queue != [] {
      var b := u.queue[0];
      assert Open(u.queue)[0] == Chunk(b, false) && Open(u.queue)[1..] == Open(u.queue[1..]);
      assert u.returned + u.state.got + b == u.returned + (u.state.got + b);
      if |b| < u.state.len - |u.state.got| {
        FinishIsRest(ReadNext(u));
      }
    }
  }

  /** Taken one turn at a time by the step system, a read returns what the whole call returns. */
  lemma ReadStepsAreCall(u: User, len: nat)
    requires u.state.Idle? && u.queue != [] && u.offset <= |u.queue[0]|
    ensures var r := ReadCall(Open(u.queue), u.offset, len); var v := Finish(ReadFirst(u, len));
      if r.Blocked? then v.state.Reading? && v.queue == []
      else v.state.Idle? && Open(v.queue) == r.rest && v.offset == r.offset && v.returned == u.returned + r.bytes
  {
    assert Open(u.queue)[0] == Chunk(u.queue[0], false) && Open(u.queue)[1..] == Open(u.queue[1..]);
    var v := ReadFirst(u, len);
    if v.state.Reading? { FinishIsRest(v); }
  }
}
