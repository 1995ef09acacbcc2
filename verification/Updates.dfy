/** Whole runs of one router: whatever packets arrive, in whatever order, its rows stay exact. */
module Updates {
  import opened Prelude
  import opened LinkState
  import opened ShortestPath

  // ---- What deciding on and storing a packet does ----

  /** For newer packets the check is meant to detect changed contents. It does so exactly when
      the lengths differ, or the first entries differ, or the remaining entries agree too. */
  lemma UpdateCheckExact(stored: Packet, incoming: Packet)
    requires incoming.seqNum > stored.seqNum
    ensures (PacketHasUpdate(stored, incoming) <==> incoming.links != stored.links)
       <==> || |incoming.links| != |stored.links|
            || (|incoming.links| > 0
                && (incoming.links[0] != stored.links[0] || incoming.links[1..] == stored.links[1..]))
  {
    if |incoming.links| == |stored.links| > 0 && incoming.links[0] == stored.links[0] {
      assert incoming.links == [incoming.links[0]] + incoming.links[1..];
      assert stored.links == [stored.links[0]] + stored.links[1..];
    }
  }

  /** A concrete loss: a packet that reports a new cost for a second link is discarded, and the
      router keeps the old cost. */
  lemma UpdateCheckMissesChange()
    ensures exists r: Router, p: Packet ::
      && DistinctNeighbors(r.nbrs) && DistinctRows(r)
      && PacketOf(r, p.origin).Some? && p.seqNum > PacketOf(r, p.origin).value.seqNum
      && p.links != Out(r, p.origin)
      && !Accepts(r, p) && Out(Update(r, p), p.origin) == Out(r, p.origin)
  {
    var stale := Packet(2, 1, [Link(1, 1), Link(3, 5)]);
    var fresher := Packet(2, 2, [Link(1, 1), Link(3, 9)]);
    var e := Entry(2, 0, 1, Some(stale));
    var r := Router(1, 0, [Link(2, 1)], [e]);
    assert IndexOf(r.dests, 2) == 0;
    assert PacketOf(r, 2) == Some(stale);
    assert fresher.links[1] != stale.links[1];
    assert !PacketHasUpdate(stale, fresher);
    assert Discard(r, fresher).dests == r.dests;
    assert Out(Update(r, fresher), 2) == Out(r, 2);
  }

  lemma StoreEffect(r: Router, p: Packet)
    requires DistinctRows(r) && Accepts(r, p)
    ensures var s := Store(r, p).value;
      && s.id == r.id && s.nbrs == r.nbrs && s.seqNum == r.seqNum && DistinctRows(s)
      && PacketOf(s, p.origin) == Some(p) && p.origin != r.id
      && (forall n | n != p.origin :: PacketOf(s, n) == PacketOf(r, n) && CostOf(s, n) == CostOf(r, n))
      && (forall n | IndexOf(r.dests, n) >= 0 :: IndexOf(s.dests, n) == IndexOf(r.dests, n))
  {
    forall n: Node
      ensures IndexOf(r.dests, n) >= 0 ==> IndexOf(Store(r, p).value.dests, n) == IndexOf(r.dests, n)
      ensures n != p.origin ==> IndexOf(Store(r, p).value.dests, n) == IndexOf(r.dests, n)
    {
      StoreIndex(r, p, n);
    }
    StoreIndex(r, p, p.origin);
  }

  lemma StoreIndex(r: Router, p: Packet, n: Node)
    requires Accepts(r, p)
    ensures var s := Store(r, p).value; var i := IndexOf(r.dests, n);
      IndexOf(s.dests, n) == if i < 0 && n == p.origin then |r.dests| else i
  {
    var s := Store(r, p).value;
    if IndexOf(r.dests, p.origin) < 0 {
      assert s.dests[..|s.dests| - 1] == r.dests;
    } else {
      IndexIgnoresContents(r.dests, s.dests, n);
    }
  }

  /** Discarding a packet changes nothing a router computes with. */
  lemma DiscardEffect(r: Router, p: Packet)
    ensures var d := Discard(r, p);
      && d.id == r.id && d.nbrs == r.nbrs && d.seqNum == r.seqNum && |d.dests| == |r.dests|
      && Known(d) == Known(r)
      && (forall n :: IndexOf(d.dests, n) == IndexOf(r.dests, n))
      && (forall k | 0 <= k < |r.dests| :: d.dests[k] == r.dests[k].(packet := d.dests[k].packet))
  {
    var d := Discard(r, p);
    forall n: Node ensures IndexOf(d.dests, n) == IndexOf(r.dests, n) && Out(d, n) == Out(r, n) {
      IndexIgnoresContents(r.dests, d.dests, n);
    }
  }

  /** What the router then knows: a newer packet replaces what its origin reported exactly when the
      lengths differ, or both are empty, or the first entries differ, or the remaining ones agree. */
  lemma NewestKnownExact(r: Router, p: Packet)
    requires DistinctNeighbors(r.nbrs) && DistinctRows(r) && p.origin != r.id
    requires PacketOf(r, p.origin).Some? && p.seqNum > PacketOf(r, p.origin).value.seqNum
    ensures var was := PacketOf(r, p.origin).value.links;
      Out(Update(r, p), p.origin) == p.links
      <==> || |p.links| != |was| || |p.links| == 0
           || p.links[0] != was[0] || p.links[1..] == was[1..]
  {
    var stored := PacketOf(r, p.origin).value;
    if Accepts(r, p) {
      var s := Store(r, p).value;
      StoreEffect(r, p);
      SelfSettled(s);
      SettleAllInv(s, [s.id]);
      assert PacketOf(Update(r, p), p.origin) == Some(p);
    } else {
      DiscardEffect(r, p);
      assert Out(Update(r, p), p.origin) == Known(Update(r, p))[p.origin];
      assert Out(r, p.origin) == Known(r)[p.origin] == stored.links;
      assert p.links == [p.links[0]] + p.links[1..] && stored.links == [stored.links[0]] + stored.links[1..];
    }
  }

  /** An old packet, overtaken or repeated, is discarded and changes nothing. */
  lemma OldDiscarded(r: Router, p: Packet)
    requires PacketOf(r, p.origin).Some? && p.seqNum <= PacketOf(r, p.origin).value.seqNum
    ensures !Accepts(r, p) && Update(r, p) == r
  {
    assert Discard(r, p).dests == r.dests;
  }

  /** A router keeps the first packet of every other router, and never one of its own; only for a router
      that already has a row must the sequence number be positive. */
  lemma FirstKept(r: Router, p: Packet)
    requires DistinctNeighbors(r.nbrs) && DistinctRows(r) && PacketOf(r, p.origin).None?
    ensures Accepts(r, p) <==> p.origin != r.id && (IndexOf(r.dests, p.origin) == -1 || p.seqNum > 0)
    ensures Accepts(r, p) ==> PacketOf(Update(r, p), p.origin) == Some(p)
    ensures p.origin == r.id ==> Update(r, p) == r
  {
    if Accepts(r, p) {
      var s := Store(r, p).value;
      StoreEffect(r, p);
      SelfSettled(s);
      SettleAllInv(s, [s.id]);
    }
  }

  // ---- The invariant of a run ----

  ghost predicate Exact(r: Router, order: seq<Node>) {
    SettleInv(r, order) && Exhausted(r, order)
  }

  /** The rows are those the settle loop leaves for what the router knows now. */
  ghost predicate Sound(r: Router) {
    && DistinctNeighbors(r.nbrs)
    && DistinctRows(r)
    && exists order :: Exact(r, order)
  }

  lemma InitialSound(r: Router)
    requires DistinctNeighbors(r.nbrs) && r.dests == []
    ensures Sound(r)
  {
    SelfSettled(r);
    assert Exact(r, [r.id]);
  }

  lemma ExactIgnoresPackets(r: Router, d: Router, order: seq<Node>)
    requires Exact(r, order)
    requires d.id == r.id && d.nbrs == r.nbrs && |d.dests| == |r.dests| && Known(d) == Known(r)
    requires forall n :: IndexOf(d.dests, n) == IndexOf(r.dests, n)
    requires forall k | 0 <= k < |r.dests| :: d.dests[k] == r.dests[k].(packet := d.dests[k].packet)
    ensures Exact(d, order)
  {
    assert forall n :: CostOf(d, n) == CostOf(r, n);
    forall n: Node ensures Out(d, n) == Out(r, n) {
      assert Out(d, n) == Known(d)[n] && Out(r, n) == Known(r)[n];
    }
    forall k | 1 <= k < |order| ensures RowAttained(d, order[k]) {
      var n := order[k];
      assert RowAttained(r, n);
      var e := r.dests[IndexOf(r.dests, n)];
      var w :| IsRoute(r, e.gateway, n, e.cost, w);
      assert IsRoute(d, e.gateway, n, e.cost, w);
    }
  }

  /** Processing any packet, kept or discarded, leaves the rows exact for what is then known. */
  lemma UpdateSound(r: Router, p: Packet)
    requires Sound(r)
    ensures Sound(Update(r, p))
    ensures var r' := Update(r, p);
      && r'.id == r.id && r'.nbrs == r.nbrs && r'.seqNum == r.seqNum
      && (Accepts(r, p) ==> forall n :: PacketOf(r', n) == if n == p.origin then Some(p) else PacketOf(r, n))
      && (forall n | IndexOf(r.dests, n) >= 0 :: IndexOf(r'.dests, n) >= 0)
      && (forall n | n != p.origin || !Accepts(r, p) :: Out(r', n) == Out(r, n))
  {
    var r' := Update(r, p);
    if Accepts(r, p) {
      var s := Store(r, p).value;
      StoreEffect(r, p);
      SelfSettled(s);
      SettleAllInv(s, [s.id]);
      assert Exact(r', SettleAll(s, [s.id]).order);
    } else {
      DiscardEffect(r, p);
      var order :| Exact(r, order);
      ExactIgnoresPackets(r, r', order);
      forall n: Node ensures Out(r', n) == Out(r, n) {
        assert Out(r', n) == Known(r')[n] && Out(r, n) == Known(r)[n];
      }
    }
  }

  function Process(r: Router, packets: seq<Packet>): Router {
    if packets == [] then r
    else Update(Process(r, packets[..|packets| - 1]), packets[|packets| - 1])
  }

  /** After any packets, in any order, the rows are those the settle loop leaves. */
  lemma {:induction false} EveryRunExact(r: Router, packets: seq<Packet>)
    requires DistinctNeighbors(r.nbrs) && r.dests == []
    ensures Sound(Process(r, packets))
    ensures Process(r, packets).id == r.id && Process(r, packets).nbrs == r.nbrs
  {
    if packets == [] {
      InitialSound(r);
    } else {
      var before := packets[..|packets| - 1];
      EveryRunExact(r, before);
      UpdateSound(Process(r, before), packets[|packets| - 1]);
    }
  }

  /** What is stored of an origin is only ever replaced by something strictly newer. */
  lemma OnlyNewer(r: Router, p: Packet, o: Node)
    requires Sound(r) && PacketOf(r, o).Some?
    ensures var was, now := PacketOf(r, o).value, PacketOf(Update(r, p), o);
      now == Some(was) || (p.origin == o && now == Some(p) && p.seqNum > was.seqNum)
  {
    UpdateSound(r, p);
    if !Accepts(r, p) {
      DiscardEffect(r, p);
    }
  }

  /** Over any packets in any order, repeated ones and overtaken ones included, the sequence number
      stored for an origin never falls. */
  lemma {:induction false} SeqNumNeverFalls(r: Router, packets: seq<Packet>, i: nat, o: Node)
    requires DistinctNeighbors(r.nbrs) && r.dests == [] && i <= |packets|
    requires PacketOf(Process(r, packets[..i]), o).Some?
    ensures var was, now := PacketOf(Process(r, packets[..i]), o).value, PacketOf(Process(r, packets), o);
      now == Some(was) || (now.Some? && now.value in packets[i..] && now.value.seqNum > was.seqNum)
    decreases |packets|
  {
    hide Update, Sound, PacketOf;
    if i == |packets| {
      assert packets[..i] == packets;
    } else {
      var n := |packets| - 1;
      var before := packets[..n];
      assert before[..i] == packets[..i] && packets[i..] == before[i..] + [packets[n]];
      SeqNumNeverFalls(r, before, i, o);
      EveryRunExact(r, before);
      OnlyNewer(Process(r, before), packets[n], o);
    }
  }

  /** What a finite row of a sound router means: no known walk to the destination is cheaper
      than the row of a settled node. */
  lemma SoundRowMinimal(r: Router, order: seq<Node>, n: Node)
    requires Exact(r, order) && n in order && n != r.id
    ensures RowAttained(r, n)
    ensures forall w | IsWalk(Known(r), r.id, w) && End(r.id, w) == n :: CostOf(r, n) <= Length(w)
  {
    var k :| 0 <= k < |order| && order[k] == n;
    assert RowAttained(r, n);
    forall w | IsWalk(Known(r), r.id, w) && End(r.id, w) == n ensures CostOf(r, n) <= Length(w) {
      SettledRowsOptimal(r, order, w);
    }
  }

  /** Once some row exists, a reachable destination with a row is settled. */
  lemma ReachableRowSettled(r: Router, order: seq<Node>, n: Node, w: seq<Link>)
    requires Exact(r, order) && DistinctRows(r) && IndexOf(r.dests, n) >= 0
    requires IsWalk(Known(r), r.id, w) && End(r.id, w) == n
    ensures n in order
  {
    SettledSetOnExit(r, order);
  }

  /** Main result for one router: whatever packets it processed, its settled rows hold the exact
      minimum costs over the known graph, attained through their gateways; nodes settled by
      non-decreasing cost, nothing unsettled is nearer, and the settled nodes are either all rows or
      all that can be reached. */
  lemma RunRowsOptimal(r: Router, packets: seq<Packet>) returns (order: seq<Node>)
    requires DistinctNeighbors(r.nbrs) && r.dests == []
    ensures var s := Process(r, packets);
      && order != [] && order[0] == r.id && Distinct(order)
      && (forall n | n in order && n != r.id :: RowAttained(s, n))
      && (forall w | IsWalk(Known(s), r.id, w) && End(r.id, w) in order :: CostOf(s, End(r.id, w)) <= Length(w))
      && (forall w, n | IsWalk(Known(s), r.id, w) && End(r.id, w) !in order && n in order :: CostOf(s, n) <= Length(w))
      && (forall j, k | 0 <= j <= k < |order| :: CostOf(s, order[j]) <= CostOf(s, order[k]))
      && (|| (forall n: Node :: n in order <==> n == r.id || IndexOf(s.dests, n) >= 0)
          || (forall n: Node :: n in order <==> exists w :: IsWalk(Known(s), r.id, w) && End(r.id, w) == n))
  {
    var s := Process(r, packets);
    EveryRunExact(r, packets);
    order :| Exact(s, order);
    SettledSetOnExit(s, order);
    forall n | n in order && n != r.id ensures RowAttained(s, n) {
      SoundRowMinimal(s, order, n);
    }
    forall w | IsWalk(Known(s), r.id, w)
      ensures End(r.id, w) in order ==> CostOf(s, End(r.id, w)) <= Length(w)
      ensures End(r.id, w) !in order ==> forall n | n in order :: CostOf(s, n) <= Length(w)
    {
      SettledRowsOptimal(s, order, w);
    }
  }
}
