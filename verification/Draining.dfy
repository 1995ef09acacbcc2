/** Flooding comes to rest: between broadcasts only boundedly many packets are read, and once every
    router has broadcast, reading what is in flight leaves all routers in agreement. */
module Draining {
  import opened Prelude
  import opened LinkState
  import opened ShortestPath
  import opened Updates
  import opened Flooding

  /** Packets in flight report at least the link they were written to. */
  ghost predicate Lively(s: Net) {
    forall m | m in s.wires :: m.packet.links != []
  }

  lemma StepLively(s: Net, e: Event)
    requires Lively(s) && Enabled(s, e)
    ensures Lively(Next(s, e))
  {
    match e
    case Broadcast(n) =>
      var r := s.routers[n].(seqNum := s.routers[n].seqNum + 1);
      var p := Packet(n, r.seqNum, r.nbrs);
      forall m | m in Next(s, e).wires ensures m.packet.links != [] {
        CopiesExact(n, r.nbrs, p, None, m);
      }
    case Deliver(m) =>
      var r := s.routers[m.dst];
      forall x | x in Next(s, e).wires ensures x.packet.links != [] {
        CopiesExact(m.dst, r.nbrs, m.packet, Some(m.src), x);
      }
  }

  lemma RunLively(t: Graph, events: seq<Event>, states: seq<Net>)
    requires IsRun(t, events, states)
    ensures forall i | 0 <= i < |states| :: Lively(states[i])
  {
    var i := 0;
    while i < |events|
      invariant 0 <= i <= |events|
      invariant forall j | 0 <= j <= i :: Lively(states[j])
    {
      StepLively(states[i], events[i]);
      i := i + 1;
    }
  }

  // ---- The measure: pairs of a router and an origin it stores nothing of, and packets in flight ----

  ghost function Missing(t: Graph, s: Net): set<(Node, Node)> {
    set n, o | n in t && o in t && n in s.routers && PacketOf(s.routers[n], o).None? :: (n, o)
  }

  ghost function Measure(t: Graph, s: Net): nat {
    |s.wires| + NODE_LIMIT * |Missing(t, s)|
  }

  /** In a network whose tables do not change, a router keeps a packet of each origin only once. */
  lemma AcceptsOnce(t: Graph, s: Net, m: Message)
    requires NetInv(t, s) && Lively(s) && Enabled(s, Deliver(m)) && Accepts(s.routers[m.dst], m.packet)
    ensures (m.dst, m.packet.origin) in Missing(t, s)
  {
    var r, o := s.routers[m.dst], m.packet.origin;
    assert WireOk(t, s, m);
    assert Honest(t, m.dst, r);
    if PacketOf(r, o).Some? {
      assert false;
    }
  }

  lemma UpdateKeepsPackets(r: Router, p: Packet, o: Node)
    requires Sound(r) && PacketOf(r, o).Some?
    ensures PacketOf(Update(r, p), o).Some?
  {
    if Accepts(r, p) {
      UpdateSound(r, p);
    } else {
      DiscardEffect(r, p);
    }
  }

  lemma UpdateStores(r: Router, p: Packet)
    requires Sound(r) && Accepts(r, p)
    ensures PacketOf(Update(r, p), p.origin).Some?
  {
    UpdateSound(r, p);
  }

  lemma MissingFalls(t: Graph, s: Net, m: Message)
    requires NetInv(t, s) && Lively(s) && Enabled(s, Deliver(m))
    ensures var s' := Next(s, Deliver(m));
      |Missing(t, s')| <= |Missing(t, s)| - (if Accepts(s.routers[m.dst], m.packet) then 1 else 0)
  {
    var s', pair := Next(s, Deliver(m)), (m.dst, m.packet.origin);
    assert WireOk(t, s, m);
    assert RouterOk(t, m.dst, s.routers[m.dst]);
    forall x | x in Missing(t, s') ensures x in Missing(t, s) {
      if x.0 == m.dst && PacketOf(s.routers[m.dst], x.1).Some? {
        UpdateKeepsPackets(s.routers[m.dst], m.packet, x.1);
      }
    }
    if Accepts(s.routers[m.dst], m.packet) {
      AcceptsOnce(t, s, m);
      UpdateStores(s.routers[m.dst], m.packet);
      SubsetCardinality(Missing(t, s'), Missing(t, s) - {pair});
    } else {
      SubsetCardinality(Missing(t, s'), Missing(t, s));
    }
  }

  lemma {:induction false} CopiesFew(n: Node, links: seq<Link>, p: Packet, skip: Option<Node>)
    ensures |Copies(n, links, p, skip)| <= |links|
  {
    if links != [] {
      CopiesFew(n, links[1..], p, skip);
    }
  }

  lemma NeighborsFew(nbrs: seq<Link>)
    requires DistinctNeighbors(nbrs)
    ensures |nbrs| <= NODE_LIMIT
  {
    var ids: seq<Node> := seq(|nbrs|, i requires 0 <= i < |nbrs| => nbrs[i].dest);
    DistinctNodes(ids);
  }

  /** Every packet read brings the network closer to rest, re-flooding included. */
  lemma DeliverDrops(t: Graph, s: Net, m: Message)
    requires WellFormed(t) && NetInv(t, s) && Lively(s) && Enabled(s, Deliver(m))
    ensures Measure(t, Next(s, Deliver(m))) < Measure(t, s)
  {
    var r := s.routers[m.dst];
    assert WireOk(t, s, m) && Honest(t, m.dst, r) && NodeOk(t, m.dst);
    MissingFalls(t, s, m);
    CopiesFew(m.dst, r.nbrs, m.packet, Some(m.src));
    NeighborsFew(r.nbrs);
  }

  // ---- Reading what is in flight ----

  ghost predicate Delivered(s: Net, events: seq<Event>, u: Net)
    decreases |events|
  {
    if events == [] then s == u
    else events[0].Deliver? && Enabled(s, events[0]) && Delivered(Next(s, events[0]), events[1..], u)
  }

  /** Between broadcasts no more packets can be read than the measure allows. */
  lemma {:induction false} DeliveriesBounded(t: Graph, s: Net, events: seq<Event>, u: Net)
    requires WellFormed(t) && NetInv(t, s) && Lively(s) && Delivered(s, events, u)
    ensures NetInv(t, u) && Lively(u)
    ensures |events| + Measure(t, u) <= Measure(t, s)
    decreases |events|
  {
    if events != [] {
      StepInv(t, s, events[0]);
      StepLively(s, events[0]);
      DeliverDrops(t, s, events[0].message);
      DeliveriesBounded(t, Next(s, events[0]), events[1..], u);
    }
  }

  /** Reading one packet keeps the invariant and every router's own sequence number. */
  lemma DeliverKeeps(t: Graph, s: Net, m: Message)
    requires WellFormed(t) && NetInv(t, s) && Lively(s) && m in s.wires
    ensures var e := Deliver(m);
      && Enabled(s, e) && NetInv(t, Next(s, e)) && Lively(Next(s, e))
      && Next(s, e).routers.Keys == s.routers.Keys
      && forall n | n in s.routers :: Next(s, e).routers[n].seqNum == s.routers[n].seqNum
  {
    assert WireOk(t, s, m);
    assert RouterOk(t, m.dst, s.routers[m.dst]);
    StepInv(t, s, Deliver(m));
    StepLively(s, Deliver(m));
    UpdateSound(s.routers[m.dst], m.packet);
  }

  /** Reading whatever is in flight, in any order, empties the wires. */
  lemma {:induction false} Drains(t: Graph, s: Net) returns (events: seq<Event>, u: Net)
    requires WellFormed(t) && NetInv(t, s) && Lively(s)
    ensures Delivered(s, events, u) && u.wires == multiset{} && u.routers.Keys == s.routers.Keys
    ensures forall n | n in s.routers :: u.routers[n].seqNum == s.routers[n].seqNum
    decreases Measure(t, s)
  {
    hide NetInv, Lively, Next, Measure;
    if s.wires == multiset{} {
      events, u := [], s;
    } else {
      var m :| m in s.wires;
      DeliverKeeps(t, s, m);
      DeliverDrops(t, s, m);
      var rest;
      rest, u := Drains(t, Next(s, Deliver(m)));
      events := [Deliver(m)] + rest;
      assert events[1..] == rest;
    }
  }

  /** From any reachable state of a connected network in which every router has broadcast, flooding
      finishes: every way of reading what is in flight is bounded, one exists that leaves nothing in
      flight, and whenever nothing is left all routers know the whole topology. */
  lemma FloodingFinishes(t: Graph, events: seq<Event>, states: seq<Net>)
    requires WellFormed(t) && Connected(t) && IsRun(t, events, states)
    requires forall n | n in t && n in states[|events|].routers :: states[|events|].routers[n].seqNum > 0
    ensures var s := states[|events|];
      && (forall more, u | Delivered(s, more, u) :: |more| <= Measure(t, s))
      && (exists more, u :: Delivered(s, more, u) && Quiet(u))
      && (forall more, u | Delivered(s, more, u) && Quiet(u) :: Agreed(t, u))
  {
    var s := states[|events|];
    RunInv(t, events, states);
    RunLively(t, events, states);
    forall more, u | Delivered(s, more, u) ensures |more| <= Measure(t, s) && (Quiet(u) ==> Agreed(t, u)) {
      DeliveriesBounded(t, s, more, u);
      if Quiet(u) { QuietAgrees(t, u); }
    }
    var more, u := Drains(t, s);
    assert Delivered(s, more, u) && Quiet(u);
  }
}
