/** Sequence numbers over whole runs of the network: no packet is newer than its origin's counter, a
    broadcast is newer than everything known of its origin, and no router goes back to an older packet. */
module Freshness {
  import opened Prelude
  import opened LinkState
  import opened ShortestPath
  import opened Updates
  import opened Flooding

  ghost predicate NotNewer(s: Net, p: Packet) {
    p.origin in s.routers && p.seqNum <= s.routers[p.origin].seqNum
  }

  /** Neither in flight nor stored anywhere is a packet that its origin has not sent yet. */
  ghost predicate NoneNewer(s: Net) {
    && (forall m | m in s.wires :: NotNewer(s, m.packet))
    && (forall n, o | n in s.routers && PacketOf(s.routers[n], o).Some? ::
         NotNewer(s, PacketOf(s.routers[n], o).value))
  }

  lemma BroadcastNoneNewer(t: Graph, s: Net, n: Node)
    requires NetInv(t, s) && NoneNewer(s) && Enabled(s, Broadcast(n))
    ensures NoneNewer(Next(s, Broadcast(n)))
  {
    var s', r := Next(s, Broadcast(n)), s.routers[n];
    forall m | m in s'.wires ensures NotNewer(s', m.packet) {
      CopiesExact(n, r.nbrs, Packet(n, r.seqNum + 1, r.nbrs), None, m);
      if m in s.wires { assert NotNewer(s, m.packet); }
    }
    forall a, o | a in s'.routers && PacketOf(s'.routers[a], o).Some?
      ensures NotNewer(s', PacketOf(s'.routers[a], o).value)
    {
      assert PacketOf(s'.routers[a], o) == PacketOf(s.routers[a], o);
      assert NotNewer(s, PacketOf(s.routers[a], o).value);
    }
  }

  lemma StoresOne(t: Graph, s: Net, m: Message)
    requires NetInv(t, s) && Enabled(s, Deliver(m))
    ensures Update(s.routers[m.dst], m.packet).seqNum == s.routers[m.dst].seqNum
    ensures forall o :: var now := PacketOf(Update(s.routers[m.dst], m.packet), o);
      now == PacketOf(s.routers[m.dst], o) || now == Some(m.packet)
  {
    var r := s.routers[m.dst];
    assert WireOk(t, s, m) && RouterOk(t, m.dst, r);
    UpdateSound(r, m.packet);
    if !Accepts(r, m.packet) { DiscardedIsKnown(t, m.dst, r, m.packet); }
  }

  lemma DeliverNoneNewer(t: Graph, s: Net, m: Message)
    requires NetInv(t, s) && NoneNewer(s) && Enabled(s, Deliver(m))
    ensures NoneNewer(Next(s, Deliver(m)))
  {
    hide Update, Accepts, Copies, PacketOf;
    var s', r := Next(s, Deliver(m)), s.routers[m.dst];
    assert NotNewer(s, m.packet);
    StoresOne(t, s, m);
    forall x | x in s'.wires ensures NotNewer(s', x.packet) {
      CopiesExact(m.dst, r.nbrs, m.packet, Some(m.src), x);
      if x in s.wires { assert NotNewer(s, x.packet); }
    }
    forall a, o | a in s'.routers && PacketOf(s'.routers[a], o).Some?
      ensures NotNewer(s', PacketOf(s'.routers[a], o).value)
    {
      if PacketOf(s.routers[a], o).Some? { assert NotNewer(s, PacketOf(s.routers[a], o).value); }
    }
  }

  lemma RunNoneNewer(t: Graph, events: seq<Event>, states: seq<Net>)
    requires WellFormed(t) && IsRun(t, events, states)
    ensures forall i | 0 <= i < |states| :: NoneNewer(states[i])
  {
    hide Next, Enabled, NetInv;
    RunInv(t, events, states);
    var i := 0;
    while i < |events|
      invariant 0 <= i <= |events|
      invariant forall j | 0 <= j <= i :: NoneNewer(states[j])
    {
      match events[i] {
        case Broadcast(n) => BroadcastNoneNewer(t, states[i], n);
        case Deliver(m) => DeliverNoneNewer(t, states[i], m);
      }
      i := i + 1;
    }
  }

  /** A broadcast reaches every link of its router with a packet strictly newer than any packet of that
      router in flight or stored. */
  lemma BroadcastIsNewest(t: Graph, events: seq<Event>, states: seq<Net>, i: nat, n: Node) returns (p: Packet)
    requires WellFormed(t) && IsRun(t, events, states) && i < |events| && events[i] == Broadcast(n)
    ensures p.origin == n && n in t && p.links == t[n]
    ensures forall l | l in t[n] :: Message(n, l.dest, p) in states[i + 1].wires
    ensures forall m | m in states[i].wires && m.packet.origin == n :: m.packet.seqNum < p.seqNum
    ensures forall a | a in states[i].routers && PacketOf(states[i].routers[a], n).Some? ::
      PacketOf(states[i].routers[a], n).value.seqNum < p.seqNum
  {
    var s := states[i];
    RunInv(t, events, states);
    RunNoneNewer(t, events, states);
    assert NoneNewer(s) && NetInv(t, s) && Honest(t, n, s.routers[n]);
    var r := s.routers[n];
    p := Packet(n, r.seqNum + 1, r.nbrs);
    forall l | l in t[n] ensures Message(n, l.dest, p) in states[i + 1].wires {
      CopiesExact(n, r.nbrs, p, None, Message(n, l.dest, p));
    }
    forall a | a in s.routers && PacketOf(s.routers[a], n).Some?
      ensures PacketOf(s.routers[a], n).value.seqNum < p.seqNum
    {
      assert Honest(t, a, s.routers[a]) && NotNewer(s, PacketOf(s.routers[a], n).value);
    }
  }

  lemma StepOnlyNewer(t: Graph, s: Net, e: Event, n: Node, o: Node)
    requires NetInv(t, s) && Enabled(s, e) && n in t && n in s.routers && PacketOf(s.routers[n], o).Some?
    ensures n in Next(s, e).routers && PacketOf(Next(s, e).routers[n], o).Some?
    ensures var was, now := PacketOf(s.routers[n], o).value, PacketOf(Next(s, e).routers[n], o).value;
      now == was || now.seqNum > was.seqNum
  {
    hide Update, Copies, Sound, RowsTrue;
    assert RouterOk(t, n, s.routers[n]);
    match e
    case Broadcast(m) => assert PacketOf(Next(s, e).routers[n], o) == PacketOf(s.routers[n], o);
    case Deliver(m) => OnlyNewer(s.routers[n], m.packet, o);
  }

  /** Packets may be read out of order: what a router stores of an origin only gets newer. */
  lemma {:induction false} StoredOnlyNewer(t: Graph, events: seq<Event>, states: seq<Net>, i: nat, j: nat,
                                           n: Node, o: Node)
    requires WellFormed(t) && IsRun(t, events, states) && i <= j < |states| && n in t
    requires n in states[i].routers && PacketOf(states[i].routers[n], o).Some?
    ensures n in states[j].routers && PacketOf(states[j].routers[n], o).Some?
    ensures var was, now := PacketOf(states[i].routers[n], o).value, PacketOf(states[j].routers[n], o).value;
      now == was || now.seqNum > was.seqNum
    decreases j
  {
    hide Next, Enabled, NetInv, PacketOf;
    if i < j {
      StoredOnlyNewer(t, events, states, i, j - 1, n, o);
      RunInv(t, events, states);
      StepOnlyNewer(t, states[j - 1], events[j - 1], n, o);
    }
  }
}
