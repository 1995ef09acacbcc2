/** A network of routers over reliable links: what flooding does to their stored packets and
    rows over whole runs, while the neighbour tables stay what parse_router read. */
module Flooding {
  import opened Prelude
  import opened LinkState
  import opened ShortestPath
  import opened Updates

  datatype Message = Message(src: Node, dst: Node, packet: Packet)

  /** All routers, and the packets written to a socket but not yet read. */
  datatype Net = Net(routers: map<Node, Router>, wires: multiset<Message>)

  datatype Event = Broadcast(router: Node) | Deliver(message: Message)

  ghost predicate Linked(t: Graph, a: Node, b: Node) {
    exists l :: l in Adj(t, a) && l.dest == b
  }

  /** Links join two different routers of the topology, in both directions, at most one each way. */
  ghost predicate WellFormed(t: Graph) {
    forall n {:trigger NodeOk(t, n)} | n in t :: NodeOk(t, n)
  }

  ghost predicate NodeOk(t: Graph, n: Node)
    requires n in t
  {
    && DistinctNeighbors(t[n])
    && forall l | l in t[n] :: l.dest in t && l.dest != n && Linked(t, l.dest, n)
  }

  ghost predicate Init(t: Graph, s: Net) {
    && s.routers.Keys == t.Keys
    && s.wires == multiset{}
    && forall n | n in t :: s.routers[n] == Router(n, 0, t[n], [])
  }

  /** One copy of `p` on every link of `n`, except the link towards `skip`. */
  function Copies(n: Node, links: seq<Link>, p: Packet, skip: Option<Node>): multiset<Message> {
    if links == [] then multiset{}
    else
      Copies(n, links[1..], p, skip)
      + (if skip == Some(links[0].dest) then multiset{} else multiset{Message(n, links[0].dest, p)})
  }

  /** broadcast_packet: sequence numbers are followed up to the last 32-bit value. */
  ghost predicate Enabled(s: Net, e: Event) {
    match e
    case Broadcast(n) => n in s.routers && s.routers[n].seqNum + 1 < 0x1_0000_0000
    case Deliver(m) => m in s.wires && m.dst in s.routers
  }

  /** broadcast_packet, or read_packet with its conditional re-flooding. */
  function Next(s: Net, e: Event): Net
    requires Enabled(s, e)
  {
    match e
    case Broadcast(n) =>
      var r := s.routers[n].(seqNum := s.routers[n].seqNum + 1);
      Net(s.routers[n := r], s.wires + Copies(n, r.nbrs, Packet(n, r.seqNum, r.nbrs), None))
    case Deliver(m) =>
      var r := s.routers[m.dst];
      var copies := if Accepts(r, m.packet) then Copies(m.dst, r.nbrs, m.packet, Some(m.src)) else multiset{};
      Net(s.routers[m.dst := Update(r, m.packet)], s.wires - multiset{m} + copies)
  }

  ghost predicate IsRun(t: Graph, events: seq<Event>, states: seq<Net>) {
    && |states| == |events| + 1
    && Init(t, states[0])
    && forall i | 0 <= i < |events| :: Enabled(states[i], events[i]) && states[i + 1] == Next(states[i], events[i])
  }

  // ---- The invariant ----

  /** Router `n` has originated, or stores, a packet of `o`. */
  ghost predicate Holds(s: Net, n: Node, o: Node) {
    n in s.routers && (if n == o then s.routers[n].seqNum > 0 else PacketOf(s.routers[n], o).Some?)
  }

  ghost predicate Truthful(t: Graph, p: Packet) {
    p.origin in t && p.links == t[p.origin] && p.seqNum > 0
  }

  ghost predicate OnWire(s: Net, n: Node, m: Node, o: Node) {
    exists x :: x in s.wires && x.src == n && x.dst == m && x.packet.origin == o
  }

  /** A router's identity and neighbours are its own, and the packets it stores are true. */
  ghost predicate Honest(t: Graph, n: Node, r: Router) {
    && n in t && r.id == n && r.nbrs == t[n]
    && forall o | PacketOf(r, o).Some? ::
         o != n && PacketOf(r, o).value.origin == o && Truthful(t, PacketOf(r, o).value)
  }

  ghost predicate RouterOk(t: Graph, n: Node, r: Router) {
    Honest(t, n, r) && Sound(r) && RowsTrue(r)
  }

  /** What is on a wire is true and is held by whoever sent it and by its origin. */
  ghost predicate WireOk(t: Graph, s: Net, m: Message) {
    && m.src in t && Linked(t, m.src, m.dst) && m.dst in t
    && Truthful(t, m.packet)
    && Holds(s, m.src, m.packet.origin) && Holds(s, m.packet.origin, m.packet.origin)
  }

  /** A neighbour of a holder holds the packet too, or it is on the wire towards it. */
  ghost predicate Spreading(t: Graph, s: Net) {
    forall n, l, o {:trigger Covered(s, n, l, o)} | n in t && l in t[n] :: Covered(s, n, l, o)
  }

  ghost predicate Covered(s: Net, n: Node, l: Link, o: Node) {
    Holds(s, n, o) ==> Holds(s, l.dest, o) || OnWire(s, n, l.dest, o)
  }

  ghost predicate AllRouters(t: Graph, s: Net) {
    && s.routers.Keys == t.Keys
    && (forall n {:trigger RouterOk(t, n, s.routers[n])} | n in t :: RouterOk(t, n, s.routers[n]))
    && (forall n {:trigger Honest(t, n, s.routers[n])} | n in t :: Honest(t, n, s.routers[n]))
  }

  ghost predicate AllWires(t: Graph, s: Net) {
    forall m {:trigger WireOk(t, s, m)} | m in s.wires :: WireOk(t, s, m)
  }

  ghost predicate NetInv(t: Graph, s: Net) {
    AllRouters(t, s) && AllWires(t, s) && Spreading(t, s)
  }

  lemma {:induction false} CopiesExact(n: Node, links: seq<Link>, p: Packet, skip: Option<Node>, m: Message)
    ensures m in Copies(n, links, p, skip) <==>
      m.src == n && m.packet == p && skip != Some(m.dst) && exists l :: l in links && l.dest == m.dst
  {
    if links != [] {
      CopiesExact(n, links[1..], p, skip, m);
      assert links == [links[0]] + links[1..];
    }
  }

  predicate IsNeighbor(links: seq<Link>, d: Node) {
    exists i :: 0 <= i < |links| && links[i].dest == d
  }

  /** No link gets a packet twice. */
  lemma {:induction false} CopiesOnce(n: Node, links: seq<Link>, p: Packet, skip: Option<Node>, m: Message)
    requires DistinctNeighbors(links)
    ensures Copies(n, links, p, skip)[m]
      == if m.src == n && m.packet == p && skip != Some(m.dst) && IsNeighbor(links, m.dst) then 1 else 0
  {
    if links != [] {
      var rest := links[1..];
      CopiesOnce(n, rest, p, skip, m);
      assert IsNeighbor(links, m.dst) <==> links[0].dest == m.dst || IsNeighbor(rest, m.dst) by {
        if i :| 0 <= i < |rest| && rest[i].dest == m.dst { assert links[i + 1].dest == m.dst; }
        if i :| 0 <= i < |links| && links[i].dest == m.dst { assert i > 0 ==> rest[i - 1].dest == m.dst; }
      }
      assert links[0].dest == m.dst ==> !IsNeighbor(rest, m.dst);
    }
  }

  /** What reading a packet does to the sockets: the packet read is gone, and a router that kept it has
      written it once to every neighbour other than the one it came from, and nothing else. */
  lemma DeliverWrites(s: Net, m: Message, x: Message)
    requires Enabled(s, Deliver(m)) && DistinctNeighbors(s.routers[m.dst].nbrs)
    ensures var r := s.routers[m.dst];
      Next(s, Deliver(m)).wires[x] == (s.wires - multiset{m})[x]
        + if Accepts(r, m.packet) && x.src == m.dst && x.packet == m.packet && x.dst != m.src
             && IsNeighbor(r.nbrs, x.dst) then 1 else 0
  {
    CopiesOnce(m.dst, s.routers[m.dst].nbrs, m.packet, Some(m.src), x);
  }

  /** A broadcast writes the router's own table, under the next sequence number, once to every neighbour. */
  lemma BroadcastWrites(s: Net, n: Node, x: Message)
    requires Enabled(s, Broadcast(n)) && DistinctNeighbors(s.routers[n].nbrs)
    ensures var r := s.routers[n];
      Next(s, Broadcast(n)).wires[x] == s.wires[x]
        + if x.src == n && x.packet == Packet(n, r.seqNum + 1, r.nbrs) && IsNeighbor(r.nbrs, x.dst) then 1 else 0
  {
    var r := s.routers[n];
    CopiesOnce(n, r.nbrs, Packet(n, r.seqNum + 1, r.nbrs), None, x);
  }

  lemma InitInv(t: Graph, s: Net)
    requires WellFormed(t) && Init(t, s)
    ensures NetInv(t, s)
  {
    forall n | n in t ensures RouterOk(t, n, s.routers[n]) {
      assert NodeOk(t, n);
      InitialSound(s.routers[n]);
    }
  }

  // ---- One delivery at one router ----

  /** In a static network a packet is discarded only by its origin or by a router that already
      stores that origin's table, and then nothing changes. */
  lemma DiscardedIsKnown(t: Graph, n: Node, r: Router, p: Packet)
    requires Honest(t, n, r) && Truthful(t, p) && !Accepts(r, p)
    ensures Update(r, p) == r
    ensures p.origin == n || PacketOf(r, p.origin).Some?
  {
    if p.origin != n {
      var i := IndexOf(r.dests, p.origin);
      assert r.dests[i].packet == PacketOf(r, p.origin);
      assert Discard(r, p).dests == r.dests;
    }
  }

  /** Knowledge only grows in a static network, so walks once known stay known. */
  lemma {:induction false} WalkSurvives(g: Graph, h: Graph, n: Node, w: seq<Link>)
    requires IsWalk(g, n, w)
    requires forall m :: Adj(g, m) == [] || Adj(g, m) == Adj(h, m)
    ensures IsWalk(h, n, w)
    decreases |w|
  {
    if w != [] {
      WalkSurvives(g, h, w[0].dest, w[1..]);
    }
  }

  lemma KnownGrows(t: Graph, n: Node, r: Router, p: Packet)
    requires RouterOk(t, n, r) && Truthful(t, p)
    ensures forall m :: Adj(Known(r), m) == [] || Adj(Known(r), m) == Adj(Known(Update(r, p)), m)
  {
    UpdateSound(r, p);
    var r' := Update(r, p);
    forall m: Node ensures Adj(Known(r), m) == [] || Adj(Known(r), m) == Adj(Known(r'), m) {
      assert Adj(Known(r), m) == Out(r, m) && Adj(Known(r'), m) == Out(r', m);
      if Accepts(r, p) && m == p.origin && PacketOf(r, m).Some? {
        assert Out(r, m) == t[m];
      }
    }
  }

  /** A row that keeps its gateway and cost stays witnessed while knowledge grows. */
  lemma RowSurvives(r: Router, s: Router, d: Node)
    requires RowAttained(r, d) && s.id == r.id && s.nbrs == r.nbrs
    requires forall m :: Adj(Known(r), m) == [] || Adj(Known(r), m) == Adj(Known(s), m)
    requires var i := IndexOf(r.dests, d);
      IndexOf(s.dests, d) == i && s.dests[i].gateway == r.dests[i].gateway && s.dests[i].cost == r.dests[i].cost
    ensures RowAttained(s, d)
  {
    var e := r.dests[IndexOf(r.dests, d)];
    var w :| IsRoute(r, e.gateway, d, e.cost, w);
    WalkSurvives(Known(r), Known(s), r.id, w);
    assert IsRoute(s, e.gateway, d, e.cost, w);
  }

  /** Storing a packet leaves finite rows as they were. */
  lemma StoreRowsTrue(r: Router, p: Packet)
    requires DistinctRows(r) && RowsTrue(r) && Accepts(r, p)
    requires forall m :: Adj(Known(r), m) == [] || Adj(Known(r), m) == Adj(Known(Store(r, p).value), m)
    ensures RowsTrue(Store(r, p).value)
  {
    var s := Store(r, p).value;
    forall i | 0 <= i < |s.dests| && s.dests[i].cost != -1 ensures RowAttained(s, s.dests[i].dest) {
      var d := s.dests[i].dest;
      StoreIndex(r, p, d);
      assert RowAttained(r, d) && IndexOf(r.dests, d) == i;
      RowSurvives(r, s, d);
    }
  }

  /** Rows never acquire an unfounded cost. */
  lemma UpdateRowsTrue(t: Graph, n: Node, r: Router, p: Packet)
    requires RouterOk(t, n, r) && Truthful(t, p) && Accepts(r, p)
    ensures RowsTrue(Update(r, p))
  {
    var s := Store(r, p).value;
    StoreEffect(r, p);
    SelfSettled(s);
    SettleAllInv(s, [s.id]);
    KnownGrows(t, n, r, p);
    assert Known(s) == Known(Update(r, p));
    StoreRowsTrue(r, p);
  }

  lemma DeliverRouter(t: Graph, n: Node, r: Router, p: Packet)
    requires RouterOk(t, n, r) && Truthful(t, p)
    ensures RouterOk(t, n, Update(r, p)) && Update(r, p).seqNum == r.seqNum
    ensures forall o :: PacketOf(Update(r, p), o).Some? <==> PacketOf(r, o).Some? || (o == p.origin && o != n)
    ensures !Accepts(r, p) ==> Update(r, p) == r
  {
    UpdateSound(r, p);
    if Accepts(r, p) {
      UpdateRowsTrue(t, n, r, p);
      StoreEffect(r, p);
    } else {
      DiscardedIsKnown(t, n, r, p);
    }
  }

  // ---- One step of the network ----

  lemma BroadcastRouters(t: Graph, s: Net, n: Node)
    requires WellFormed(t) && NetInv(t, s) && Enabled(s, Broadcast(n))
    ensures AllRouters(t, Next(s, Broadcast(n)))
    ensures forall a, o: Node :: Holds(Next(s, Broadcast(n)), a, o) <==> Holds(s, a, o) || a == o == n
  {
    var s' := Next(s, Broadcast(n));
    forall m | m in t ensures RouterOk(t, m, s'.routers[m]) {
      assert RouterOk(t, m, s.routers[m]);
      if m == n { SeqNumIrrelevant(t, n, s.routers[n]); }
    }
    forall a, o: Node ensures Holds(s', a, o) <==> Holds(s, a, o) || a == o == n {
      if a == n { assert PacketOf(s'.routers[n], o) == PacketOf(s.routers[n], o); }
    }
  }

  lemma BroadcastWires(t: Graph, s: Net, n: Node)
    requires WellFormed(t) && NetInv(t, s) && Enabled(s, Broadcast(n))
    requires forall a, o: Node :: Holds(Next(s, Broadcast(n)), a, o) <==> Holds(s, a, o) || a == o == n
    ensures AllWires(t, Next(s, Broadcast(n)))
    ensures forall m | m in s.wires :: m in Next(s, Broadcast(n)).wires
    ensures forall l | l in t[n] :: OnWire(Next(s, Broadcast(n)), n, l.dest, n)
  {
    var s' := Next(s, Broadcast(n));
    var r := s.routers[n];
    var p := Packet(n, r.seqNum + 1, r.nbrs);
    assert NodeOk(t, n) && Honest(t, n, r);
    forall m | m in s'.wires ensures WireOk(t, s', m) {
      CopiesExact(n, r.nbrs, p, None, m);
      if m in s.wires { assert WireOk(t, s, m); }
    }
    forall l | l in t[n] ensures OnWire(s', n, l.dest, n) {
      CopiesExact(n, r.nbrs, p, None, Message(n, l.dest, p));
      assert Message(n, l.dest, p) in s'.wires;
    }
  }

  lemma BroadcastInv(t: Graph, s: Net, n: Node)
    requires WellFormed(t) && NetInv(t, s) && Enabled(s, Broadcast(n))
    ensures NetInv(t, Next(s, Broadcast(n)))
  {
    var s' := Next(s, Broadcast(n));
    BroadcastRouters(t, s, n);
    BroadcastWires(t, s, n);
    BroadcastSpreads(t, s, n);
  }

  lemma BroadcastSpreads(t: Graph, s: Net, n: Node)
    requires NetInv(t, s) && n in t && Enabled(s, Broadcast(n))
    requires forall a, o: Node :: Holds(Next(s, Broadcast(n)), a, o) <==> Holds(s, a, o) || a == o == n
    requires forall m | m in s.wires :: m in Next(s, Broadcast(n)).wires
    requires forall l | l in t[n] :: OnWire(Next(s, Broadcast(n)), n, l.dest, n)
    ensures Spreading(t, Next(s, Broadcast(n)))
  {
    var s' := Next(s, Broadcast(n));
    forall a, l, o | a in t && l in t[a] ensures Covered(s', a, l, o) {
      assert Covered(s, a, l, o);
      if Holds(s, a, o) { CoveredStays(s, s', a, l, o); }
    }
  }

  /** A step that keeps holders, and loses a message only by delivering it, keeps a link covered. */
  lemma CoveredStays(s: Net, s': Net, a: Node, l: Link, o: Node)
    requires Covered(s, a, l, o) && Holds(s, a, o)
    requires Holds(s, l.dest, o) ==> Holds(s', l.dest, o)
    requires forall x | x in s.wires && x.dst == l.dest && x.packet.origin == o :: x in s'.wires || Holds(s', l.dest, o)
    ensures Covered(s', a, l, o)
  {
    if OnWire(s, a, l.dest, o) {
      var x :| x in s.wires && x.src == a && x.dst == l.dest && x.packet.origin == o;
    }
  }

  lemma SeqNumIrrelevant(t: Graph, n: Node, r: Router)
    requires RouterOk(t, n, r)
    ensures RouterOk(t, n, r.(seqNum := r.seqNum + 1))
  {
    var r' := r.(seqNum := r.seqNum + 1);
    assert forall m :: PacketOf(r', m) == PacketOf(r, m) && Out(r', m) == Out(r, m) && CostOf(r', m) == CostOf(r, m);
    assert Known(r') == Known(r);
    var order :| Exact(r, order);
    ExactIgnoresPackets(r, r', order);
    forall i | 0 <= i < |r'.dests| && r'.dests[i].cost != -1 ensures RowAttained(r', r'.dests[i].dest) {
      assert RowAttained(r, r.dests[i].dest);
      var e := r.dests[IndexOf(r.dests, r.dests[i].dest)];
      var w :| IsRoute(r, e.gateway, e.dest, e.cost, w);
      assert IsRoute(r', e.gateway, e.dest, e.cost, w);
    }
  }

  lemma DeliverRouters(t: Graph, s: Net, m: Message)
    requires WellFormed(t) && NetInv(t, s) && Enabled(s, Deliver(m))
    ensures AllRouters(t, Next(s, Deliver(m)))
    ensures forall a, o: Node ::
      Holds(Next(s, Deliver(m)), a, o) <==> Holds(s, a, o) || (a == m.dst && o == m.packet.origin)
  {
    hide Sound, RowsTrue, Honest, Update, Copies, Truthful;
    var s' := Next(s, Deliver(m));
    assert WireOk(t, s, m);
    forall n | n in t
      ensures RouterOk(t, n, s'.routers[n])
      ensures forall o: Node :: Holds(s', n, o) <==> Holds(s, n, o) || (n == m.dst && o == m.packet.origin)
    {
      assert RouterOk(t, n, s.routers[n]);
      if n == m.dst { DeliverRouter(t, n, s.routers[n], m.packet); }
    }
  }

  lemma DeliverWires(t: Graph, s: Net, m: Message)
    requires WellFormed(t) && NetInv(t, s) && Enabled(s, Deliver(m))
    requires forall a, o: Node ::
      Holds(Next(s, Deliver(m)), a, o) <==> Holds(s, a, o) || (a == m.dst && o == m.packet.origin)
    ensures AllWires(t, Next(s, Deliver(m)))
    ensures forall x | x in s.wires && x != m :: x in Next(s, Deliver(m)).wires
  {
    var s' := Next(s, Deliver(m));
    var r := s.routers[m.dst];
    assert WireOk(t, s, m) && Honest(t, m.dst, r) && NodeOk(t, m.dst);
    forall x | x in s'.wires ensures WireOk(t, s', x) {
      CopiesExact(m.dst, r.nbrs, m.packet, Some(m.src), x);
      if x in s.wires { assert WireOk(t, s, x); }
    }
  }

  /** A router that keeps a packet passes it to every neighbour but the one it came from. */
  lemma DeliverReflood(t: Graph, s: Net, m: Message, l: Link)
    requires WellFormed(t) && NetInv(t, s) && Enabled(s, Deliver(m))
    requires m.dst in t && l in t[m.dst] && l.dest != m.src && !Holds(s, m.dst, m.packet.origin)
    ensures OnWire(Next(s, Deliver(m)), m.dst, l.dest, m.packet.origin)
  {
    var r := s.routers[m.dst];
    assert WireOk(t, s, m) && Honest(t, m.dst, r);
    if !Accepts(r, m.packet) { DiscardedIsKnown(t, m.dst, r, m.packet); }
    var x := Message(m.dst, l.dest, m.packet);
    CopiesExact(m.dst, r.nbrs, m.packet, Some(m.src), x);
    assert x in Next(s, Deliver(m)).wires;
  }

  lemma DeliverInv(t: Graph, s: Net, m: Message)
    requires WellFormed(t) && NetInv(t, s) && Enabled(s, Deliver(m))
    ensures NetInv(t, Next(s, Deliver(m)))
  {
    var s' := Next(s, Deliver(m));
    DeliverRouters(t, s, m);
    DeliverWires(t, s, m);
    DeliverSpreads(t, s, m);
  }

  lemma DeliverSpreads(t: Graph, s: Net, m: Message)
    requires WellFormed(t) && NetInv(t, s) && Enabled(s, Deliver(m))
    requires forall a, o: Node ::
      Holds(Next(s, Deliver(m)), a, o) <==> Holds(s, a, o) || (a == m.dst && o == m.packet.origin)
    requires forall x | x in s.wires && x != m :: x in Next(s, Deliver(m)).wires
    ensures Spreading(t, Next(s, Deliver(m)))
  {
    var s' := Next(s, Deliver(m));
    assert WireOk(t, s, m);
    forall a, l, o | a in t && l in t[a] ensures Covered(s', a, l, o) {
      assert Covered(s, a, l, o);
      if Holds(s, a, o) {
        CoveredStays(s, s', a, l, o);
      } else if Holds(s', a, o) && l.dest != m.src {
        DeliverReflood(t, s, m, l);
      }
    }
  }

  lemma StepInv(t: Graph, s: Net, e: Event)
    requires WellFormed(t) && NetInv(t, s) && Enabled(s, e)
    ensures NetInv(t, Next(s, e))
  {
    match e
    case Broadcast(n) => BroadcastInv(t, s, n);
    case Deliver(m) => DeliverInv(t, s, m);
  }

  lemma RunInv(t: Graph, events: seq<Event>, states: seq<Net>)
    requires WellFormed(t) && IsRun(t, events, states)
    ensures forall i | 0 <= i < |states| :: NetInv(t, states[i])
  {
    InitInv(t, states[0]);
    var i := 0;
    while i < |events|
      invariant 0 <= i <= |events|
      invariant forall j | 0 <= j <= i :: NetInv(t, states[j])
    {
      StepInv(t, states[i], events[i]);
      i := i + 1;
    }
  }

  // ---- Convergence ----

  ghost predicate Connected(t: Graph) {
    forall a, b | a in t && b in t :: exists w :: IsWalk(t, a, w) && End(a, w) == b
  }

  /** Every router has broadcast and nothing is in flight. */
  ghost predicate Quiet(s: Net) {
    s.wires == multiset{} && forall n | n in s.routers :: s.routers[n].seqNum > 0
  }

  lemma {:induction false} SpreadAlong(t: Graph, s: Net, o: Node, n: Node, w: seq<Link>)
    requires WellFormed(t) && NetInv(t, s) && s.wires == multiset{}
    requires n in t && Holds(s, n, o) && IsWalk(t, n, w)
    ensures Holds(s, End(n, w), o)
    decreases |w|
  {
    if w != [] {
      assert NodeOk(t, n) && w[0] in t[n];
      assert Covered(s, n, w[0], o);
      SpreadAlong(t, s, o, w[0].dest, w[1..]);
    }
  }

  /** Router `n` stores every other router's true table. */
  ghost predicate StoresAll(t: Graph, s: Net, n: Node) {
    forall o {:trigger Stores(s, n, o, t[o])} | o in t && o != n :: Stores(s, n, o, t[o])
  }

  /** All routers know the whole topology. */
  ghost predicate Agreed(t: Graph, s: Net) {
    s.routers.Keys == t.Keys && forall n {:trigger StoresAll(t, s, n)} | n in t :: StoresAll(t, s, n)
  }

  ghost predicate Stores(s: Net, n: Node, o: Node, links: seq<Link>) {
    n in s.routers && PacketOf(s.routers[n], o).Some? && PacketOf(s.routers[n], o).value.links == links
  }

  lemma QuietAgrees(t: Graph, s: Net)
    requires WellFormed(t) && Connected(t) && NetInv(t, s) && Quiet(s)
    ensures Agreed(t, s)
  {
    forall n | n in t ensures StoresAll(t, s, n) {
      forall o | o in t && o != n ensures Stores(s, n, o, t[o]) {
        var w :| IsWalk(t, o, w) && End(o, w) == n;
        SpreadAlong(t, s, o, o, w);
        assert Honest(t, n, s.routers[n]);
      }
    }
  }

  /** Main result of flooding: in any reachable quiet state of a connected network every router
      stores every other router's true neighbour table. */
  lemma FloodingConverges(t: Graph, events: seq<Event>, states: seq<Net>)
    requires WellFormed(t) && Connected(t) && IsRun(t, events, states) && Quiet(states[|events|])
    ensures Agreed(t, states[|events|])
  {
    RunInv(t, events, states);
    QuietAgrees(t, states[|events|]);
  }

  // ---- Rows over a whole run ----

  lemma KnownIsTrue(t: Graph, n: Node, r: Router)
    requires RouterOk(t, n, r)
    ensures forall m :: Adj(Known(r), m) == [] || Adj(Known(r), m) == Adj(t, m)
  {
    forall m: Node ensures Adj(Known(r), m) == [] || Adj(Known(r), m) == Adj(t, m) {
      assert Adj(Known(r), m) == Out(r, m);
    }
  }

  /** In every state of every run a finite row is the cost of a real path, through the recorded
      gateway: it never understates the true distance. */
  lemma RowsNeverUnderstate(t: Graph, events: seq<Event>, states: seq<Net>, i: nat, n: Node, k: nat)
    returns (w: seq<Link>)
    requires WellFormed(t) && IsRun(t, events, states) && i < |states| && n in t
    requires n in states[i].routers && k < |states[i].routers[n].dests| && states[i].routers[n].dests[k].cost != -1
    ensures var e := states[i].routers[n].dests[k];
      && IsWalk(t, n, w) && End(n, w) == e.dest && Length(w) == e.cost
      && e.gateway < |t[n]| && w != [] && w[0] == t[n][e.gateway]
  {
    RunInv(t, events, states);
    var r := states[i].routers[n];
    assert RouterOk(t, n, r);
    var d := r.dests[k].dest;
    assert RowAttained(r, d);
    assert IndexOf(r.dests, d) == k;
    w :| IsRoute(r, r.dests[k].gateway, d, r.dests[k].cost, w);
    KnownIsTrue(t, n, r);
    WalkSurvives(Known(r), t, n, w);
  }

  /** Processing a packet never raises a finite cost and never loses a row. */
  lemma UpdateNeverRaises(t: Graph, n: Node, r: Router, p: Packet, d: Node)
    requires RouterOk(t, n, r) && Truthful(t, p)
    requires IndexOf(r.dests, d) >= 0 && CostOf(r, d) != -1
    ensures IndexOf(Update(r, p).dests, d) >= 0 && 0 <= CostOf(Update(r, p), d) <= CostOf(r, d)
  {
    var r' := Update(r, p);
    UpdateSound(r, p);
    KnownGrows(t, n, r, p);
    var e := r.dests[IndexOf(r.dests, d)];
    assert RowAttained(r, e.dest);
    var w :| IsRoute(r, e.gateway, d, e.cost, w);
    WalkSurvives(Known(r), Known(r'), n, w);
    var order :| Exact(r', order);
    ReachableRowSettled(r', order, d, w);
    SoundRowMinimal(r', order, d);
  }

  /** The row of `d` at `n` has a finite cost. */
  predicate Finite(s: Net, n: Node, d: Node) {
    n in s.routers && IndexOf(s.routers[n].dests, d) >= 0 && CostOf(s.routers[n], d) >= 0
  }

  lemma StepNeverRaises(t: Graph, s: Net, e: Event, n: Node, d: Node)
    requires WellFormed(t) && NetInv(t, s) && Enabled(s, e) && n in t && Finite(s, n, d)
    ensures Finite(Next(s, e), n, d) && CostOf(Next(s, e).routers[n], d) <= CostOf(s.routers[n], d)
  {
    match e
    case Broadcast(m) =>
    case Deliver(m) =>
      assert WireOk(t, s, m) && RouterOk(t, n, s.routers[n]);
      if m.dst == n {
        UpdateNeverRaises(t, n, s.routers[n], m.packet, d);
      }
  }

  /** Along any run the cost of a finite row only falls, and the row stays. */
  lemma {:induction false} CostsOnlyFall(t: Graph, events: seq<Event>, states: seq<Net>, i: nat, j: nat,
                                         n: Node, d: Node)
    requires WellFormed(t) && IsRun(t, events, states) && i <= j < |states| && n in t && Finite(states[i], n, d)
    ensures Finite(states[j], n, d) && CostOf(states[j].routers[n], d) <= CostOf(states[i].routers[n], d)
    decreases j
  {
    if i < j {
      CostsOnlyFall(t, events, states, i, j - 1, n, d);
      RunInv(t, events, states);
      StepNeverRaises(t, states[j - 1], events[j - 1], n, d);
    }
  }

  /** The topology as a router knows it: routers outside it have no links. */
  function AsKnown(t: Graph): Graph {
    map n: Node | 0 <= n < NODE_LIMIT :: Adj(t, n)
  }

  lemma KnowsAll(t: Graph, s: Net, n: Node)
    requires NetInv(t, s) && StoresAll(t, s, n) && n in t
    ensures Known(s.routers[n]) == AsKnown(t)
  {
    var r := s.routers[n];
    assert Honest(t, n, r);
    forall m: Node ensures Out(r, m) == Adj(t, m) {
      if m in t && m != n { assert Stores(s, n, m, t[m]); }
    }
  }

  /** Once a router stores every table, whatever the others store, its rows of reachable routers are
      exact: each is settled,
      attained by a path through its gateway, and no path of the topology is cheaper. */
  lemma CompleteRowsExact(t: Graph, s: Net, n: Node, d: Node, w: seq<Link>) returns (order: seq<Node>)
    requires NetInv(t, s) && StoresAll(t, s, n) && n in t && d in t && n != d
    requires IsWalk(t, n, w) && End(n, w) == d
    ensures Exact(s.routers[n], order) && d in order
    ensures RowAttained(s.routers[n], d)
    ensures forall v | IsWalk(t, n, v) && End(n, v) == d :: CostOf(s.routers[n], d) <= Length(v)
  {
    var r := s.routers[n];
    KnowsAll(t, s, n);
    assert RouterOk(t, n, r);
    order :| Exact(r, order);
    WalkSurvives(t, Known(r), n, w);
    assert Stores(s, n, d, t[d]);
    ReachableRowSettled(r, order, d, w);
    SoundRowMinimal(r, order, d);
    forall v | IsWalk(t, n, v) && End(n, v) == d ensures CostOf(r, d) <= Length(v) {
      WalkSurvives(t, Known(r), n, v);
    }
  }
}
