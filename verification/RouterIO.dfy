/** What a router puts on its sockets: the loops of read_packet and broadcast_packet, and their
    agreement with one step of the network model. */
module RouterIO {
  import opened Prelude
  import opened LinkState
  import opened ShortestPath
  import opened Updates
  import opened Flooding
  import opened RouterTables

  /** The packet went once to every neighbour except `skip`, and nowhere else. */
  ghost predicate WrittenOnce(id: Node, neighbors: seq<Link>, p: Packet, skip: Option<Node>, sent: seq<Message>) {
    && (forall i | 0 <= i < |sent| ::
         sent[i].src == id && sent[i].packet == p && Some(sent[i].dst) != skip && IsNeighbor(neighbors, sent[i].dst))
    && (forall i, j | 0 <= i < j < |sent| :: sent[i].dst != sent[j].dst)
    && (forall k | 0 <= k < |neighbors| && Some(neighbors[k].dest) != skip :: Message(id, neighbors[k].dest, p) in sent)
  }

  lemma CopiesWritten(id: Node, neighbors: seq<Link>, p: Packet, skip: Option<Node>, sent: seq<Message>)
    requires DistinctNeighbors(neighbors) && multiset(sent) == Copies(id, neighbors, p, skip)
    ensures WrittenOnce(id, neighbors, p, skip, sent)
  {
    forall i | 0 <= i < |sent|
      ensures sent[i].src == id && sent[i].packet == p && Some(sent[i].dst) != skip
      ensures IsNeighbor(neighbors, sent[i].dst)
    {
      assert sent[i] in multiset(sent);
      CopiesOnce(id, neighbors, p, skip, sent[i]);
    }
    forall i, j | 0 <= i < j < |sent| ensures sent[i].dst != sent[j].dst {
      CopiesOnce(id, neighbors, p, skip, sent[i]);
      assert sent == sent[..j] + sent[j..];
      assert sent[..j][i] in multiset(sent[..j]) && sent[j..][0] in multiset(sent[j..]);
    }
    forall k | 0 <= k < |neighbors| && Some(neighbors[k].dest) != skip
      ensures Message(id, neighbors[k].dest, p) in sent
    {
      CopiesOnce(id, neighbors, p, skip, Message(id, neighbors[k].dest, p));
      assert Message(id, neighbors[k].dest, p) in multiset(sent);
    }
  }

  /** Writes a packet to every neighbour's socket except the one it came from. */
  method WriteToNeighbors(id: Node, neighbors: seq<Link>, p: Packet, skip: Option<Node>) returns (sent: seq<Message>)
    ensures multiset(sent) == Copies(id, neighbors, p, skip)
    ensures DistinctNeighbors(neighbors) ==> WrittenOnce(id, neighbors, p, skip, sent)
  {
    sent := [];
    var i := 0;
    assert neighbors[i..] == neighbors;
    while i < |neighbors|
      invariant 0 <= i <= |neighbors|
      invariant multiset(sent) + Copies(id, neighbors[i..], p, skip) == Copies(id, neighbors, p, skip)
    {
      if skip != Some(neighbors[i].dest) {
        sent := sent + [Message(id, neighbors[i].dest, p)];
      }
      assert neighbors[i..][1..] == neighbors[i + 1..];
      i := i + 1;
    }
    if DistinctNeighbors(neighbors) {
      CopiesWritten(id, neighbors, p, skip, sent);
    }
  }

  /** read_packet: process, and re-flood exactly when the packet was kept, to every neighbour but the one
      it came from. */
  method ReadPacket(router: RouterTable, m: Message, ghost u: set<Node>) returns (sent: seq<Message>)
    requires router.Valid() && m.dst == router.id && Sound(router.Abs())
    requires InUniverse(router.Abs(), u) && m.packet.origin in u && TargetsIn(m.packet.links, u)
    modifies router`numDestinations, router.destinations, router.routingTable
    ensures router.Valid() && Sound(router.Abs()) && InUniverse(router.Abs(), u)
    ensures forall s: Net | Enabled(s, Deliver(m)) && s.routers[m.dst] == old(router.Abs()) ::
      Next(s, Deliver(m)) == Net(s.routers[m.dst := router.Abs()], s.wires - multiset{m} + multiset(sent))
    ensures if old(Accepts(router.Abs(), m.packet))
            then WrittenOnce(router.id, router.neighbors, m.packet, Some(m.src), sent) else sent == []
  {
    var accepted := router.UpdateRoutingTable(m.packet, u);
    sent := [];
    if accepted {
      sent := WriteToNeighbors(router.id, router.neighbors, m.packet, Some(m.src));
    }
  }

  /** broadcast_packet. */
  method BroadcastPacket(router: RouterTable) returns (sent: seq<Message>)
    requires router.Valid()
    modifies router`seqNum
    ensures router.Valid()
    ensures forall s: Net | Enabled(s, Broadcast(router.id)) && s.routers[router.id] == old(router.Abs()) ::
      Next(s, Broadcast(router.id)) == Net(s.routers[router.id := router.Abs()], s.wires + multiset(sent))
    ensures DistinctNeighbors(router.neighbors) ==>
      WrittenOnce(router.id, router.neighbors, Packet(router.id, router.seqNum, router.neighbors), None, sent)
  {
    hide Update, WrittenOnce, Copies;
    var p := router.CreatePacket();
    sent := WriteToNeighbors(router.id, router.neighbors, p, None);
  }
}
