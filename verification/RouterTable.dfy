/** The mutable router of PA3/router.c: fixed arrays updated in place, proved to compute the
    functions of LinkState and never to overflow an array, a byte index or an int16 cost. */
module RouterTables {
  import opened Prelude
  import opened LinkState
  import opened ShortestPath
  import opened Updates

  const NO_ROW := 0xFF

  /** The byte stored in _m_routing_table for a row number. */
  function Slot(i: int): int {
    if i < 0 then NO_ROW else i
  }

  /** All identifiers the router has met belong to `u`, and `u` fits the fixed arrays. */
  ghost predicate InUniverse(r: Router, u: set<Node>) {
    && |u| <= MAX_NUM_ROUTERS
    && r.id in u
    && TargetsIn(r.nbrs, u)
    && forall i | 0 <= i < |r.dests| :: r.dests[i].dest in u && TargetsIn(StoredPacket(r.dests[i]).links, u)
  }

  ghost predicate TargetsIn(links: seq<Link>, u: set<Node>) {
    forall l | l in links :: l.dest in u
  }

  // ---- Capacity and arithmetic ----

  lemma NoLinks(settled: seq<Node>, src: Node, base: int, best: Candidate)
    ensures ScanLinks(settled, src, base, [], best, 0) == best
  {
  }

  /** Adding the row of a node leaves the gateway of the link to it alone. */
  lemma GatewayKept(r: Router, c: Candidate)
    requires c.dest != c.src && IndexOf(r.dests, c.dest) < 0
    ensures var r' := r.(dests := r.dests + [Entry(c.dest, 0, 0, None)]);
      GatewayOf(r', c) == GatewayOf(r, c) && IndexOf(r'.dests, c.src) == IndexOf(r.dests, c.src)
  {
    assert (r.dests + [Entry(c.dest, 0, 0, None)])[..|r.dests|] == r.dests;
  }

  /** The conversions on the way from a packet's cost to a candidate's change nothing. */
  lemma ConvertsExactly(cost: LinkCost, base: int)
    requires 0 <= base <= 31 * 255
    ensures I16(U16(I16(cost + base))) == base + cost
  {
  }

  lemma RowsFit(r: Router, u: set<Node>)
    requires InUniverse(r, u) && DistinctRows(r)
    ensures |r.dests| < MAX_NUM_ROUTERS
  {
    var ids := [r.id] + seq(|r.dests|, i requires 0 <= i < |r.dests| => r.dests[i].dest);
    forall x | x in ids ensures x in u {
      var k :| 0 <= k < |ids| && ids[k] == x;
      if k > 0 { assert x == r.dests[k - 1].dest; }
    }
    DistinctFits(ids, u);
  }

  /** Byte-sized links and at most 32 routers: the k-th settled node costs at most 255*k, so a
      cost fits 31*255, survives the uint16 and int16 conversions and is never the -1 mark. */
  lemma CostArithmeticSafe(r: Router, order: seq<Node>, u: set<Node>, k: nat, l: Link)
    requires Costs(r, order) && Distinct(order) && |u| <= MAX_NUM_ROUTERS
    requires forall n | n in order :: n in u
    requires k < |order| && l.dest in u && l.dest !in order
    ensures 0 <= CostOf(r, order[k]) <= 255 * k
    ensures var total := CostOf(r, order[k]) + l.cost;
      0 <= total <= 31 * 255 && U16(total) == total && I16(U16(total)) == total && I16(total) == total && total != -1
    ensures |order| < MAX_NUM_ROUTERS
  {
    var more := order + [l.dest];
    forall n | n in more ensures n in u {}
    DistinctFits(more, u);
  }

  lemma CandidateTarget(r: Router, order: seq<Node>, c: Candidate, u: set<Node>)
    requires InUniverse(r, u) && Leaves(r, order, c)
    ensures c.dest in u
  {
    OutInUniverse(r, c.src, u);
  }

  lemma OutInUniverse(r: Router, n: Node, u: set<Node>)
    requires InUniverse(r, u)
    ensures TargetsIn(Out(r, n), u)
  {
    var i := IndexOf(r.dests, n);
    if i >= 0 { assert TargetsIn(StoredPacket(r.dests[i]).links, u); }
  }

  lemma SettleOneUniverse(r: Router, c: Candidate, u: set<Node>)
    requires InUniverse(r, u) && c.dest in u
    ensures InUniverse(SettleOne(r, c), u)
  {
    var r' := SettleOne(r, c);
    forall i | 0 <= i < |r'.dests| ensures r'.dests[i].dest in u && TargetsIn(StoredPacket(r'.dests[i]).links, u) {
      if i < |r.dests| { assert StoredPacket(r'.dests[i]) == StoredPacket(r.dests[i]); }
    }
  }

  class RouterTable {
    const id: Node
    const neighbors: seq<Link>
    var seqNum: nat
    var numDestinations: int
    const destinations: array<Entry>
    const routingTable: array<int>

    ghost predicate Sized()
      reads this
    {
      && destinations.Length == MAX_NUM_ROUTERS && routingTable.Length == NODE_LIMIT
      && 0 <= numDestinations <= MAX_NUM_ROUTERS
    }

    /** The index is the exact inverse of the row array: 0xFF or the row of that node. */
    ghost predicate Valid()
      reads this, destinations, routingTable
    {
      Sized() && forall n: Node :: routingTable[n] == Slot(IndexOf(Rows(), n))
    }

    ghost function Rows(): seq<Entry>
      requires Sized()
      reads this, destinations
    {
      destinations[..numDestinations]
    }

    ghost function Abs(): Router
      requires Sized()
      reads this, destinations
    {
      Router(id, seqNum, neighbors, Rows())
    }

    constructor (id: Node, neighbors: seq<Link>)
      ensures Valid() && fresh(destinations) && fresh(routingTable)
      ensures Abs() == Router(id, 0, neighbors, [])
    {
      this.id := id;
      this.neighbors := neighbors;
      seqNum := 0;
      numDestinations := 0;
      destinations := new Entry[MAX_NUM_ROUTERS](_ => Entry(0, 0, 0, None));
      routingTable := new int[NODE_LIMIT](_ => NO_ROW);
    }

    /** Router_GetRoutingEntryForNode; -1 stands for NULL. The comparison with `>` is harmless
        because an index is either 0xFF or below the count. */
    method GetRoutingEntryForNode(n: Node) returns (i: int)
      requires Valid()
      ensures i == IndexOf(Rows(), n)
    {
      var dest := routingTable[n];
      if dest > numDestinations {
        return -1;
      }
      return dest;
    }

    method RebuildRoutingTable()
      requires Sized() && numDestinations < NO_ROW
      modifies routingTable
      ensures Valid()
    {
      forall n | 0 <= n < NODE_LIMIT {
        routingTable[n] := NO_ROW;
      }
      var i := 0;
      while i < numDestinations
        invariant 0 <= i <= numDestinations
        invariant forall n: Node :: routingTable[n] == Slot(IndexOf(destinations[..i], n))
      {
        assert destinations[..i + 1][..i] == destinations[..i];
        routingTable[destinations[i].dest] := i;
        i := i + 1;
      }
    }

    method GetNeighborIdx(n: Node) returns (i: nat)
      requires exists k :: 0 <= k < |neighbors| && neighbors[k].dest == n
      ensures i == NeighborIndex(neighbors, n)
    {
      i := 0;
      while neighbors[i].dest != n
        invariant i <= NeighborIndex(neighbors, n) < |neighbors|
        decreases |neighbors| - i
      {
        i := i + 1;
      }
    }

    method GetGatewayIdx(c: Candidate) returns (g: nat)
      requires Valid()
      requires c.src == id ==> exists k :: 0 <= k < |neighbors| && neighbors[k].dest == c.dest
      requires c.src != id ==> IndexOf(Rows(), c.src) >= 0
      ensures g == GatewayOf(Abs(), c)
    {
      if c.src == id {
        g := GetNeighborIdx(c.dest);
      } else {
        var i := GetRoutingEntryForNode(c.src);
        g := destinations[i].gateway;
      }
    }

    /** set_has_node over the first `count` members of the set. */
    method SetHasNode(current: array<Node>, count: nat, n: Node) returns (has: bool)
      requires count <= current.Length
      ensures has == (n in current[..count])
    {
      for i := 0 to count
        invariant n !in current[..i]
      {
        if current[i] == n {
          return true;
        }
      }
      return false;
    }

    /** The scan over this router's own neighbour table. */
    method ScanNeighbors(current: array<Node>, count: nat, best: Candidate) returns (c: Candidate)
      requires count <= current.Length
      ensures c == ScanLinks(current[..count], id, 0, neighbors, best, |neighbors|)
    {
      c := best;
      for i := 0 to |neighbors|
        invariant c == ScanLinks(current[..count], id, 0, neighbors, best, i)
      {
        var settled := SetHasNode(current, count, neighbors[i].dest);
        if !settled {
          c := SetShortest(c, id, neighbors[i].dest, I16(U16(neighbors[i].cost)));
        }
      }
    }

    /** The scan over the packet stored for a settled node, in int16 and uint16 arithmetic. */
    method ScanPacket(current: array<Node>, count: nat, src: Node, links: seq<Link>, best: Candidate)
      returns (c: Candidate)
      requires Valid() && count <= current.Length
      requires src != id && IndexOf(Rows(), src) >= 0 && 0 <= CostOf(Abs(), src) <= 31 * 255
      ensures c == ScanLinks(current[..count], src, CostOf(Abs(), src), links, best, |links|)
    {
      c := best;
      for i := 0 to |links|
        invariant c == ScanLinks(current[..count], src, CostOf(Abs(), src), links, best, i)
      {
        var settled := SetHasNode(current, count, links[i].dest);
        if !settled {
          var entry := GetRoutingEntryForNode(src);
          ConvertsExactly(links[i].cost, destinations[entry].cost);
          var nodeCost := I16(links[i].cost + destinations[entry].cost);
          c := SetShortest(c, src, links[i].dest, I16(U16(nodeCost)));
        }
      }
    }

    /** One pass over the settled set. */
    method FindShortest(current: array<Node>, count: nat) returns (c: Candidate)
      requires Valid() && count <= current.Length && count <= MAX_NUM_ROUTERS
      requires Costs(Abs(), current[..count])
      requires forall k | 0 <= k < count :: current[k] == id || IndexOf(Rows(), current[k]) >= 0
      ensures c == ScanNodes(Abs(), current[..count], count)
    {
      hide ScanLinks, IndexOf;
      c := NO_CANDIDATE;
      ghost var settled := current[..count];
      for j := 0 to count
        invariant c == ScanNodes(Abs(), settled, j)
      {
        assert settled[j] == current[j];
        if current[j] == id {
          c := ScanNeighbors(current, count, c);
        } else {
          var entry := GetRoutingEntryForNode(current[j]);
          assert 0 <= CostOf(Abs(), settled[j]) <= 255 * j;
          if destinations[entry].packet.Some? {
            c := ScanPacket(current, count, current[j], destinations[entry].packet.value.links, c);
          } else {
            NoLinks(settled, current[j], CostOf(Abs(), current[j]), c);
          }
        }
      }
    }

    /** Appends and indexes an empty row for a node that has none. */
    method AddEntry(n: Node) returns (entry: nat)
      requires Valid() && numDestinations < MAX_NUM_ROUTERS && IndexOf(Rows(), n) < 0
      modifies this`numDestinations, destinations, routingTable
      ensures Valid() && entry == |old(Rows())| && Rows() == old(Rows()) + [Entry(n, 0, 0, None)]
    {
      ghost var rows := Rows();
      entry := numDestinations;
      destinations[entry] := Entry(n, 0, 0, None);
      numDestinations := numDestinations + 1;
      assert Rows() == rows + [Entry(n, 0, 0, None)];
      RebuildRoutingTable();
    }

    /** Fills in an existing row; the index does not change. */
    method WriteEntry(entry: nat, g: nat, cost: int)
      requires Valid() && entry < |Rows()|
      modifies destinations
      ensures Valid() && Rows() == old(Rows())[entry := old(Rows())[entry].(gateway := g, cost := cost)]
    {
      ghost var rows := Rows();
      destinations[entry] := destinations[entry].(gateway := g, cost := cost);
      assert Rows() == rows[entry := rows[entry].(gateway := g, cost := cost)];
      forall n: Node ensures IndexOf(Rows(), n) == IndexOf(rows, n) {
        IndexIgnoresContents(rows, Rows(), n);
      }
    }

    /** Records the node just settled, adding and indexing its row when there is none. */
    method SettleEntry(c: Candidate)
      requires Valid() && numDestinations < MAX_NUM_ROUTERS && Recordable(Abs(), c)
      modifies this`numDestinations, destinations, routingTable
      ensures Valid() && Abs() == SettleOne(old(Abs()), c)
    {
      hide IndexOf, GatewayOf;
      ghost var r := Abs();
      var entry := GetRoutingEntryForNode(c.dest);
      if entry < 0 {
        GatewayKept(r, c);
        entry := AddEntry(c.dest);
      }
      var g := GetGatewayIdx(c);
      WriteEntry(entry, g, c.cost);
    }

    /** One turn of the settle loop: settles the nearest node, or reports that no link leaves. */
    method SettleTurn(current: array<Node>, count: nat, ghost order: seq<Node>) returns (c: Candidate)
      requires Valid() && count <= numDestinations < MAX_NUM_ROUTERS == current.Length
      requires order == current[..count] && Costs(Abs(), order)
      requires forall k | 0 <= k < |order| :: order[k] == id || IndexOf(Rows(), order[k]) >= 0
      requires var c := ScanNodes(Abs(), order, |order|); c.cost == -1 || Recordable(Abs(), c)
      modifies this`numDestinations, destinations, routingTable, current
      ensures c == ScanNodes(old(Abs()), order, |order|)
      ensures Valid() && Abs() == if c.cost == -1 then old(Abs()) else SettleOne(old(Abs()), c)
      ensures if c.cost == -1 then current[..count] == order else current[..count + 1] == order + [c.dest]
    {
      hide ScanNodes, SettleOne, IndexOf, CostOf, Recordable;
      assert forall k | 0 <= k < count :: current[k] == order[k];
      c := FindShortest(current, count);
      if c.cost != -1 {
        SettleEntry(c);
        current[count] := c.dest;
      }
    }

    /** The settle loop over a ls_set_t whose only member is this router. */
    method SettleLoop(current: array<Node>, ghost u: set<Node>) returns (count: nat)
      requires Valid() && current.Length == MAX_NUM_ROUTERS && current[..1] == [id]
      requires Settling(Abs(), Abs(), [id], u)
      modifies this`numDestinations, destinations, routingTable, current
      ensures Valid() && count <= current.Length
      ensures SettleAll(old(Abs()), [id]) == Outcome(Abs(), current[..count])
    {
      hide Settling, SettleAll, ScanNodes, SettleOne, IndexOf, Costs, CostOf, Recordable;
      ghost var start, order := Abs(), [id];
      count := 1;
      while count <= numDestinations
        invariant Valid() && 1 <= count <= MAX_NUM_ROUTERS && current[..count] == order
        invariant Settling(start, Abs(), order, u)
        decreases MAX_NUM_ROUTERS - count
      {
        SettlingNext(start, Abs(), order, u);
        var c := SettleTurn(current, count, order);
        if c.cost == -1 {
          return;
        }
        count, order := count + 1, order + [c.dest];
      }
      SettlingDone(start, Abs(), order, u);
    }

    method Settle(ghost u: set<Node>) returns (current: array<Node>, count: nat)
      requires Valid() && InUniverse(Abs(), u) && DistinctRows(Abs()) && DistinctNeighbors(neighbors)
      modifies this`numDestinations, destinations, routingTable
      ensures Valid() && count <= current.Length
      ensures SettleAll(old(Abs()), [id]) == Outcome(Abs(), current[..count])
    {
      current := new Node[MAX_NUM_ROUTERS](_ => 0);
      current[0] := id;
      SelfSettled(Abs());
      count := SettleLoop(current, u);
    }

    /** packet_has_update: the loop's body always returns in its first turn. */
    method HasUpdate(stored: Packet, incoming: Packet) returns (update: bool)
      ensures update == PacketHasUpdate(stored, incoming)
    {
      if incoming.seqNum > stored.seqNum {
        if |incoming.links| == |stored.links| {
          for i := 0 to |incoming.links|
            invariant i == 0
          {
            if incoming.links[i].dest == stored.links[i].dest && incoming.links[i].cost == stored.links[i].cost {
              return false;
            }
            return true;
          }
        }
        return true;
      }
      return false;
    }

    /** Decides on the packet and stores it. */
    method StorePacket(p: Packet) returns (accepted: bool)
      requires Valid() && (p.origin != id && IndexOf(Rows(), p.origin) < 0 ==> numDestinations < MAX_NUM_ROUTERS)
      modifies this`numDestinations, destinations, routingTable
      ensures Valid() && accepted == Accepts(old(Abs()), p)
      ensures Abs() == if accepted then Store(old(Abs()), p).value else Discard(old(Abs()), p)
    {
      ghost var r := Abs();
      if p.origin == id {
        return false;
      }
      var entry := GetRoutingEntryForNode(p.origin);
      if entry >= 0 {
        var e := destinations[entry];
        if e.packet.None? {
          e := e.(packet := Some(ZERO_PACKET));
        }
        accepted := HasUpdate(e.packet.value, p);
        if accepted {
          e := e.(packet := Some(p));
        }
        destinations[entry] := e;
        assert Rows() == r.dests[entry := e];
        forall n: Node ensures IndexOf(Rows(), n) == IndexOf(r.dests, n) {
          IndexIgnoresContents(r.dests, Rows(), n);
        }
      } else {
        destinations[numDestinations] := Entry(p.origin, 0, -1, Some(p));
        numDestinations := numDestinations + 1;
        assert Rows() == r.dests + [Entry(p.origin, 0, -1, Some(p))];
        RebuildRoutingTable();
        accepted := true;
      }
    }

    /** update_routing_table refines Update; the set `u` bounds the identifiers in play. */
    method UpdateRoutingTable(p: Packet, ghost u: set<Node>) returns (accepted: bool)
      requires Valid() && Sound(Abs())
      requires InUniverse(Abs(), u) && p.origin in u && TargetsIn(p.links, u)
      modifies this`numDestinations, destinations, routingTable
      ensures Valid() && Sound(Abs()) && InUniverse(Abs(), u)
      ensures Abs() == Update(old(Abs()), p) && accepted == Accepts(old(Abs()), p)
    {
      ghost var r := Abs();
      RowsFit(r, u);
      UpdateSound(r, p);
      UpdateUniverse(r, p, u);
      accepted := StorePacket(p);
      if accepted {
        StoreEffect(r, p);
        StoreUniverse(r, p, u);
        var current, count := Settle(u);
      }
    }

    /** create_packet, up to serialisation: the next sequence number and the neighbour table. */
    method CreatePacket() returns (p: Packet)
      requires Sized()
      modifies this`seqNum
      ensures Abs() == old(Abs()).(seqNum := U32(old(seqNum) + 1))
      ensures p == Packet(id, seqNum, neighbors)
    {
      seqNum := U32(seqNum + 1);
      p := Packet(id, seqNum, neighbors);
    }
  }

  lemma SettledHaveRows(r: Router, order: seq<Node>)
    requires SettleInv(r, order)
    ensures forall k | 0 <= k < |order| :: order[k] == r.id || IndexOf(r.dests, order[k]) >= 0
  {
    forall k | 0 <= k < |order| ensures order[k] == r.id || IndexOf(r.dests, order[k]) >= 0 {
      if k > 0 { assert RowAttained(r, order[k]); }
    }
  }

  /** The chosen link may be recorded: there is room for it, and the loop invariant survives. */
  lemma NextFits(r: Router, order: seq<Node>, c: Candidate, u: set<Node>)
    requires SettleInv(r, order) && DistinctRows(r) && DistinctNeighbors(r.nbrs) && InUniverse(r, u)
    requires forall n | n in order :: n in u
    requires c == ScanNodes(r, order, |order|) && c.cost != -1
    ensures |order| < MAX_NUM_ROUTERS && |r.dests| < MAX_NUM_ROUTERS && c.dest in u && c.dest != c.src
    ensures c.src == r.id ==> exists k :: 0 <= k < |r.nbrs| && r.nbrs[k].dest == c.dest
    ensures c.src != r.id ==> IndexOf(r.dests, c.src) >= 0
    ensures InUniverse(SettleOne(r, c), u) && DistinctRows(SettleOne(r, c))
    ensures SettleInv(SettleOne(r, c), order + [c.dest])
  {
    ScanNodesLeast(r, order, |order|);
    assert order[..|order|] == order && order[0] in order;
    RowsFit(r, u);
    CandidateTarget(r, order, c, u);
    SettledHaveRows(r, order);
    SettleOneUniverse(r, c, u);
    SettleOneRows(r, c);
    SettleStep(r, order);
    var l :| l in Out(r, c.src) && l.dest == c.dest;
    var k :| 0 <= k < |order| && order[k] == c.src;
    CostArithmeticSafe(r, order, u, k, l);
  }

  /** What holds each time round the settle loop: the rest of the loop still leads to the result
      that it had from the start. */
  ghost predicate Settling(start: Router, r: Router, order: seq<Node>, u: set<Node>) {
    && SettleInv(r, order) && DistinctRows(r) && DistinctNeighbors(r.nbrs) && InUniverse(r, u)
    && (forall n | n in order :: n in u)
    && SettleAll(r, order) == SettleAll(start, [start.id])
  }

  /** The chosen link's row can be written: its gateway is defined. */
  ghost predicate Recordable(r: Router, c: Candidate) {
    && c.dest != c.src
    && (c.src == r.id ==> exists k :: 0 <= k < |r.nbrs| && r.nbrs[k].dest == c.dest)
    && (c.src != r.id ==> IndexOf(r.dests, c.src) >= 0)
  }

  lemma SettlingNext(start: Router, r: Router, order: seq<Node>, u: set<Node>)
    requires Settling(start, r, order, u) && |order| <= |r.dests|
    ensures Costs(r, order)
    ensures forall k | 0 <= k < |order| :: order[k] == r.id || IndexOf(r.dests, order[k]) >= 0
    ensures var c := ScanNodes(r, order, |order|);
      && |r.dests| < MAX_NUM_ROUTERS
      && if c.cost == -1 then SettleAll(start, [start.id]) == Outcome(r, order)
      else
        && |order| < MAX_NUM_ROUTERS && Recordable(r, c)
        && Settling(start, SettleOne(r, c), order + [c.dest], u)
  {
    hide Costs, InUniverse;
    SettledHaveRows(r, order);
    RowsFit(r, u);
    var c := ScanNodes(r, order, |order|);
    if c.cost != -1 {
      NextFits(r, order, c, u);
      DistinctNodes(order + [c.dest]);
    }
  }

  lemma SettlingDone(start: Router, r: Router, order: seq<Node>, u: set<Node>)
    requires Settling(start, r, order, u) && |order| > |r.dests|
    ensures SettleAll(start, [start.id]) == Outcome(r, order)
  {
  }

  lemma StoreUniverse(r: Router, p: Packet, u: set<Node>)
    requires InUniverse(r, u) && p.origin in u && TargetsIn(p.links, u) && Accepts(r, p)
    ensures InUniverse(Store(r, p).value, u)
  {
    var s := Store(r, p).value;
    forall i | 0 <= i < |s.dests| ensures s.dests[i].dest in u && TargetsIn(StoredPacket(s.dests[i]).links, u) {
      if i < |r.dests| { assert TargetsIn(StoredPacket(r.dests[i]).links, u); }
    }
  }

  lemma {:induction false} SettleAllUniverse(r: Router, order: seq<Node>, u: set<Node>)
    requires SettleInv(r, order) && DistinctRows(r) && DistinctNeighbors(r.nbrs) && InUniverse(r, u)
    requires forall n | n in order :: n in u
    ensures InUniverse(SettleAll(r, order).router, u)
    decreases NODE_LIMIT - |order|
  {
    var c := ScanNodes(r, order, |order|);
    if |order| <= |r.dests| && c.cost != -1 {
      NextFits(r, order, c, u);
      DistinctNodes(order + [c.dest]);
      SettleAllUniverse(SettleOne(r, c), order + [c.dest], u);
    }
  }

  lemma UpdateUniverse(r: Router, p: Packet, u: set<Node>)
    requires Sound(r) && InUniverse(r, u) && p.origin in u && TargetsIn(p.links, u)
    ensures InUniverse(Update(r, p), u)
  {
    if Accepts(r, p) {
      var s := Store(r, p).value;
      StoreUniverse(r, p, u);
      StoreEffect(r, p);
      SelfSettled(s);
      SettleAllUniverse(s, [s.id], u);
    } else {
      var d := Discard(r, p);
      forall i | 0 <= i < |d.dests| ensures d.dests[i].dest in u && TargetsIn(StoredPacket(d.dests[i]).links, u) {
        assert TargetsIn(StoredPacket(r.dests[i]).links, u);
      }
    }
  }
}
