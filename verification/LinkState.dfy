/** One link-state router as a value: the tables of PA3/router.h and, as functions, what
    update_routing_table and its helpers compute from them. */
module LinkState {
  import opened Prelude

  const MAX_NUM_ROUTERS := 32
  const NODE_LIMIT := 255

  type Node = n: int | 0 <= n < NODE_LIMIT
  type LinkCost = c: int | 0 <= c < 256

  datatype Link = Link(dest: Node, cost: LinkCost)

  datatype Packet = Packet(origin: Node, seqNum: nat, links: seq<Link>)

  /** A row of _m_destinations; a cost of -1 marks a row that no path has reached yet. */
  datatype Entry = Entry(dest: Node, gateway: nat, cost: int, packet: Option<Packet>)

  /** ls_link_t: the best link found so far, with cost -1 for "none". */
  datatype Candidate = Candidate(src: Node, dest: Node, cost: int)

  datatype Router = Router(id: Node, seqNum: nat, nbrs: seq<Link>, dests: seq<Entry>)

  /** What calloc leaves in a fresh packet. */
  const ZERO_PACKET := Packet(0, 0, [])

  const NO_CANDIDATE := Candidate(0, 0, -1)

  /** Position of the last row for `n`, or -1: what rebuilding the index leaves for `n`. */
  function IndexOf(dests: seq<Entry>, n: Node): (i: int)
    ensures -1 <= i < |dests|
    ensures i >= 0 ==> dests[i].dest == n
    ensures i == -1 ==> forall k | 0 <= k < |dests| :: dests[k].dest != n
  {
    if dests == [] then -1
    else if dests[|dests| - 1].dest == n then |dests| - 1
    else IndexOf(dests[..|dests| - 1], n)
  }

  /** First neighbour with identifier `n`, or the table's length if there is none. */
  function NeighborIndex(nbrs: seq<Link>, n: Node): (i: nat)
    ensures i <= |nbrs|
    ensures i < |nbrs| ==> nbrs[i].dest == n
    ensures forall k | 0 <= k < i :: nbrs[k].dest != n
  {
    if nbrs == [] || nbrs[0].dest == n then 0 else 1 + NeighborIndex(nbrs[1..], n)
  }

  /** The packet stored for origin `n`. */
  function PacketOf(r: Router, n: Node): Option<Packet> {
    var i := IndexOf(r.dests, n);
    if i >= 0 then r.dests[i].packet else None
  }

  /** The links this router knows to leave `n`. */
  function Out(r: Router, n: Node): seq<Link> {
    if n == r.id then r.nbrs
    else if PacketOf(r, n).Some? then PacketOf(r, n).value.links
    else []
  }

  function CostOf(r: Router, n: Node): int {
    if n == r.id then 0
    else
      var i := IndexOf(r.dests, n);
      if i >= 0 then r.dests[i].cost else -1
  }

  /** The code's packet_has_update: with equal lengths only the first entry is compared. */
  function PacketHasUpdate(stored: Packet, incoming: Packet): bool {
    && incoming.seqNum > stored.seqNum
    && (|incoming.links| == |stored.links| && |incoming.links| > 0 ==>
          incoming.links[0] != stored.links[0])
  }

  function SetShortest(best: Candidate, src: Node, dest: Node, total: int): Candidate {
    if || best.cost == -1
       || total < best.cost
       || (total == best.cost && src < best.src)
       || (total == best.cost && src == best.src && dest < best.dest)
    then Candidate(src, dest, total)
    else best
  }

  /** Folds the first `k` links leaving `src` into `best`, skipping settled targets. */
  function ScanLinks(settled: seq<Node>, src: Node, base: int, links: seq<Link>, best: Candidate,
                     k: nat): (c: Candidate)
    requires k <= |links|
    ensures best.cost == -1 || best.dest !in settled ==> c.cost == -1 || c.dest !in settled
  {
    if k == 0 then best
    else
      var c := ScanLinks(settled, src, base, links, best, k - 1);
      var l := links[k - 1];
      if l.dest in settled then c else SetShortest(c, src, l.dest, base + l.cost)
  }

  /** The best link leaving the settled set among those starting at its first `j` members. */
  function ScanNodes(r: Router, settled: seq<Node>, j: nat): (c: Candidate)
    requires j <= |settled|
    ensures c.cost == -1 || c.dest !in settled
  {
    if j == 0 then NO_CANDIDATE
    else
      var c := ScanNodes(r, settled, j - 1);
      var src := settled[j - 1];
      ScanLinks(settled, src, CostOf(r, src), Out(r, src), c, |Out(r, src)|)
  }

  function GatewayOf(r: Router, c: Candidate): nat {
    if c.src == r.id then NeighborIndex(r.nbrs, c.dest)
    else
      var i := IndexOf(r.dests, c.src);
      if i >= 0 then r.dests[i].gateway else 0
  }

  /** Writes the row of the node just settled, adding the row if there was none. */
  function SettleOne(r: Router, c: Candidate): Router {
    var i := IndexOf(r.dests, c.dest);
    var rows := if i >= 0 then r.dests else r.dests + [Entry(c.dest, 0, 0, None)];
    var row := if i >= 0 then i else |r.dests|;
    r.(dests := rows[row := rows[row].(gateway := GatewayOf(r, c), cost := c.cost)])
  }

  datatype Outcome = Outcome(router: Router, order: seq<Node>)

  lemma DistinctNodes(s: seq<Node>)
    requires Distinct(s)
    ensures |s| <= NODE_LIMIT
  {
    BelowCardinality(NODE_LIMIT);
    DistinctFits<int>(s, Below(NODE_LIMIT));
  }

  /** The settle loop of update_routing_table, with the order in which nodes were settled. */
  function SettleAll(r: Router, settled: seq<Node>): Outcome
    requires Distinct(settled)
    decreases NODE_LIMIT - |settled|
  {
    if |settled| > |r.dests| then Outcome(r, settled)
    else
      var c := ScanNodes(r, settled, |settled|);
      if c.cost == -1 then Outcome(r, settled)
      else
        DistinctNodes(settled + [c.dest]);
        SettleAll(SettleOne(r, c), settled + [c.dest])
  }

  /** Rows after the packet is stored, before distances are recomputed; None if it is discarded. */
  function Store(r: Router, p: Packet): Option<Router> {
    if p.origin == r.id then None
    else
      var i := IndexOf(r.dests, p.origin);
      if i < 0 then Some(r.(dests := r.dests + [Entry(p.origin, 0, -1, Some(p))]))
      else if PacketHasUpdate(StoredPacket(r.dests[i]), p) then
        Some(r.(dests := r.dests[i := r.dests[i].(packet := Some(p))]))
      else None
  }

  function StoredPacket(e: Entry): Packet {
    if e.packet.Some? then e.packet.value else ZERO_PACKET
  }

  /** A discarded packet still leaves a zeroed packet in a row that had none. */
  function Discard(r: Router, p: Packet): Router {
    var i := if p.origin == r.id then -1 else IndexOf(r.dests, p.origin);
    if i < 0 then r
    else r.(dests := r.dests[i := r.dests[i].(packet := Some(StoredPacket(r.dests[i])))])
  }

  function Accepts(r: Router, p: Packet): bool {
    Store(r, p).Some?
  }

  /** update_routing_table: the router after processing `p`. */
  function Update(r: Router, p: Packet): Router {
    match Store(r, p)
    case Some(stored) => SettleAll(stored, [r.id]).router
    case None => Discard(r, p)
  }
}
