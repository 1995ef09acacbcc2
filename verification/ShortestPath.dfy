/** The settle loop computes exact shortest paths over the graph a router knows. */
module ShortestPath {
  import opened Prelude
  import opened LinkState

  type Graph = map<Node, seq<Link>>

  // ---- Walks: the independent definition of distance ----

  function Adj(g: Graph, n: Node): seq<Link> {
    if n in g then g[n] else []
  }

  ghost predicate IsWalk(g: Graph, from: Node, w: seq<Link>)
    decreases |w|
  {
    w == [] || (w[0] in Adj(g, from) && IsWalk(g, w[0].dest, w[1..]))
  }

  function End(from: Node, w: seq<Link>): Node {
    if w == [] then from else w[|w| - 1].dest
  }

  function Length(w: seq<Link>): nat {
    if w == [] then 0 else w[0].cost + Length(w[1..])
  }

  lemma {:induction false} AppendLink(g: Graph, from: Node, w: seq<Link>, l: Link)
    requires IsWalk(g, from, w) && l in Adj(g, End(from, w))
    ensures IsWalk(g, from, w + [l]) && Length(w + [l]) == Length(w) + l.cost && End(from, w + [l]) == l.dest
    decreases |w|
  {
    if w == [] {
      assert ([l] + [])[1..] == [];
      assert w + [l] == [l];
      assert Length([l]) == l.cost + Length([l][1..]);
    } else {
      assert (w + [l])[1..] == w[1..] + [l];
      assert End(w[0].dest, w[1..]) == End(from, w);
      AppendLink(g, w[0].dest, w[1..], l);
    }
  }

  /** Everything this router knows: its own neighbour table and the packets it stores. */
  function Known(r: Router): Graph {
    map n: Node | 0 <= n < NODE_LIMIT :: Out(r, n)
  }

  // ---- The scan finds the lexicographically least link leaving the settled set ----

  predicate Precedes(a: Candidate, b: Candidate) {
    || a.cost < b.cost
    || (a.cost == b.cost && (a.src < b.src || (a.src == b.src && a.dest <= b.dest)))
  }

  ghost predicate Leaves(r: Router, settled: seq<Node>, c: Candidate) {
    exists l :: l in Out(r, c.src) && l.dest == c.dest && l.dest !in settled && c.cost == CostOf(r, c.src) + l.cost
  }

  lemma {:induction false} ScanLinksLeast(settled: seq<Node>, src: Node, base: int, links: seq<Link>,
                                          best: Candidate, k: nat)
    requires k <= |links| && base >= 0 && best.cost >= -1
    ensures var c := ScanLinks(settled, src, base, links, best, k);
      && (c == best || (c.src == src && c.dest !in settled
                        && exists i :: 0 <= i < k && links[i].dest == c.dest && c.cost == base + links[i].cost))
      && c.cost >= -1
      && (best.cost != -1 ==> c.cost != -1 && Precedes(c, best))
      && (forall i | 0 <= i < k && links[i].dest !in settled ::
            c.cost != -1 && Precedes(c, Candidate(src, links[i].dest, base + links[i].cost)))
  {
    if k > 0 {
      ScanLinksLeast(settled, src, base, links, best, k - 1);
    }
  }

  lemma {:induction false} ScanNodesFound(r: Router, settled: seq<Node>, j: nat)
    requires j <= |settled|
    requires forall k | 0 <= k < j :: CostOf(r, settled[k]) >= 0
    ensures var c := ScanNodes(r, settled, j);
      c.cost >= -1 && (c.cost != -1 ==> c.src in settled[..j] && Leaves(r, settled, c))
  {
    hide CostOf, Out, Leaves;
    if j > 0 {
      ScanNodesFound(r, settled, j - 1);
      var best := ScanNodes(r, settled, j - 1);
      var src := settled[j - 1];
      var links := Out(r, src);
      ScanLinksLeast(settled, src, CostOf(r, src), links, best, |links|);
      var c := ScanNodes(r, settled, j);
      assert c == ScanLinks(settled, src, CostOf(r, src), links, best, |links|);
      assert settled[..j] == settled[..j - 1] + [src];
      if c != best {
        var i :| 0 <= i < |links| && links[i].dest == c.dest && c.cost == CostOf(r, src) + links[i].cost;
        LeavesBy(r, settled, c, links[i]);
      }
    }
  }

  lemma LeavesBy(r: Router, settled: seq<Node>, c: Candidate, l: Link)
    requires l in Out(r, c.src) && l.dest == c.dest && l.dest !in settled && c.cost == CostOf(r, c.src) + l.cost
    ensures Leaves(r, settled, c)
  {
  }

  /** What one scan returns: none exactly when no link leaves the settled set, and otherwise
      the least such link by total cost, then source, then destination. */
  lemma {:induction false} ScanNodesLeast(r: Router, settled: seq<Node>, j: nat)
    requires j <= |settled|
    requires forall k | 0 <= k < j :: CostOf(r, settled[k]) >= 0
    ensures var c := ScanNodes(r, settled, j);
      && c.cost >= -1
      && (c.cost != -1 ==> c.src in settled[..j] && Leaves(r, settled, c))
      && (forall k, l | 0 <= k < j && l in Out(r, settled[k]) && l.dest !in settled ::
            c.cost != -1 && Precedes(c, Candidate(settled[k], l.dest, CostOf(r, settled[k]) + l.cost)))
  {
    hide CostOf, Out, Leaves, ScanLinks;
    ScanNodesFound(r, settled, j);
    if j > 0 {
      ScanNodesLeast(r, settled, j - 1);
      var best := ScanNodes(r, settled, j - 1);
      var src := settled[j - 1];
      var links := Out(r, src);
      ScanLinksLeast(settled, src, CostOf(r, src), links, best, |links|);
      var c := ScanNodes(r, settled, j);
      assert c == ScanLinks(settled, src, CostOf(r, src), links, best, |links|);
      assert best.cost != -1 ==> c.cost != -1 && Precedes(c, best);
      forall k, l | 0 <= k < j && l in Out(r, settled[k]) && l.dest !in settled
        ensures c.cost != -1 && Precedes(c, Candidate(settled[k], l.dest, CostOf(r, settled[k]) + l.cost))
      {
        var other := Candidate(settled[k], l.dest, CostOf(r, settled[k]) + l.cost);
        if k == j - 1 {
          var i :| 0 <= i < |links| && links[i] == l;
        } else {
          assert best.cost != -1 && Precedes(best, other);
        }
      }
    }
  }

  // ---- The invariant of the settle loop ----

  /** Some walk from the router costs `cost`, ends at `n` and starts with neighbour `gateway`. */
  ghost predicate Attained(r: Router, gateway: nat, n: Node, cost: int) {
    && gateway < |r.nbrs|
    && exists w :: IsRoute(r, gateway, n, cost, w)
  }

  ghost predicate IsRoute(r: Router, gateway: nat, n: Node, cost: int, w: seq<Link>)
    requires gateway < |r.nbrs|
  {
    w != [] && w[0] == r.nbrs[gateway] && IsWalk(Known(r), r.id, w) && End(r.id, w) == n && Length(w) == cost
  }

  /** The row of `n` exists and is witnessed by a walk through its gateway. */
  ghost predicate RowAttained(r: Router, n: Node) {
    var i := IndexOf(r.dests, n);
    i >= 0 && Attained(r, r.dests[i].gateway, n, r.dests[i].cost)
  }

  /** No settled node could be reached more cheaply over one settled link. */
  ghost predicate Relaxed(r: Router, order: seq<Node>) {
    forall j, l | 0 <= j < |order| && l in Out(r, order[j]) && l.dest in order ::
      CostOf(r, l.dest) <= CostOf(r, order[j]) + l.cost
  }

  /** Every link leaving the settled set leads at least as far as the node settled last. */
  ghost predicate Frontier(r: Router, order: seq<Node>)
    requires order != []
  {
    forall j, l | 0 <= j < |order| && l in Out(r, order[j]) && l.dest !in order ::
      CostOf(r, order[|order| - 1]) <= CostOf(r, order[j]) + l.cost
  }

  ghost predicate Costs(r: Router, order: seq<Node>) {
    && (forall k | 0 <= k < |order| :: 0 <= CostOf(r, order[k]) <= 255 * k)
    && (forall j, k | 0 <= j <= k < |order| :: CostOf(r, order[j]) <= CostOf(r, order[k]))
  }

  ghost predicate SettleInv(r: Router, order: seq<Node>) {
    && order != [] && order[0] == r.id
    && Distinct(order)
    && Costs(r, order)
    && Relaxed(r, order)
    && Frontier(r, order)
    && (forall k | 1 <= k < |order| :: RowAttained(r, order[k]))
  }

  /** Neighbour identifiers do not repeat. */
  predicate DistinctNeighbors(nbrs: seq<Link>) {
    forall i, j | 0 <= i < j < |nbrs| :: nbrs[i].dest != nbrs[j].dest
  }

  /** No two rows share a destination and no row is the router itself. */
  predicate DistinctRows(r: Router) {
    && (forall i, j | 0 <= i < j < |r.dests| :: r.dests[i].dest != r.dests[j].dest)
    && (forall i | 0 <= i < |r.dests| :: r.dests[i].dest != r.id)
  }

  ghost predicate NoExit(r: Router, order: seq<Node>) {
    forall n, l | n in order && l in Out(r, n) :: l.dest in order
  }

  /** The two ways the settle loop stops. */
  ghost predicate Exhausted(r: Router, order: seq<Node>) {
    |order| > |r.dests| || NoExit(r, order)
  }

  lemma SelfSettled(r: Router)
    ensures SettleInv(r, [r.id])
  {
  }

  lemma IndexAfterSettle(r: Router, c: Candidate, n: Node)
    ensures var r' := SettleOne(r, c);
      && (n != c.dest ==> IndexOf(r'.dests, n) == IndexOf(r.dests, n))
      && (n == c.dest ==> IndexOf(r'.dests, n) == if IndexOf(r.dests, n) >= 0 then IndexOf(r.dests, n) else |r.dests|)
  {
    var i := IndexOf(r.dests, c.dest);
    var rows := if i >= 0 then r.dests else r.dests + [Entry(c.dest, 0, 0, None)];
    var row := if i >= 0 then i else |r.dests|;
    if i < 0 { assert rows[..|rows| - 1] == r.dests; }
    IndexIgnoresContents(rows, SettleOne(r, c).dests, n);
  }

  /** Looking a node up depends only on the identifiers of the rows. */
  lemma {:induction false} IndexIgnoresContents(a: seq<Entry>, b: seq<Entry>, n: Node)
    requires |a| == |b| && forall k | 0 <= k < |a| :: a[k].dest == b[k].dest
    ensures IndexOf(a, n) == IndexOf(b, n)
  {
    if a != [] {
      IndexIgnoresContents(a[..|a| - 1], b[..|b| - 1], n);
    }
  }

  /** Writing a row changes neither what the router knows nor any other node's cost. */
  lemma SettleOneEffect(r: Router, c: Candidate)
    requires c.dest != r.id
    ensures var r' := SettleOne(r, c);
      && r'.id == r.id && r'.nbrs == r.nbrs && r'.seqNum == r.seqNum
      && (forall n :: PacketOf(r', n) == PacketOf(r, n)) && Known(r') == Known(r)
      && (forall n :: Out(r', n) == Out(r, n))
      && (forall n | n != c.dest :: CostOf(r', n) == CostOf(r, n))
      && CostOf(r', c.dest) == c.cost
      && (forall n | n != c.dest && n != r.id && RowAttained(r, n) :: RowAttained(r', n))
  {
    var r' := SettleOne(r, c);
    forall n: Node
      ensures PacketOf(r', n) == PacketOf(r, n) && (n != c.dest ==> CostOf(r', n) == CostOf(r, n))
    {
      IndexAfterSettle(r, c, n);
    }
    IndexAfterSettle(r, c, c.dest);
    assert forall n :: Out(r', n) == Out(r, n);
    assert Known(r') == Known(r);
    forall n | n != c.dest && n != r.id && RowAttained(r, n) ensures RowAttained(r', n) {
      IndexAfterSettle(r, c, n);
      var i := IndexOf(r.dests, n);
      var w :| IsRoute(r, r.dests[i].gateway, n, r.dests[i].cost, w);
      assert IsRoute(r', r'.dests[i].gateway, n, r'.dests[i].cost, w);
    }
  }

  /** The gateway rule for a direct neighbour: it is its own gateway. */
  lemma NeighborRowAttained(r: Router, c: Candidate, l: Link)
    requires DistinctNeighbors(r.nbrs)
    requires c.src == r.id && l in r.nbrs && l.dest == c.dest && c.dest != r.id && c.cost == l.cost
    ensures RowAttained(SettleOne(r, c), c.dest)
  {
    var r' := SettleOne(r, c);
    SettleOneEffect(r, c);
    IndexAfterSettle(r, c, c.dest);
    var w := [l];
    AppendLink(Known(r), r.id, [], l);
    assert [] + [l] == w;
    assert r.nbrs[GatewayOf(r, c)] == l;
    assert IsRoute(r', GatewayOf(r, c), c.dest, c.cost, w);
  }

  /** The gateway rule for any other node: it inherits its predecessor's gateway, so the walk
      through that gateway extends by one link. */
  lemma DistantRowAttained(r: Router, c: Candidate, l: Link)
    requires c.src != r.id && RowAttained(r, c.src)
    requires l in Out(r, c.src) && l.dest == c.dest && c.dest != r.id && c.cost == CostOf(r, c.src) + l.cost
    ensures RowAttained(SettleOne(r, c), c.dest)
  {
    var r' := SettleOne(r, c);
    SettleOneEffect(r, c);
    IndexAfterSettle(r, c, c.dest);
    var i := IndexOf(r.dests, c.src);
    var g := r.dests[i].gateway;
    var v :| IsRoute(r, g, c.src, r.dests[i].cost, v);
    AppendLink(Known(r), r.id, v, l);
    assert IsRoute(r', g, c.dest, c.cost, v + [l]);
  }

  /** The next candidate is at least as far as every settled node and at most one link further. */
  lemma StepCosts(r: Router, order: seq<Node>, c: Candidate)
    requires order != [] && Costs(r, order) && Frontier(r, order) && c.dest != r.id
    requires c.src in order && c.dest !in order && Leaves(r, order, c)
    ensures CostOf(r, order[|order| - 1]) <= c.cost
    ensures Costs(SettleOne(r, c), order + [c.dest])
  {
    var r' := SettleOne(r, c);
    SettleOneEffect(r, c);
    var s :| 0 <= s < |order| && order[s] == c.src;
    CostsExtend(r, r', order, c);
  }

  /** A node no nearer than the last settled one, and at most one link further than some, extends the order. */
  lemma CostsExtend(r: Router, r': Router, order: seq<Node>, c: Candidate)
    requires order != [] && Costs(r, order) && c.dest !in order
    requires forall n | n != c.dest :: CostOf(r', n) == CostOf(r, n)
    requires CostOf(r', c.dest) == c.cost
    requires CostOf(r, order[|order| - 1]) <= c.cost <= CostOf(r, order[|order| - 1]) + 255
    ensures Costs(r', order + [c.dest])
  {
    hide CostOf;
    var order' := order + [c.dest];
    forall k | 0 <= k < |order| ensures order'[k] == order[k] && CostOf(r', order'[k]) == CostOf(r, order[k]) {
      assert order[k] in order;
    }
    assert order'[|order|] == c.dest;
  }

  lemma StepRows(r: Router, order: seq<Node>, c: Candidate)
    requires SettleInv(r, order) && DistinctNeighbors(r.nbrs)
    requires c.src in order && c.dest !in order && Leaves(r, order, c)
    ensures forall k | 1 <= k < |order| + 1 :: RowAttained(SettleOne(r, c), (order + [c.dest])[k])
  {
    var r', order' := SettleOne(r, c), order + [c.dest];
    assert order[0] in order;
    SettleOneEffect(r, c);
    var l :| l in Out(r, c.src) && l.dest == c.dest && l.dest !in order && c.cost == CostOf(r, c.src) + l.cost;
    if c.src == r.id {
      NeighborRowAttained(r, c, l);
    } else {
      var s :| 0 <= s < |order| && order[s] == c.src;
      assert RowAttained(r, c.src);
      DistantRowAttained(r, c, l);
    }
    forall k | 1 <= k < |order| + 1 ensures RowAttained(r', order'[k]) {
      if k < |order| { assert RowAttained(r, order[k]) && order[k] != order[0]; }
    }
  }

  /** Settling the least candidate keeps the invariant. */
  lemma SettleStep(r: Router, order: seq<Node>)
    requires SettleInv(r, order) && DistinctNeighbors(r.nbrs)
    requires ScanNodes(r, order, |order|).cost != -1
    ensures var c := ScanNodes(r, order, |order|);
      SettleInv(SettleOne(r, c), order + [c.dest])
  {
    hide Leaves, CostOf, Out;
    var c := ScanNodes(r, order, |order|);
    ScanNodesFound(r, order, |order|);
    assert order[..|order|] == order;
    assert order[0] in order;
    StepCosts(r, order, c);
    StepRelaxed(r, order, c);
    StepRows(r, order, c);
    assert Distinct(order + [c.dest]);
  }

  /** A link known to leave an already settled node stays relaxed when the least candidate settles. */
  lemma StepRelaxedOld(r: Router, order: seq<Node>, c: Candidate, j: nat, m: Link)
    requires Relaxed(r, order) && Costs(r, order) && j < |order| && m in Out(r, order[j])
    requires c == ScanNodes(r, order, |order|) && c.cost != -1
    ensures m.dest in order ==> CostOf(r, m.dest) <= CostOf(r, order[j]) + m.cost
    ensures m.dest !in order ==> c.cost <= CostOf(r, order[j]) + m.cost
  {
    ScanNodesLeast(r, order, |order|);
    if m.dest !in order {
      assert Precedes(c, Candidate(order[j], m.dest, CostOf(r, order[j]) + m.cost));
    }
  }

  lemma CostsBelowLast(r: Router, order: seq<Node>, n: Node)
    requires Costs(r, order) && n in order
    ensures 0 <= CostOf(r, n) <= CostOf(r, order[|order| - 1])
  {
    var k :| 0 <= k < |order| && order[k] == n;
    assert CostOf(r, order[k]) <= CostOf(r, order[|order| - 1]);
  }

  lemma StepRelaxed(r: Router, order: seq<Node>, c: Candidate)
    requires order != [] && Relaxed(r, order) && Costs(r, order)
    requires c == ScanNodes(r, order, |order|) && c.cost != -1
    requires CostOf(r, order[|order| - 1]) <= c.cost && c.dest != r.id && c.dest !in order
    ensures Relaxed(SettleOne(r, c), order + [c.dest]) && Frontier(SettleOne(r, c), order + [c.dest])
  {
    var r', order' := SettleOne(r, c), order + [c.dest];
    SettleOneEffect(r, c);
    forall j, m | 0 <= j < |order'| && m in Out(r', order'[j])
      ensures m.dest in order' ==> CostOf(r', m.dest) <= CostOf(r', order'[j]) + m.cost
      ensures m.dest !in order' ==> c.cost <= CostOf(r', order'[j]) + m.cost
    {
      if j < |order| {
        StepRelaxedOld(r, order, c, j, m);
      } else if m.dest in order {
        CostsBelowLast(r, order, m.dest);
      }
    }
  }

  // ---- The whole loop ----

  lemma NothingLeaves(r: Router, order: seq<Node>)
    requires Costs(r, order) && ScanNodes(r, order, |order|).cost == -1
    ensures NoExit(r, order)
  {
    ScanNodesLeast(r, order, |order|);
    forall n, l | n in order && l in Out(r, n) ensures l.dest in order {
      var k :| 0 <= k < |order| && order[k] == n;
    }
  }

  lemma SettleOneRows(r: Router, c: Candidate)
    requires c.dest != r.id && DistinctRows(r)
    ensures DistinctRows(SettleOne(r, c))
    ensures forall n | IndexOf(r.dests, n) >= 0 :: IndexOf(SettleOne(r, c).dests, n) >= 0
  {
    forall n | IndexOf(r.dests, n) >= 0 ensures IndexOf(SettleOne(r, c).dests, n) >= 0 {
      IndexAfterSettle(r, c, n);
    }
  }

  /** Rows without a path apart, every row is witnessed by a walk. */
  ghost predicate RowsTrue(r: Router) {
    forall i | 0 <= i < |r.dests| :: r.dests[i].cost == -1 || RowAttained(r, r.dests[i].dest)
  }

  lemma RowsStayTrue(r: Router, c: Candidate)
    requires DistinctRows(r) && RowsTrue(r) && c.dest != r.id && RowAttained(SettleOne(r, c), c.dest)
    ensures RowsTrue(SettleOne(r, c))
  {
    var r' := SettleOne(r, c);
    SettleOneEffect(r, c);
    forall i | 0 <= i < |r'.dests| && r'.dests[i].cost != -1 ensures RowAttained(r', r'.dests[i].dest) {
      if r'.dests[i].dest != c.dest { assert RowAttained(r, r.dests[i].dest); }
    }
  }

  lemma SettleOneTrue(r: Router, order: seq<Node>)
    requires SettleInv(r, order) && DistinctNeighbors(r.nbrs) && DistinctRows(r) && RowsTrue(r)
    requires ScanNodes(r, order, |order|).cost != -1
    ensures RowsTrue(SettleOne(r, ScanNodes(r, order, |order|)))
  {
    var c := ScanNodes(r, order, |order|);
    ScanNodesFound(r, order, |order|);
    assert order[..|order|] == order && order[0] in order;
    StepRows(r, order, c);
    assert (order + [c.dest])[|order|] == c.dest;
    RowsStayTrue(r, c);
  }

  /** The same router with the same knowledge, and with at least the same rows. */
  ghost predicate Extends(r: Router, r': Router) {
    && r'.id == r.id && r'.nbrs == r.nbrs && r'.seqNum == r.seqNum
    && (forall n :: PacketOf(r', n) == PacketOf(r, n)) && Known(r') == Known(r)
    && (forall n | IndexOf(r.dests, n) >= 0 :: IndexOf(r'.dests, n) >= 0)
  }

  lemma ExtendsOn(a: Router, b: Router, c: Router)
    requires Extends(a, b) && Extends(b, c)
    ensures Extends(a, c)
  {
    forall n ensures PacketOf(c, n) == PacketOf(a, n) { assert PacketOf(b, n) == PacketOf(a, n); }
    forall n | IndexOf(a.dests, n) >= 0 ensures IndexOf(c.dests, n) >= 0 { assert IndexOf(b.dests, n) >= 0; }
  }

  lemma SettleTurn(r: Router, order: seq<Node>)
    requires SettleInv(r, order) && DistinctNeighbors(r.nbrs) && DistinctRows(r)
    requires ScanNodes(r, order, |order|).cost != -1
    ensures var c := ScanNodes(r, order, |order|); var r' := SettleOne(r, c);
      && SettleInv(r', order + [c.dest]) && DistinctRows(r') && Extends(r, r')
      && (RowsTrue(r) ==> RowsTrue(r'))
      && |order| + 1 <= NODE_LIMIT
  {
    var c := ScanNodes(r, order, |order|);
    ScanNodesFound(r, order, |order|);
    assert order[0] in order;
    SettleStep(r, order);
    SettleOneEffect(r, c);
    SettleOneRows(r, c);
    if RowsTrue(r) { SettleOneTrue(r, order); }
    DistinctNodes(order + [c.dest]);
  }

  /** The settle loop keeps what is known, ends in one of its two ways, and ends with the
      invariant; termination is the function's own, although rows are added on the way. */
  lemma {:induction false} SettleAllInv(r: Router, order: seq<Node>)
    requires SettleInv(r, order) && DistinctNeighbors(r.nbrs) && DistinctRows(r)
    ensures var o := SettleAll(r, order);
      && Extends(r, o.router) && DistinctRows(o.router) && (RowsTrue(r) ==> RowsTrue(o.router))
      && SettleInv(o.router, o.order) && Exhausted(o.router, o.order)
      && order <= o.order
    decreases NODE_LIMIT - |order|
  {
    if |order| <= |r.dests| {
      var c := ScanNodes(r, order, |order|);
      if c.cost == -1 {
        NothingLeaves(r, order);
      } else {
        var r', order' := SettleOne(r, c), order + [c.dest];
        SettleTurn(r, order);
        SettleAllInv(r', order');
        ExtendsOn(r, r', SettleAll(r', order').router);
      }
    }
  }

  /** Every walk that starts at a settled node costs at least as much as the invariant allows:
      it cannot undercut a settled endpoint, nor reach an unsettled one before all settled ones. */
  lemma {:induction false} WalkBound(r: Router, order: seq<Node>, n: Node, w: seq<Link>)
    requires SettleInv(r, order) && n in order && IsWalk(Known(r), n, w)
    ensures End(n, w) in order ==> CostOf(r, End(n, w)) <= CostOf(r, n) + Length(w)
    ensures End(n, w) !in order ==> CostOf(r, order[|order| - 1]) <= CostOf(r, n) + Length(w)
    decreases |w|
  {
    if w != [] {
      var m := w[0].dest;
      var j :| 0 <= j < |order| && order[j] == n;
      assert w[0] in Out(r, order[j]);
      assert End(m, w[1..]) == End(n, w);
      if m in order {
        WalkBound(r, order, m, w[1..]);
      } else if End(n, w) in order {
        var k :| 0 <= k < |order| && order[k] == End(n, w);
        assert CostOf(r, order[k]) <= CostOf(r, order[|order| - 1]);
      }
    }
  }

  /** The recorded cost of a settled node is the minimum over all walks this router knows,
      nodes settle by non-decreasing cost, and no unsettled node is nearer than a settled one. */
  lemma SettledRowsOptimal(r: Router, order: seq<Node>, w: seq<Link>)
    requires SettleInv(r, order) && IsWalk(Known(r), r.id, w)
    ensures End(r.id, w) in order ==> CostOf(r, End(r.id, w)) <= Length(w)
    ensures End(r.id, w) !in order ==> forall n | n in order :: CostOf(r, n) <= Length(w)
    ensures forall k | 1 <= k < |order| :: RowAttained(r, order[k])
    ensures forall j, k | 0 <= j <= k < |order| :: CostOf(r, order[j]) <= CostOf(r, order[k])
  {
    assert order[0] in order;
    WalkBound(r, order, r.id, w);
  }

  /** The gateway recorded for a settled node is a direct neighbour from which the rest of the
      recorded cost is itself the minimum: cost = link cost + distance from the gateway. */
  lemma GatewayOptimal(r: Router, order: seq<Node>, n: Node) returns (rest: seq<Link>)
    requires SettleInv(r, order) && n in order && n != r.id
    ensures var e := r.dests[IndexOf(r.dests, n)];
      && IndexOf(r.dests, n) >= 0 && e.gateway < |r.nbrs|
      && var g := r.nbrs[e.gateway];
      && IsWalk(Known(r), g.dest, rest) && End(g.dest, rest) == n
      && e.cost == g.cost + Length(rest)
      && forall w | IsWalk(Known(r), g.dest, w) && End(g.dest, w) == n :: Length(rest) <= Length(w)
  {
    var k :| 0 <= k < |order| && order[k] == n;
    assert RowAttained(r, n);
    var e := r.dests[IndexOf(r.dests, n)];
    var g := r.nbrs[e.gateway];
    var v :| IsRoute(r, e.gateway, n, e.cost, v);
    rest := v[1..];
    forall w | IsWalk(Known(r), g.dest, w) && End(g.dest, w) == n ensures Length(rest) <= Length(w) {
      NeighborFirst(r, order, g, w);
    }
  }

  /** A walk that starts with a neighbour link is bounded by the recorded cost of its end. */
  lemma NeighborFirst(r: Router, order: seq<Node>, g: Link, w: seq<Link>)
    requires SettleInv(r, order) && g in r.nbrs && IsWalk(Known(r), g.dest, w) && End(g.dest, w) in order
    ensures CostOf(r, End(g.dest, w)) <= g.cost + Length(w)
  {
    var v := [g] + w;
    assert v[1..] == w && End(r.id, v) == End(g.dest, w);
    assert order[0] in order && g in Adj(Known(r), r.id);
    WalkBound(r, order, r.id, v);
  }

  // ---- What the settled set is on exit ----

  /** On the normal exit the settled set is exactly the router and its destinations; on the
      other it is exactly what can be reached in the known graph. */
  lemma SettledSetOnExit(r: Router, order: seq<Node>)
    requires SettleInv(r, order) && Exhausted(r, order) && DistinctRows(r)
    ensures |order| > |r.dests| ==> forall n: Node :: n in order <==> n == r.id || IndexOf(r.dests, n) >= 0
    ensures |order| <= |r.dests| ==> forall n: Node ::
      n in order <==> exists w :: IsWalk(Known(r), r.id, w) && End(r.id, w) == n
  {
    if |order| > |r.dests| {
      SettledAllRows(r, order);
    } else {
      forall n: Node ensures n in order <==> exists w :: IsWalk(Known(r), r.id, w) && End(r.id, w) == n {
        if n in order {
          SettledReachable(r, order, n);
        } else if w :| IsWalk(Known(r), r.id, w) && End(r.id, w) == n {
          assert order[0] in order;
          WalkStaysInside(r, order, r.id, w);
          assert false;
        }
      }
    }
  }

  lemma SettledReachable(r: Router, order: seq<Node>, n: Node)
    requires SettleInv(r, order) && n in order
    ensures exists w :: IsWalk(Known(r), r.id, w) && End(r.id, w) == n
  {
    if n == r.id {
      assert IsWalk(Known(r), r.id, []) && End(r.id, []) == n;
    } else {
      var k :| 0 <= k < |order| && order[k] == n;
      assert RowAttained(r, n);
      var e := r.dests[IndexOf(r.dests, n)];
      var w :| IsRoute(r, e.gateway, n, e.cost, w);
    }
  }

  lemma {:induction false} WalkStaysInside(r: Router, order: seq<Node>, n: Node, w: seq<Link>)
    requires NoExit(r, order) && n in order && IsWalk(Known(r), n, w)
    ensures End(n, w) in order
    decreases |w|
  {
    if w != [] {
      WalkStaysInside(r, order, w[0].dest, w[1..]);
    }
  }

  lemma SettledAllRows(r: Router, order: seq<Node>)
    requires SettleInv(r, order) && |order| > |r.dests| && DistinctRows(r)
    ensures forall n: Node :: n in order <==> n == r.id || IndexOf(r.dests, n) >= 0
  {
    var rows := set i | 0 <= i < |r.dests| :: r.dests[i].dest;
    var ids := seq(|r.dests|, i requires 0 <= i < |r.dests| => r.dests[i].dest);
    forall x: Node ensures x in Elements(ids) <==> x in rows {
      if x in rows {
        var i :| 0 <= i < |r.dests| && r.dests[i].dest == x;
        assert ids[i] == x;
      }
    }
    assert Elements(ids) == rows;
    DistinctCardinality(ids);
    var rest := order[1..];
    forall n | n in rest ensures n in rows {
      var k :| 1 <= k < |order| && order[k] == n;
      assert RowAttained(r, n);
    }
    DistinctFits(rest, rows);
    assert |rest| == |rows|;
    forall n: Node ensures n in order <==> n == r.id || IndexOf(r.dests, n) >= 0 {
      assert n in order <==> n == r.id || n in rest;
      if IndexOf(r.dests, n) >= 0 { assert n in rows; }
    }
  }
}
