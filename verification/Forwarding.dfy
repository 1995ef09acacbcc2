/** Hop-by-hop forwarding over the rows that flooding leaves: it delivers, along a cheapest path. */
module Forwarding {
  import opened Prelude
  import opened LinkState
  import opened ShortestPath
  import opened Flooding

  ghost predicate PositiveCosts(t: Graph) {
    forall n, l | n in t && l in t[n] :: l.cost > 0
  }

  /** The link on which router `n` forwards traffic for `d`: that of its row's gateway. */
  ghost function Hop(s: Net, n: Node, d: Node): Option<Link> {
    if n !in s.routers then None
    else
      var r := s.routers[n];
      var i := IndexOf(r.dests, d);
      if i >= 0 && r.dests[i].gateway < |r.nbrs| then Some(r.nbrs[r.dests[i].gateway]) else None
  }

  ghost function CostTo(s: Net, n: Node, d: Node): int {
    if n in s.routers then CostOf(s.routers[n], d) else -1
  }

  /** The recorded cost drops by exactly the cost of the link taken. */
  lemma HopDescends(t: Graph, s: Net, n: Node, d: Node, w: seq<Link>)
    requires WellFormed(t) && NetInv(t, s) && Agreed(t, s) && n in t && d in t && n != d
    requires IsWalk(t, n, w) && End(n, w) == d
    ensures Hop(s, n, d).Some?
    ensures var l := Hop(s, n, d).value;
      l in t[n] && l.dest in t && CostTo(s, n, d) == l.cost + CostTo(s, l.dest, d) && CostTo(s, l.dest, d) >= 0
    ensures exists rest :: IsWalk(t, Hop(s, n, d).value.dest, rest) && End(Hop(s, n, d).value.dest, rest) == d
  {
    var r := s.routers[n];
    assert Honest(t, n, r) && NodeOk(t, n);
    var order := CompleteRowsExact(t, s, n, d, w);
    var rest := GatewayOptimal(r, order, d);
    var l := Hop(s, n, d).value;
    KnowsAll(t, s, n);
    WalkSurvives(AsKnown(t), t, l.dest, rest);
    if l.dest == d {
      assert IsWalk(AsKnown(t), d, []) && End(d, []) == d && Length([]) == 0;
      assert Honest(t, d, s.routers[d]);
    } else {
      NextRowIsRest(t, s, l.dest, d, rest);
    }
  }

  /** The next router's own row holds the length of the cheapest remaining path. */
  lemma NextRowIsRest(t: Graph, s: Net, g: Node, d: Node, rest: seq<Link>)
    requires NetInv(t, s) && Agreed(t, s) && g in t && d in t && g != d
    requires IsWalk(t, g, rest) && End(g, rest) == d
    requires forall w | IsWalk(AsKnown(t), g, w) && End(g, w) == d :: Length(rest) <= Length(w)
    ensures CostTo(s, g, d) == Length(rest)
  {
    var order := CompleteRowsExact(t, s, g, d, rest);
    var r := s.routers[g];
    assert Honest(t, g, r);
    var e := r.dests[IndexOf(r.dests, d)];
    var v :| IsRoute(r, e.gateway, d, e.cost, v);
    KnowsAll(t, s, g);
  }

  /** The path that forwarding takes from `n` towards `d`: each link is the one its router picks. */
  ghost predicate Forwarded(s: Net, n: Node, d: Node, path: seq<Link>)
    decreases |path|
  {
    if path == [] then n == d
    else n != d && Hop(s, n, d) == Some(path[0]) && Forwarded(s, path[0].dest, d, path[1..])
  }

  /** The routers a path visits, its start included. */
  function Visited(n: Node, path: seq<Link>): seq<Node>
    decreases |path|
  {
    if path == [] then [n] else [n] + Visited(path[0].dest, path[1..])
  }

  /** Forwarding from any router reaches any reachable destination, over a real path whose length
      is the recorded cost, and the recorded cost falls at every hop. */
  lemma {:induction false} ForwardingReaches(t: Graph, s: Net, n: Node, d: Node, w: seq<Link>) returns (path: seq<Link>)
    requires WellFormed(t) && PositiveCosts(t) && NetInv(t, s) && Agreed(t, s) && n in t && d in t
    requires IsWalk(t, n, w) && End(n, w) == d
    ensures Forwarded(s, n, d, path) && IsWalk(t, n, path) && End(n, path) == d
    ensures Length(path) == CostTo(s, n, d)
    ensures forall k | 1 <= k < |Visited(n, path)| :: CostTo(s, Visited(n, path)[k], d) < CostTo(s, n, d)
    ensures Distinct(Visited(n, path))
    decreases if n == d then 0 else 1 + CostTo(s, n, d)
  {
    if n == d {
      path := [];
      assert Honest(t, n, s.routers[n]);
    } else {
      HopDescends(t, s, n, d, w);
      var l := Hop(s, n, d).value;
      var rest :| IsWalk(t, l.dest, rest) && End(l.dest, rest) == d;
      assert l.cost > 0;
      var tail := ForwardingReaches(t, s, l.dest, d, rest);
      path := [l] + tail;
      assert path[1..] == tail;
      PrependHop(s, n, l, d, tail);
    }
  }

  lemma PrependHop(s: Net, n: Node, l: Link, d: Node, tail: seq<Link>)
    requires CostTo(s, l.dest, d) < CostTo(s, n, d)
    requires forall k | 1 <= k < |Visited(l.dest, tail)| ::
      CostTo(s, Visited(l.dest, tail)[k], d) < CostTo(s, l.dest, d)
    requires Distinct(Visited(l.dest, tail))
    ensures forall k | 1 <= k < |Visited(n, [l] + tail)| :: CostTo(s, Visited(n, [l] + tail)[k], d) < CostTo(s, n, d)
    ensures Distinct(Visited(n, [l] + tail))
  {
    var path := [l] + tail;
    var v, v' := Visited(l.dest, tail), Visited(n, path);
    assert path[1..] == tail;
    assert v' == [n] + v && v[0] == l.dest;
    forall k | 1 <= k < |v'| ensures CostTo(s, v'[k], d) < CostTo(s, n, d) {
      assert v'[k] == v[k - 1];
      if k > 1 { assert CostTo(s, v[k - 1], d) < CostTo(s, l.dest, d); }
    }
    forall i, j | 0 <= i < j < |v'| ensures v'[i] != v'[j] {
      if i > 0 { assert v'[i] == v[i - 1] && v'[j] == v[j - 1]; }
    }
  }

  /** The whole story: after any run of a connected network with positive costs that has gone
      quiet, traffic between any two routers arrives, without a loop and along a cheapest path. */
  lemma QuietNetworkDelivers(t: Graph, events: seq<Event>, states: seq<Net>, n: Node, d: Node) returns (path: seq<Link>)
    requires WellFormed(t) && Connected(t) && PositiveCosts(t)
    requires IsRun(t, events, states) && Quiet(states[|events|]) && n in t && d in t
    ensures Forwarded(states[|events|], n, d, path) && IsWalk(t, n, path) && End(n, path) == d
    ensures Distinct(Visited(n, path))
    ensures forall w | IsWalk(t, n, w) && End(n, w) == d :: Length(path) <= Length(w)
  {
    var s := states[|events|];
    RunInv(t, events, states);
    FloodingConverges(t, events, states);
    var w :| IsWalk(t, n, w) && End(n, w) == d;
    path := ForwardingReaches(t, s, n, d, w);
    if n != d {
      var order := CompleteRowsExact(t, s, n, d, w);
    }
  }
}
