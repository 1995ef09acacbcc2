/** Traversal of the trie on the heap: positions, and the read-only iteration. */
module TrieWalks {
  import opened Prelude
  import opened Tries
  import opened TrieHeap

  /** A node at position (q, g) holds exactly the bindings whose keys continue q with nibble g. */
  lemma {:induction false} AtGet<V(!new)>(l: TrieLevel<V>, q: Key, g: nat, k: Key)
    requires l.Valid() && g < FANOUT && Continues(k, q) && Hi(k[|q|]) == g
    ensures var t := l.At(q, g);
      if t == null then Get(l.model, k) == None
      else t in l.Repr && t.Repr <= l.Repr && t.Valid() && Get(l.model, k) == LooseSearch(t.model, k[|q|..])
    decreases |q|
  {
    assert Get(l.model, k) == LooseSearch(l.model.children[Hi(k[0])], k);
    if q == [] {
      assert k[0..] == k;
    } else {
      var h := Hi(q[0]);
      assert k[0] == q[0];
      if l.children[h] != null {
        var t := l.children[h];
        var i := Lo(q[0]);
        assert LooseSearch(t.model, k) == Get(t.model.children[i], k[1..]);
        if t.children[i] != null {
          assert k[1..][..|q| - 1] == q[1..] && k[1..][|q| - 1..] == k[|q|..];
          AtGet(t.children[i], q[1..], g, k[1..]);
        }
      }
    }
  }

  lemma {:induction false} AtInside<V(!new)>(l: TrieLevel<V>, q: Key, g: nat)
    requires l.Valid() && g < FANOUT && l.At(q, g) != null
    ensures l.At(q, g) in l.Repr && l.At(q, g).Repr <= l.Repr && l.At(q, g).Valid()
    decreases |q|
  {
    if q != [] {
      var t := l.children[Hi(q[0])];
      AtInside(t.children[Lo(q[0])], q[1..], g);
    }
  }

  /** One character further down. */
  lemma {:induction false} AtStep<V(!new)>(l: TrieLevel<V>, q: Key, g: nat, i: nat, j: nat)
    requires l.Valid() && g < FANOUT && i < FANOUT && j < FANOUT && l.At(q, g) != null && l.At(q, g).Valid()
    requires l.At(q, g).children[i] != null ==> l.At(q, g).children[i].Valid()
    ensures l.At(q + [Join(g, i)], j)
      == if l.At(q, g).children[i] == null then null else l.At(q, g).children[i].children[j]
    decreases |q|
  {
    var c := Join(g, i);
    JoinExact(g, i, c);
    var p := q + [c];
    var t := l.children[Hi(p[0])];
    if q == [] {
      assert p[0] == c && p[1..] == [];
      assert t == l.At(q, g);
      assert l.At(p, j) == t.Below(i, [], j);
      if t.children[i] != null {
        assert t.children[i].At([], j) == t.children[i].children[j];
      }
    } else {
      assert p[0] == q[0] && p[1..] == q[1..] + [c];
      var u := t.children[Lo(q[0])];
      assert l.At(q, g) == t.Below(Lo(q[0]), q[1..], g) == u.At(q[1..], g);
      AtStep(u, q[1..], g, i, j);
      assert l.At(p, j) == t.Below(Lo(q[0]), p[1..], j) == u.At(p[1..], j);
    }
  }

  function Values<V>(bs: seq<Binding<V>>): seq<V> {
    seq(|bs|, i requires 0 <= i < |bs| => bs[i].value)
  }

  lemma ValuesAppend<V>(a: seq<Binding<V>>, b: seq<Binding<V>>)
    ensures Values(a + b) == Values(a) + Values(b)
  {
  }

  lemma ValuesStep<V>(t: Node<V>, p: Key, h: nat, i: nat)
    requires NodeOk(t) && t.Node? && h < FANOUT && i < FANOUT
    ensures Values(ValuesFrom(t, p, h, i))
         == (if t.values[i].Some? then [t.values[i].value] else []) + Values(ValuesFrom(t, p, h, i + 1))
  {
    var rest := ValuesFrom(t, p, h, i + 1);
    if t.values[i].Some? {
      ValuesAppend([Binding(p + [Join(h, i)], t.values[i].value)], rest);
    } else {
      assert ValuesFrom(t, p, h, i) == rest;
    }
  }

  lemma ChildrenStep<V>(t: Node<V>, p: Key, h: nat, i: nat)
    requires NodeOk(t) && t.Node? && h < FANOUT && i < FANOUT
    ensures Values(ChildrenFrom(t, p, h, i))
         == Values(LevelFrom(t.children[i], p + [Join(h, i)], 0)) + Values(ChildrenFrom(t, p, h, i + 1))
  {
    ValuesAppend(LevelFrom(t.children[i], p + [Join(h, i)], 0), ChildrenFrom(t, p, h, i + 1));
  }

  lemma LevelStep<V>(l: Level<V>, p: Key, j: nat)
    requires LevelOk(l) && l.Level? && j < FANOUT
    ensures Values(LevelFrom(l, p, j)) == Values(NodeBindings(l.children[j], p, j)) + Values(LevelFrom(l, p, j + 1))
  {
    ValuesAppend(NodeBindings(l.children[j], p, j), LevelFrom(l, p, j + 1));
  }

  lemma NodeValues<V>(t: Node<V>, p: Key, h: nat)
    requires NodeOk(t) && t.Node? && h < FANOUT
    ensures Values(NodeBindings(t, p, h)) == Values(ValuesFrom(t, p, h, 0)) + Values(ChildrenFrom(t, p, h, 0))
  {
    ValuesAppend(ValuesFrom(t, p, h, 0), ChildrenFrom(t, p, h, 0));
  }

  /** trie_loose_iterate: the values it passes to a callback that leaves the trie alone, in order. */
  method Visit<V(!new)>(t: TrieNode<V>, ghost p: Key, ghost h: nat) returns (seen: seq<V>)
    requires t.Valid() && h < FANOUT
    ensures seen == Values(NodeBindings(t.model, p, h))
    decreases t.Repr, 2
  {
    seen := VisitValues(t, p, h);
    var more := VisitChildren(t, p, h);
    NodeValues(t.model, p, h);
    seen := seen + more;
  }

  method VisitValues<V(!new)>(t: TrieNode<V>, ghost p: Key, ghost h: nat) returns (seen: seq<V>)
    requires t.Valid() && h < FANOUT
    ensures seen == Values(ValuesFrom(t.model, p, h, 0))
  {
    seen := [];
    ghost var m := t.model;
    ghost var rest := Values(ValuesFrom(m, p, h, 0));
    ghost var total := rest;
    for i := 0 to FANOUT
      invariant rest == Values(ValuesFrom(m, p, h, i)) && seen + rest == total
    {
      ValuesStep(m, p, h, i);
      rest := Values(ValuesFrom(m, p, h, i + 1));
      if t.values[i].Some? {
        Regroup(seen, [t.values[i].value], rest);
        seen := seen + [t.values[i].value];
      }
    }
  }

  method VisitChildren<V(!new)>(t: TrieNode<V>, ghost p: Key, ghost h: nat) returns (seen: seq<V>)
    requires t.Valid() && h < FANOUT
    ensures seen == Values(ChildrenFrom(t.model, p, h, 0))
    decreases t.Repr, 1
  {
    seen := [];
    ghost var m := t.model;
    ghost var rest := Values(ChildrenFrom(m, p, h, 0));
    ghost var total := rest;
    for i := 0 to FANOUT
      invariant rest == Values(ChildrenFrom(m, p, h, i)) && seen + rest == total
    {
      ChildrenStep(m, p, h, i);
      rest := Values(ChildrenFrom(m, p, h, i + 1));
      var more := VisitBelow(t, i, p + [Join(h, i)]);
      Regroup(seen, more, rest);
      seen := seen + more;
    }
  }

  method VisitBelow<V(!new)>(t: TrieNode<V>, i: nat, ghost p: Key) returns (seen: seq<V>)
    requires t.Valid() && i < FANOUT
    ensures seen == Values(LevelFrom(t.model.children[i], p, 0))
    decreases t.Repr, 0
  {
    var tmp := t.children[i];
    if tmp == null {
      return [];
    }
    seen := VisitLevel(tmp, p);
  }

  method VisitAt<V(!new)>(l: TrieLevel<V>, j: nat, ghost p: Key) returns (seen: seq<V>)
    requires l.Valid() && j < FANOUT
    ensures seen == Values(NodeBindings(l.model.children[j], p, j))
    decreases l.Repr, 0
  {
    var t := l.children[j];
    if t == null {
      return [];
    }
    seen := Visit(t, p, j);
  }

  method VisitLevel<V(!new)>(l: TrieLevel<V>, ghost p: Key) returns (seen: seq<V>)
    requires l.Valid()
    ensures seen == Values(LevelFrom(l.model, p, 0))
    decreases l.Repr, 1
  {
    seen := [];
    ghost var m := l.model;
    ghost var rest := Values(LevelFrom(m, p, 0));
    ghost var total := rest;
    for j := 0 to FANOUT
      invariant rest == Values(LevelFrom(m, p, j)) && seen + rest == total
    {
      LevelStep(m, p, j);
      rest := Values(LevelFrom(m, p, j + 1));
      var more := VisitAt(l, j, p);
      Regroup(seen, more, rest);
      seen := seen + more;
    }
  }

  /** trie_iterate. */
  method Iterate<V(!new)>(root: TrieLevel<V>) returns (seen: seq<V>)
    requires root.Valid()
    ensures seen == Values(Bindings(root.model))
  {
    seen := VisitLevel(root, []);
  }
}
