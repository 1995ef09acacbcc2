/** The pointer structure of PA4/trie.c: two kinds of nodes on the heap, proved to compute the
    functions of Tries. */
module TrieHeap {
  import opened Prelude
  import opened Tries

  /** No pointer of the given nodes changed. */
  twostate predicate Kept<V(!new)>(objects: set<object>)
    reads objects
  {
    && (forall x: TrieLevel<V> | x in objects :: x.children == old(x.children) && x.Repr == old(x.Repr))
    && (forall x: TrieNode<V> | x in objects :: x.children == old(x.children) && x.Repr == old(x.Repr))
  }

  /** struct trie_lev2, which is also the root. */
  class TrieLevel<V(!new)> {
    var children: seq<TrieNode?<V>>
    ghost var Repr: set<object>
    ghost var model: Level<V>

    ghost predicate Valid()
      reads this, Repr
      decreases Repr
    {
      && this in Repr
      && |children| == FANOUT
      && LevelOk(model) && model.Level?
      && (forall i | 0 <= i < FANOUT && children[i] != null ::
           children[i] in Repr && children[i].Repr < Repr && this !in children[i].Repr)
      && (forall i | 0 <= i < FANOUT && children[i] != null ::
           children[i].Valid() && children[i].model == model.children[i])
      && (forall i | 0 <= i < FANOUT :: children[i] == null <==> model.children[i].NoNode?)
      && (forall i, j | 0 <= i < j < FANOUT && children[i] != null && children[j] != null ::
           children[i].Repr !! children[j].Repr)
    }

    /** The node reached by the characters `q` and then the high nibble `h`, or null. */
    ghost function At(q: Key, h: nat): TrieNode?<V>
      requires Valid() && h < FANOUT
      reads Repr
      decreases |q|, 1
    {
      if q == [] then children[h]
      else if children[Hi(q[0])] == null then null
      else children[Hi(q[0])].Below(Lo(q[0]), q[1..], h)
    }

    constructor ()
      ensures Valid() && fresh(Repr) && model == EmptyLevel()
    {
      children := seq(FANOUT, i => null);
      model := EmptyLevel();
      Repr := {this};
    }

    /** The child for nibble `h`, allocated if it is missing. */
    method ChildFor(h: nat) returns (next: TrieNode<V>)
      requires Valid() && h < FANOUT
      modifies this
      ensures Valid() && fresh(Repr - old(Repr))
      ensures forall q, g | 0 <= g < FANOUT && old(At(q, g)) != null :: At(q, g) == old(At(q, g))
      ensures children[h] == next && children == old(children)[h := next]
      ensures old(children[h]) != null ==> next == old(children[h])
      ensures old(children[h]) != null ==> unchanged(this)
      ensures old(children[h]) == null ==> fresh(next) && fresh(next.Repr)
      ensures var was := old(model).children;
        model == old(model).(children := was[h := if was[h].NoNode? then EmptyNode() else was[h]])
    {
      if children[h] == null {
        next := new TrieNode<V>();
        children := children[h := next];
        model := model.(children := model.children[h := next.model]);
        Repr := Repr + next.Repr;
      } else {
        next := children[h];
      }
    }

    /** Everything but what concerns child `h` holds, and that child stands by itself. */
    ghost predicate OthersValid(h: nat)
      requires h < |children|
      reads this, Repr, children[h], if children[h] == null then {} else children[h].Repr
    {
      && this in Repr && |children| == FANOUT && children[h] != null
      && LevelOk(model) && model.Level?
      && children[h].Valid() && this !in children[h].Repr
      && (forall i | 0 <= i < FANOUT && i != h && children[i] != null ::
            && children[i] in Repr && children[i].Repr < Repr && this !in children[i].Repr
            && children[i].Repr !! children[h].Repr)
      && (forall i | 0 <= i < FANOUT && i != h && children[i] != null ::
           children[i].Valid() && children[i].model == model.children[i])
      && (forall i | 0 <= i < FANOUT && i != h :: children[i] == null <==> model.children[i].NoNode?)
      && (forall i, j | 0 <= i < j < FANOUT && i != h && j != h && children[i] != null && children[j] != null ::
           children[i].Repr !! children[j].Repr)
    }

    /** Brings the abstract value and the footprint up to date after child `h` changed. */
    ghost method Adopt(h: nat)
      requires h < |children| && OthersValid(h)
      modifies this`model, this`Repr
      ensures Valid() && Repr == old(Repr) + children[h].Repr
      ensures model == old(model).(children := old(model).children[h := children[h].model])
    {
      model := model.(children := model.children[h := children[h].model]);
      Repr := Repr + children[h].Repr;
    }

    /** Inserts below an existing child. */
    method InsertBelow(h: nat, key: Key, val: Option<V>)
      requires Valid() && Indexable(key) && h == Hi(key[0]) && children[h] != null
      modifies Repr
      ensures Valid() && fresh(Repr - old(Repr)) && children == old(children)
      ensures model == old(model).(children := old(model).children[h := children[h].model])
      ensures old(model).children[h].Node? && children[h].model == Tries.LooseInsert(old(model).children[h], key, val)
      ensures forall q, g | 0 <= g < FANOUT && old(At(q, g)) != null :: At(q, g) == old(At(q, g))
      ensures LooseSearch(old(model).children[h], key).Some? ==> Repr == old(Repr) && Kept<V>(old(Repr))
      decreases |key|, 1
    {
      hide Tries.LooseInsert, LooseSearch, Get, Put;
      var next := children[h];
      next.LooseInsert(key, val);
      Adopt(h);
      if LooseSearch(old(model).children[h], key).Some? {
        assert Repr == old(Repr);
      }
      forall q, g | 0 <= g < FANOUT && old(At(q, g)) != null ensures At(q, g) == old(At(q, g)) {
        if q != [] {
          var c := children[Hi(q[0])];
          assert c == old(children[Hi(q[0])]);
        }
      }
    }

    /** Inserts under the child for nibble `h`, allocated if it is missing: the common part of
        trie_put and trie_loose_insert. */
    method InsertAt(h: nat, key: Key, val: Option<V>)
      requires Valid() && Indexable(key) && h == Hi(key[0])
      modifies Repr
      ensures Valid() && fresh(Repr - old(Repr))
      ensures model == Put(old(model), key, val)
      ensures forall q, g | 0 <= g < FANOUT && old(At(q, g)) != null :: At(q, g) == old(At(q, g))
      ensures old(Get(model, key)).Some? ==> Repr == old(Repr) && Kept<V>(old(Repr))
      decreases |key|, 2
    {
      assert Get(model, key) == LooseSearch(model.children[h], key);
      var next := ChildFor(h);
      InsertBelow(h, key, val);
    }

    /** trie_put. */
    method Insert(key: Key, val: Option<V>)
      requires Valid() && Indexable(key)
      modifies Repr
      ensures Valid() && fresh(Repr - old(Repr))
      ensures model == Put(old(model), key, val)
      ensures forall q, g | 0 <= g < FANOUT && old(At(q, g)) != null :: At(q, g) == old(At(q, g))
      ensures old(Get(model, key)).Some? ==> Repr == old(Repr) && Kept<V>(old(Repr))
    {
      InsertAt(Hi(key[0]), key, val);
    }

    /** Looks up under the child for nibble `h`. */
    method LookupAt(h: nat, key: Key) returns (v: Option<V>)
      requires Valid() && Indexable(key) && h == Hi(key[0])
      ensures v == Get(model, key)
      decreases |key|, 2
    {
      var next := children[h];
      if next == null {
        return None;
      }
      v := next.LooseLookup(key);
    }

    /** trie_get. */
    method Lookup(key: Key) returns (v: Option<V>)
      requires Valid() && Indexable(key)
      ensures v == Get(model, key)
    {
      v := LookupAt(Hi(key[0]), key);
    }
  }

  /** struct trie. */
  class TrieNode<V(!new)> {
    var children: seq<TrieLevel?<V>>
    var values: seq<Option<V>>
    ghost var Repr: set<object>
    ghost var model: Node<V>

    ghost predicate Valid()
      reads this, Repr
      decreases Repr
    {
      && this in Repr
      && |children| == FANOUT
      && NodeOk(model) && model.Node? && model.values == values
      && (forall i | 0 <= i < FANOUT && children[i] != null ::
           children[i] in Repr && children[i].Repr < Repr && this !in children[i].Repr)
      && (forall i | 0 <= i < FANOUT && children[i] != null ::
           children[i].Valid() && children[i].model == model.children[i])
      && (forall i | 0 <= i < FANOUT :: children[i] == null <==> model.children[i].NoLevel?)
      && (forall i, j | 0 <= i < j < FANOUT && children[i] != null && children[j] != null ::
           children[i].Repr !! children[j].Repr)
    }

    ghost function Below(i: nat, q: Key, h: nat): TrieNode?<V>
      requires Valid() && i < FANOUT && h < FANOUT
      reads Repr
      decreases |q|, 2
    {
      if children[i] == null then null else children[i].At(q, h)
    }

    constructor ()
      ensures Valid() && fresh(Repr) && model == EmptyNode()
    {
      children := seq(FANOUT, i => null);
      values := seq(FANOUT, i => None);
      model := EmptyNode();
      Repr := {this};
    }

    method ChildFor(i: nat) returns (next: TrieLevel<V>)
      requires Valid() && i < FANOUT
      modifies this
      ensures Valid() && fresh(Repr - old(Repr))
      ensures forall k, q, g | 0 <= k < FANOUT && 0 <= g < FANOUT && old(Below(k, q, g)) != null ::
        Below(k, q, g) == old(Below(k, q, g))
      ensures children[i] == next && children == old(children)[i := next]
      ensures old(children[i]) != null ==> next == old(children[i])
      ensures old(children[i]) != null ==> unchanged(this)
      ensures old(children[i]) == null ==> fresh(next) && fresh(next.Repr)
      ensures values == old(values)
      ensures var was := old(model).children;
        model == old(model).(children := was[i := if was[i].NoLevel? then EmptyLevel() else was[i]])
    {
      if children[i] == null {
        next := new TrieLevel<V>();
        children := children[i := next];
        model := model.(children := model.children[i := next.model]);
        Repr := Repr + next.Repr;
      } else {
        next := children[i];
      }
    }

    /** Everything but what concerns child `h` holds, and that child stands by itself. */
    ghost predicate OthersValid(h: nat)
      requires h < |children|
      reads this, Repr, children[h], if children[h] == null then {} else children[h].Repr
    {
      && this in Repr && |children| == FANOUT && children[h] != null
      && NodeOk(model) && model.Node? && model.values == values
      && children[h].Valid() && this !in children[h].Repr
      && (forall i | 0 <= i < FANOUT && i != h && children[i] != null ::
            && children[i] in Repr && children[i].Repr < Repr && this !in children[i].Repr
            && children[i].Repr !! children[h].Repr)
      && (forall i | 0 <= i < FANOUT && i != h && children[i] != null ::
           children[i].Valid() && children[i].model == model.children[i])
      && (forall i | 0 <= i < FANOUT && i != h :: children[i] == null <==> model.children[i].NoLevel?)
      && (forall i, j | 0 <= i < j < FANOUT && i != h && j != h && children[i] != null && children[j] != null ::
           children[i].Repr !! children[j].Repr)
    }

    /** Brings the abstract value and the footprint up to date after child `h` changed. */
    ghost method Adopt(h: nat)
      requires h < |children| && OthersValid(h)
      modifies this`model, this`Repr
      ensures Valid() && Repr == old(Repr) + children[h].Repr
      ensures model == old(model).(children := old(model).children[h := children[h].model])
    {
      model := model.(children := model.children[h := children[h].model]);
      Repr := Repr + children[h].Repr;
    }

    /** Inserts below an existing child. */
    method InsertBelow(i: nat, h: nat, key: Key, val: Option<V>)
      requires Valid() && Indexable(key) && h == Hi(key[0]) && i < FANOUT && children[i] != null
      modifies Repr
      ensures Valid() && fresh(Repr - old(Repr)) && children == old(children) && values == old(values)
      ensures model == old(model).(children := old(model).children[i := children[i].model])
      ensures old(model).children[i].Level? && children[i].model == Put(old(model).children[i], key, val)
      ensures forall k, q, g | 0 <= k < FANOUT && 0 <= g < FANOUT && old(Below(k, q, g)) != null ::
        Below(k, q, g) == old(Below(k, q, g))
      ensures Get(old(model).children[i], key).Some? ==> Repr == old(Repr) && Kept<V>(old(Repr))
      decreases |key|, 3
    {
      hide Tries.LooseInsert, LooseSearch, Get, Put;
      var next := children[i];
      next.InsertAt(h, key, val);
      Adopt(i);
      if Get(old(model).children[i], key).Some? {
        assert Repr == old(Repr);
      }
      forall k, q, g | 0 <= k < FANOUT && 0 <= g < FANOUT && old(Below(k, q, g)) != null
        ensures Below(k, q, g) == old(Below(k, q, g))
      {
        var c := children[k];
        assert c == old(children[k]);
      }
    }

    method SetValue(i: nat, val: Option<V>)
      requires Valid() && i < FANOUT
      modifies this
      ensures Valid() && Repr == old(Repr) && children == old(children)
      ensures model == old(model).(values := old(model).values[i := val])
      ensures forall k, q, g | 0 <= k < FANOUT && 0 <= g < FANOUT && old(Below(k, q, g)) != null ::
        Below(k, q, g) == old(Below(k, q, g))
    {
      values := values[i := val];
      model := model.(values := model.values[i := val]);
    }

    /** trie_loose_insert. */
    method LooseInsert(key: Key, val: Option<V>)
      requires Valid() && Indexable(key)
      modifies Repr
      ensures Valid() && fresh(Repr - old(Repr))
      ensures model == Tries.LooseInsert(old(model), key, val)
      ensures forall k, q, g | 0 <= k < FANOUT && 0 <= g < FANOUT && old(Below(k, q, g)) != null ::
        Below(k, q, g) == old(Below(k, q, g))
      ensures old(LooseSearch(model, key)).Some? ==> Repr == old(Repr) && Kept<V>(old(Repr))
      decreases |key|, 0
    {
      hide Put, LooseSearch, Tries.LooseInsert, EmptyLevel;
      InsertSteps(model, key, val);
      var i := Lo(key[0]);
      if |key| == 1 {
        SetValue(i, val);
      } else {
        IndexableStep(key);
        var next := ChildFor(i);
        var index := Shifted(key[1]);
        InsertBelow(i, index, key[1..], val);
      }
    }

    /** trie_loose_search. */
    method LooseLookup(key: Key) returns (v: Option<V>)
      requires Valid() && Indexable(key)
      ensures v == LooseSearch(model, key)
      decreases |key|, 0
    {
      var i := Lo(key[0]);
      if |key| == 1 {
        return values[i];
      }
      var next := children[i];
      if next == null {
        return None;
      }
      IndexableStep(key);
      var index := Shifted(key[1]);
      v := next.LookupAt(index, key[1..]);
    }
  }
}
