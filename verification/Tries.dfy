/** The nibble-indexed trie of PA4/trie.c as a value, and the map it stands for. */
module Tries {
  import opened Prelude

  const FANOUT := 16

  /** A character as the trie indexes it: two nibbles. */
  type Char = c: int | 0 <= c < 256
  type Key = seq<Char>

  function Hi(c: Char): nat { c / FANOUT }

  function Lo(c: Char): nat { c % FANOUT }

  function Join(h: nat, i: nat): Char
    requires h < FANOUT && i < FANOUT
  {
    FANOUT * h + i
  }

  lemma JoinExact(h: nat, i: nat, c: Char)
    requires h < FANOUT && i < FANOUT
    ensures Hi(Join(h, i)) == h && Lo(Join(h, i)) == i
    ensures Join(h, i) == c <==> h == Hi(c) && i == Lo(c)
  {
  }

  /** `ch >> 4` on a signed 8-bit character, which is how every character but the first is indexed. */
  function Shifted(c: Char): int {
    if c < 128 then c / FANOUT else (c - 256) / FANOUT
  }

  /** The keys whose characters all index inside the tables. */
  predicate Indexable(key: Key) {
    key != [] && forall i | 1 <= i < |key| :: 0 <= Shifted(key[i]) < FANOUT
  }

  /** They are those with 7-bit characters after the first, and there the shift is the high nibble. */
  lemma IndexableExact(key: Key)
    ensures Indexable(key) <==> key != [] && forall i | 1 <= i < |key| :: key[i] < 128
    ensures Indexable(key) ==> forall i | 1 <= i < |key| :: Shifted(key[i]) == Hi(key[i])
  {
    assert forall c: Char :: c < 128 ==> Shifted(c) == Hi(c);
    assert forall i | 1 <= i < |key| :: 0 <= Shifted(key[i]) < FANOUT <==> key[i] < 128;
  }

  lemma IndexableRest(key: Key)
    requires Indexable(key) && |key| > 1
    ensures Indexable(key[1..])
  {
    forall i | 1 <= i < |key[1..]| ensures 0 <= Shifted(key[1..][i]) < FANOUT { assert key[1..][i] == key[i + 1]; }
  }

  /** struct trie_lev2 and struct trie, with constructors for null pointers. */
  datatype Level<V> = NoLevel | Level(children: seq<Node<V>>)
  datatype Node<V> = NoNode | Node(children: seq<Level<V>>, values: seq<Option<V>>)

  ghost predicate NodeOk<V>(t: Node<V>) {
    t.Node? ==>
      && |t.children| == FANOUT && |t.values| == FANOUT
      && forall i | 0 <= i < FANOUT :: LevelOk(t.children[i])
  }

  ghost predicate LevelOk<V>(l: Level<V>) {
    l.Level? ==> |l.children| == FANOUT && forall i | 0 <= i < FANOUT :: NodeOk(l.children[i])
  }

  /** What calloc returns. */
  function EmptyLevel<V>(): (l: Level<V>)
    ensures LevelOk(l) && l.Level?
  {
    Level(seq(FANOUT, i => NoNode))
  }

  function EmptyNode<V>(): (t: Node<V>)
    ensures NodeOk(t) && t.Node?
  {
    Node(seq(FANOUT, i => NoLevel), seq(FANOUT, i => None))
  }

  // ---- Lookup and insertion ----

  /** trie_loose_search: the first character's high nibble is already consumed. */
  function LooseSearch<V>(t: Node<V>, key: Key): Option<V>
    requires NodeOk(t) && key != []
    decreases |key|, 0
  {
    if t.NoNode? then None
    else if |key| == 1 then t.values[Lo(key[0])]
    else Get(t.children[Lo(key[0])], key[1..])
  }

  /** trie_get. */
  function Get<V>(l: Level<V>, key: Key): Option<V>
    requires LevelOk(l) && key != []
    decreases |key|, 1
  {
    if l.NoLevel? then None else LooseSearch(l.children[Hi(key[0])], key)
  }

  /** trie_loose_insert. */
  function LooseInsert<V>(t: Node<V>, key: Key, val: Option<V>): (t': Node<V>)
    requires NodeOk(t) && t.Node? && key != []
    ensures NodeOk(t') && t'.Node?
    decreases |key|, 0
  {
    var i := Lo(key[0]);
    if |key| == 1 then t.(values := t.values[i := val])
    else
      var next := if t.children[i].NoLevel? then EmptyLevel() else t.children[i];
      t.(children := t.children[i := Put(next, key[1..], val)])
  }

  /** trie_put. */
  function Put<V>(l: Level<V>, key: Key, val: Option<V>): (l': Level<V>)
    requires LevelOk(l) && l.Level? && key != []
    ensures LevelOk(l') && l'.Level?
    decreases |key|, 1
  {
    var h := Hi(key[0]);
    var next := if l.children[h].NoNode? then EmptyNode() else l.children[h];
    l.(children := l.children[h := LooseInsert(next, key, val)])
  }

  /** One character of an insertion and of a search. */
  lemma InsertSteps<V>(t: Node<V>, key: Key, val: Option<V>)
    requires NodeOk(t) && t.Node? && key != []
    ensures var i := Lo(key[0]);
      if |key| == 1 then
        LooseInsert(t, key, val) == t.(values := t.values[i := val])
      else
        LooseSearch(t, key) == Get(t.children[i], key[1..])
        && var next := if t.children[i].NoLevel? then EmptyLevel() else t.children[i];
        LevelOk(next) && LooseInsert(t, key, val) == t.(children := t.children[i := Put(next, key[1..], val)])
  {
  }

  lemma SameNibbles(a: Char, b: Char)
    ensures a == b <==> Hi(a) == Hi(b) && Lo(a) == Lo(b)
  {
  }

  lemma {:induction false} SearchInsert<V>(t: Node<V>, key: Key, val: Option<V>, other: Key)
    requires NodeOk(t) && t.Node? && key != [] && other != []
    ensures LooseSearch(LooseInsert(t, key, val), other)
         == if Lo(key[0]) == Lo(other[0]) && key[1..] == other[1..] then val else LooseSearch(t, other)
    decreases |key|, 0
  {
    if |key| > 1 && |other| > 1 && Lo(key[0]) == Lo(other[0]) {
      var next := if t.children[Lo(key[0])].NoLevel? then EmptyLevel() else t.children[Lo(key[0])];
      GetPut(next, key[1..], val, other[1..]);
    }
  }

  /** The trie is a map: a put changes exactly one key, although nibbles alternate between two
      kinds of node, and a get returns the last value put. */
  lemma {:induction false} GetPut<V>(l: Level<V>, key: Key, val: Option<V>, other: Key)
    requires LevelOk(l) && l.Level? && key != [] && other != []
    ensures Get(Put(l, key, val), other) == if key == other then val else Get(l, other)
    decreases |key|, 1
  {
    var h := Hi(key[0]);
    SameNibbles(key[0], other[0]);
    assert key == other <==> key[0] == other[0] && key[1..] == other[1..] by {
      assert key == [key[0]] + key[1..] && other == [other[0]] + other[1..];
    }
    if h == Hi(other[0]) {
      var next := if l.children[h].NoNode? then EmptyNode() else l.children[h];
      SearchInsert(next, key, val, other);
      assert l.children[h].NoNode? ==> LooseSearch(next, other) == None by {
        if |other| > 1 { assert EmptyNode<V>().children[Lo(other[0])] == NoLevel; }
      }
    }
  }

  // ---- The indexes as the code computes them ----

  /** The outcome of an access that may leave a table of sixteen pointers. */
  datatype Access<T> = Inside(value: T) | Outside

  /** trie_loose_search with its second index computed by the signed shift. */
  function IndexedSearch<V>(t: Node<V>, key: Key): Access<Option<V>>
    requires NodeOk(t) && key != []
    decreases |key|
  {
    if t.NoNode? then Inside(None)
    else if |key| == 1 then Inside(t.values[Lo(key[0])])
    else
      var next := t.children[Lo(key[0])];
      var index := Shifted(key[1]);
      assert LevelOk(next);
      if next.NoLevel? then Inside(None)
      else if 0 <= index < FANOUT then IndexedSearch(next.children[index], key[1..])
      else Outside
  }

  /** trie_get; the first character is masked before it is shifted. */
  function IndexedGet<V>(l: Level<V>, key: Key): Access<Option<V>>
    requires LevelOk(l) && l.Level? && key != []
  {
    IndexedSearch(l.children[Hi(key[0])], key)
  }

  /** trie_loose_insert. */
  function IndexedInsert<V>(t: Node<V>, key: Key, val: Option<V>): (r: Access<Node<V>>)
    requires NodeOk(t) && t.Node? && key != []
    ensures r.Inside? ==> NodeOk(r.value) && r.value.Node?
    decreases |key|
  {
    var i := Lo(key[0]);
    if |key| == 1 then Inside(t.(values := t.values[i := val]))
    else
      var next := if t.children[i].NoLevel? then EmptyLevel() else t.children[i];
      var index := Shifted(key[1]);
      assert LevelOk(next);
      if !(0 <= index < FANOUT) then Outside
      else
        var nextnext := if next.children[index].NoNode? then EmptyNode() else next.children[index];
        match IndexedInsert(nextnext, key[1..], val)
        case Outside => Outside
        case Inside(t') =>
          var next' := next.(children := next.children[index := t']);
          assert LevelOk(next');
          Inside(t.(children := t.children[i := next']))
  }

  /** trie_put. */
  function IndexedPut<V>(l: Level<V>, key: Key, val: Option<V>): (r: Access<Level<V>>)
    requires LevelOk(l) && l.Level? && key != []
    ensures r.Inside? ==> LevelOk(r.value) && r.value.Level?
  {
    var h := Hi(key[0]);
    var next := if l.children[h].NoNode? then EmptyNode() else l.children[h];
    match IndexedInsert(next, key, val)
    case Outside => Outside
    case Inside(t') => Inside(l.(children := l.children[h := t']))
  }

  lemma IndexableStep(key: Key)
    requires |key| > 1
    ensures Indexable(key) <==> 0 <= Shifted(key[1]) < FANOUT && Indexable(key[1..])
    ensures 0 <= Shifted(key[1]) < FANOUT ==> Shifted(key[1]) == Hi(key[1])
  {
    var rest := key[1..];
    assert forall i | 1 <= i < |rest| :: rest[i] == key[i + 1];
    if Indexable(rest) && 0 <= Shifted(key[1]) < FANOUT {
      forall i | 1 <= i < |key| ensures 0 <= Shifted(key[i]) < FANOUT {
        if i > 1 { assert key[i] == rest[i - 1]; }
      }
    }
    if Indexable(key) { IndexableRest(key); }
  }

  lemma {:induction false} InsertIndexed<V>(t: Node<V>, key: Key, val: Option<V>)
    requires NodeOk(t) && t.Node? && key != []
    ensures IndexedInsert(t, key, val) == if Indexable(key) then Inside(LooseInsert(t, key, val)) else Outside
    decreases |key|
  {
    if |key| > 1 {
      IndexableStep(key);
      if 0 <= Shifted(key[1]) < FANOUT {
        var next := if t.children[Lo(key[0])].NoLevel? then EmptyLevel() else t.children[Lo(key[0])];
        var h := Hi(key[1]);
        InsertIndexed(if next.children[h].NoNode? then EmptyNode() else next.children[h], key[1..], val);
      }
    }
  }

  /** A put stays inside its tables, and is then the put of the map, exactly for indexable keys. */
  lemma PutIndexedExact<V>(l: Level<V>, key: Key, val: Option<V>)
    requires LevelOk(l) && l.Level? && key != []
    ensures IndexedPut(l, key, val) == if Indexable(key) then Inside(Put(l, key, val)) else Outside
  {
    var h := Hi(key[0]);
    InsertIndexed(if l.children[h].NoNode? then EmptyNode() else l.children[h], key, val);
  }

  /** A concrete key that leaves a table: its second character is not a 7-bit one. */
  lemma PutLeavesTable(val: Option<int>)
    ensures exists key: Key :: |key| == 2 && key[1] >= 128 && IndexedPut(EmptyLevel(), key, val) == Outside
  {
    var key: Key := [0x61, 0x80];
    assert Shifted(key[1]) == -8;
    PutIndexedExact(EmptyLevel(), key, val);
  }

  lemma {:induction false} SearchIndexed<V>(t: Node<V>, key: Key)
    requires NodeOk(t) && key != []
    ensures IndexedSearch(t, key).Inside? ==> IndexedSearch(t, key).value == LooseSearch(t, key)
    ensures Indexable(key) ==> IndexedSearch(t, key).Inside?
    decreases |key|
  {
    if t.Node? && |key| > 1 {
      IndexableStep(key);
      var next := t.children[Lo(key[0])];
      if next.Level? && 0 <= Shifted(key[1]) < FANOUT {
        SearchIndexed(next.children[Shifted(key[1])], key[1..]);
      }
    }
  }

  lemma {:induction false} SearchLeaves<V>(t: Node<V>, key: Key, val: Option<V>)
    requires NodeOk(t) && t.Node? && key != [] && !Indexable(key)
    ensures IndexedSearch(LooseInsert(t, key, val), key) == Outside
    decreases |key|
  {
    IndexableStep(key);
    if 0 <= Shifted(key[1]) < FANOUT {
      var next := if t.children[Lo(key[0])].NoLevel? then EmptyLevel() else t.children[Lo(key[0])];
      var h := Hi(key[1]);
      SearchLeaves(if next.children[h].NoNode? then EmptyNode() else next.children[h], key[1..], val);
    }
  }

  /** A get that stays inside its tables returns the map's value, and it stays inside them on every
      trie exactly for indexable keys. */
  lemma GetIndexedExact<V>(key: Key)
    requires key != []
    ensures forall l: Level<V> | LevelOk(l) && l.Level? && IndexedGet(l, key).Inside? ::
      IndexedGet(l, key).value == Get(l, key)
    ensures (forall l: Level<V> | LevelOk(l) && l.Level? :: IndexedGet(l, key).Inside?) <==> Indexable(key)
  {
    forall l: Level<V> | LevelOk(l) && l.Level?
      ensures IndexedGet(l, key).Inside? ==> IndexedGet(l, key).value == Get(l, key)
      ensures Indexable(key) ==> IndexedGet(l, key).Inside?
    {
      SearchIndexed(l.children[Hi(key[0])], key);
    }
    if !Indexable(key) {
      var l: Level<V> := Put(EmptyLevel(), key, None);
      SearchLeaves(EmptyNode<V>(), key, None);
      assert IndexedGet(l, key) == Outside;
    }
  }

  // ---- Iteration order ----

  datatype Binding<V> = Binding(key: Key, value: V)

  /** The bindings below a trie, reached by the characters `p` and the high nibble `h`, in the order
      of trie_loose_iterate: its own values first, then its children. */
  function NodeBindings<V>(t: Node<V>, p: Key, h: nat): seq<Binding<V>>
    requires NodeOk(t) && h < FANOUT
    decreases t, 2 * FANOUT
  {
    if t.NoNode? then [] else ValuesFrom(t, p, h, 0) + ChildrenFrom(t, p, h, 0)
  }

  function ValuesFrom<V>(t: Node<V>, p: Key, h: nat, i: nat): seq<Binding<V>>
    requires NodeOk(t) && t.Node? && h < FANOUT && i <= FANOUT
    decreases t, FANOUT - i
  {
    if i == FANOUT then []
    else (if t.values[i].Some? then [Binding(p + [Join(h, i)], t.values[i].value)] else []) + ValuesFrom(t, p, h, i + 1)
  }

  function ChildrenFrom<V>(t: Node<V>, p: Key, h: nat, i: nat): seq<Binding<V>>
    requires NodeOk(t) && t.Node? && h < FANOUT && i <= FANOUT
    decreases t, FANOUT - i
  {
    if i == FANOUT then []
    else LevelFrom(t.children[i], p + [Join(h, i)], 0) + ChildrenFrom(t, p, h, i + 1)
  }

  function LevelFrom<V>(l: Level<V>, p: Key, j: nat): seq<Binding<V>>
    requires LevelOk(l) && j <= FANOUT
    decreases l, FANOUT - j
  {
    if l.NoLevel? || j == FANOUT then []
    else NodeBindings(l.children[j], p, j) + LevelFrom(l, p, j + 1)
  }

  /** trie_iterate. */
  function Bindings<V>(l: Level<V>): seq<Binding<V>>
    requires LevelOk(l)
  {
    LevelFrom(l, [], 0)
  }

  /** `k` continues `p` by at least one character. */
  predicate Continues(k: Key, p: Key) {
    |p| < |k| && k[..|p|] == p
  }

  lemma {:induction false} ValuesFromExact<V>(t: Node<V>, p: Key, h: nat, i: nat, b: Binding<V>)
    requires NodeOk(t) && t.Node? && h < FANOUT && i <= FANOUT
    ensures b in ValuesFrom(t, p, h, i) <==>
      && Continues(b.key, p) && |b.key| == |p| + 1
      && Hi(b.key[|p|]) == h && Lo(b.key[|p|]) >= i && t.values[Lo(b.key[|p|])] == Some(b.value)
    decreases FANOUT - i
  {
    if i < FANOUT {
      ValuesFromExact(t, p, h, i + 1, b);
      if Continues(b.key, p) && |b.key| == |p| + 1 {
        JoinExact(h, i, b.key[|p|]);
        assert b.key == p + [b.key[|p|]];
      }
    }
  }

  lemma {:induction false} NodeBindingsExact<V>(t: Node<V>, p: Key, h: nat, b: Binding<V>)
    requires NodeOk(t) && h < FANOUT
    ensures b in NodeBindings(t, p, h) <==>
      Continues(b.key, p) && Hi(b.key[|p|]) == h && LooseSearch(t, b.key[|p|..]) == Some(b.value)
    decreases t, 2 * FANOUT
  {
    if t.Node? {
      ValuesFromExact(t, p, h, 0, b);
      ChildrenFromExact(t, p, h, 0, b);
      if Continues(b.key, p) { assert b.key[|p|..][1..] == b.key[|p| + 1..]; }
    }
  }

  lemma ContinuesLonger(k: Key, p: Key, c: Char)
    ensures Continues(k, p + [c]) <==> Continues(k, p) && |k| > |p| + 1 && k[|p|] == c
  {
    if |k| > |p| + 1 {
      assert k[..|p| + 1] == k[..|p|] + [k[|p|]];
      assert (p + [c])[..|p|] == p && (p + [c])[|p|] == c;
    }
  }

  lemma {:induction false} ChildrenFromExact<V>(t: Node<V>, p: Key, h: nat, i: nat, b: Binding<V>)
    requires NodeOk(t) && t.Node? && h < FANOUT && i <= FANOUT
    ensures b in ChildrenFrom(t, p, h, i) <==>
      && Continues(b.key, p) && |b.key| > |p| + 1
      && Hi(b.key[|p|]) == h && Lo(b.key[|p|]) >= i
      && Get(t.children[Lo(b.key[|p|])], b.key[|p| + 1..]) == Some(b.value)
    decreases t, FANOUT - i
  {
    if i < FANOUT {
      var q := p + [Join(h, i)];
      LevelFromExact(t.children[i], q, 0, b);
      ChildrenFromExact(t, p, h, i + 1, b);
      ContinuesLonger(b.key, p, Join(h, i));
      if Continues(b.key, p) && |b.key| > |p| + 1 {
        JoinExact(h, i, b.key[|p|]);
      }
    }
  }

  lemma {:induction false} LevelFromExact<V>(l: Level<V>, p: Key, j: nat, b: Binding<V>)
    requires LevelOk(l) && j <= FANOUT
    ensures b in LevelFrom(l, p, j) <==>
      Continues(b.key, p) && Hi(b.key[|p|]) >= j && Get(l, b.key[|p|..]) == Some(b.value)
    decreases l, FANOUT - j
  {
    if l.Level? && j < FANOUT {
      NodeBindingsExact(l.children[j], p, j, b);
      LevelFromExact(l, p, j + 1, b);
    }
  }

  /** The order of the traversal, on keys that agree up to position `n`: by the high nibble there, then
      keys that end there before longer ones, then by the low nibble. */
  predicate VisitedBefore(a: Key, b: Key, n: nat)
    decreases |a| - n
  {
    && n < |a| && n < |b|
    && if Hi(a[n]) != Hi(b[n]) then Hi(a[n]) < Hi(b[n])
       else if (|a| == n + 1) != (|b| == n + 1) then |a| == n + 1
       else if Lo(a[n]) != Lo(b[n]) then Lo(a[n]) < Lo(b[n])
       else |a| > n + 1 && VisitedBefore(a, b, n + 1)
  }

  predicate Ordered<V>(bs: seq<Binding<V>>, n: nat) {
    forall i, j | 0 <= i < j < |bs| :: VisitedBefore(bs[i].key, bs[j].key, n)
  }

  lemma {:induction false} NeverBeforeItself(k: Key, n: nat)
    ensures !VisitedBefore(k, k, n)
    decreases |k| - n
  {
    if n + 1 < |k| { NeverBeforeItself(k, n + 1); }
  }

  lemma OrderedAppend<V>(a: seq<Binding<V>>, b: seq<Binding<V>>, n: nat)
    requires Ordered(a, n) && Ordered(b, n)
    requires forall x, y | x in a && y in b :: VisitedBefore(x.key, y.key, n)
    ensures Ordered(a + b, n)
  {
    var c := a + b;
    forall i, j | 0 <= i < j < |c| ensures VisitedBefore(c[i].key, c[j].key, n) {
      if i < |a| <= j { assert c[i] in a && c[j] in b; }
    }
  }

  lemma {:induction false} ValuesFromOrdered<V>(t: Node<V>, p: Key, h: nat, i: nat)
    requires NodeOk(t) && t.Node? && h < FANOUT && i <= FANOUT
    ensures Ordered(ValuesFrom(t, p, h, i), |p|)
    decreases FANOUT - i
  {
    if i < FANOUT {
      var rest := ValuesFrom(t, p, h, i + 1);
      ValuesFromOrdered(t, p, h, i + 1);
      if t.values[i].Some? {
        var x := Binding(p + [Join(h, i)], t.values[i].value);
        JoinExact(h, i, Join(h, i));
        forall y | y in rest ensures VisitedBefore(x.key, y.key, |p|) { ValuesFromExact(t, p, h, i + 1, y); }
        OrderedAppend([x], rest, |p|);
      }
    }
  }

  lemma {:induction false} NodeBindingsOrdered<V>(t: Node<V>, p: Key, h: nat)
    requires NodeOk(t) && h < FANOUT
    ensures Ordered(NodeBindings(t, p, h), |p|)
    decreases t, 2 * FANOUT
  {
    if t.Node? {
      ValuesFromOrdered(t, p, h, 0);
      ChildrenFromOrdered(t, p, h, 0);
      forall x, y | x in ValuesFrom(t, p, h, 0) && y in ChildrenFrom(t, p, h, 0)
        ensures VisitedBefore(x.key, y.key, |p|)
      {
        ValuesFromExact(t, p, h, 0, x);
        ChildrenFromExact(t, p, h, 0, y);
      }
      OrderedAppend(ValuesFrom(t, p, h, 0), ChildrenFrom(t, p, h, 0), |p|);
    }
  }

  /** Keys that agree on one character more compare by what follows it. */
  lemma OrderedBelow<V>(bs: seq<Binding<V>>, p: Key, c: Char)
    requires Ordered(bs, |p| + 1) && forall b | b in bs :: Continues(b.key, p + [c])
    ensures Ordered(bs, |p|)
  {
    forall i, j | 0 <= i < j < |bs| ensures VisitedBefore(bs[i].key, bs[j].key, |p|) {
      assert bs[i] in bs && bs[j] in bs;
      ContinuesLonger(bs[i].key, p, c);
      ContinuesLonger(bs[j].key, p, c);
    }
  }

  lemma {:induction false} ChildrenFromOrdered<V>(t: Node<V>, p: Key, h: nat, i: nat)
    requires NodeOk(t) && t.Node? && h < FANOUT && i <= FANOUT
    ensures Ordered(ChildrenFrom(t, p, h, i), |p|)
    decreases t, FANOUT - i
  {
    if i < FANOUT {
      var c := Join(h, i);
      var first, rest := LevelFrom(t.children[i], p + [c], 0), ChildrenFrom(t, p, h, i + 1);
      LevelFromOrdered(t.children[i], p + [c], 0);
      ChildrenFromOrdered(t, p, h, i + 1);
      JoinExact(h, i, c);
      forall x | x in first ensures Continues(x.key, p + [c]) { LevelFromExact(t.children[i], p + [c], 0, x); }
      OrderedBelow(first, p, c);
      forall x, y | x in first && y in rest ensures VisitedBefore(x.key, y.key, |p|) {
        ChildrenFromExact(t, p, h, i + 1, y);
        ContinuesLonger(x.key, p, c);
      }
      OrderedAppend(first, rest, |p|);
    }
  }

  lemma {:induction false} LevelFromOrdered<V>(l: Level<V>, p: Key, j: nat)
    requires LevelOk(l) && j <= FANOUT
    ensures Ordered(LevelFrom(l, p, j), |p|)
    decreases l, FANOUT - j
  {
    if l.Level? && j < FANOUT {
      NodeBindingsOrdered(l.children[j], p, j);
      LevelFromOrdered(l, p, j + 1);
      forall x, y | x in NodeBindings(l.children[j], p, j) && y in LevelFrom(l, p, j + 1)
        ensures VisitedBefore(x.key, y.key, |p|)
      {
        NodeBindingsExact(l.children[j], p, j, x);
        LevelFromExact(l, p, j + 1, y);
      }
      OrderedAppend(NodeBindings(l.children[j], p, j), LevelFrom(l, p, j + 1), |p|);
    }
  }

  predicate DistinctKeys<V>(bs: seq<Binding<V>>) {
    forall i, j | 0 <= i < j < |bs| :: bs[i].key != bs[j].key
  }

  /** Iteration visits every binding with a non-null value exactly once, in the order of the traversal,
      and nothing else. */
  lemma BindingsExact<V>(l: Level<V>)
    requires LevelOk(l)
    ensures Ordered(Bindings(l), 0) && DistinctKeys(Bindings(l))
    ensures forall b :: b in Bindings(l) <==> b.key != [] && Get(l, b.key) == Some(b.value)
  {
    LevelFromOrdered(l, [], 0);
    forall i, j | 0 <= i < j < |Bindings(l)| ensures Bindings(l)[i].key != Bindings(l)[j].key {
      NeverBeforeItself(Bindings(l)[i].key, 0);
    }
    forall b ensures b in Bindings(l) <==> b.key != [] && Get(l, b.key) == Some(b.value) {
      LevelFromExact(l, [], 0, b);
      assert b.key[0..] == b.key;
      if b.key != [] { assert Continues(b.key, []); }
    }
  }
}
