/** The file map of PA4/server.c: registration, and deregistration by a callback that writes into
    the trie while the trie is being traversed. */
module Directory {
  import opened Prelude
  import opened Tries
  import opened TrieHeap
  import opened TrieWalks
  import opened Records

  /** Every stored record is clean, is stored under its own name and names a peer by its address. */
  ghost predicate NameIsKey(l: Level<FileStat>)
    requires LevelOk(l)
  {
    forall k: Key | k != [] && Get(l, k).Some? ::
      && Get(l, k).value.name == k && Indexable(k)
      && Clean(Get(l, k).value) && Dotted(Get(l, k).value.host)
  }

  /** What deregistering `owner` makes of a binding, once the traversal has passed it. */
  function After(v: Option<FileStat>, owner: Text, passed: bool): Option<FileStat> {
    if passed && v.Some? && v.value.owner == owner then None else v
  }

  ghost predicate Cleared(m0: Level<FileStat>, m: Level<FileStat>, owner: Text, passed: Key -> bool)
    requires LevelOk(m0) && LevelOk(m)
  {
    forall k: Key | k != [] :: Get(m, k) == After(Get(m0, k), owner, passed(k))
  }

  // ---- The keys below a position, as far as the traversal has come ----

  predicate InValues(k: Key, p: Key, h: nat, i: nat) {
    Continues(k, p) && |k| == |p| + 1 && Hi(k[|p|]) == h && Lo(k[|p|]) < i
  }

  predicate InChildren(k: Key, p: Key, h: nat, i: nat) {
    Continues(k, p) && |k| > |p| + 1 && Hi(k[|p|]) == h && Lo(k[|p|]) < i
  }

  predicate InLevel(k: Key, p: Key, j: nat) {
    Continues(k, p) && Hi(k[|p|]) < j
  }

  predicate InNode(k: Key, p: Key, h: nat) {
    Continues(k, p) && Hi(k[|p|]) == h
  }

  lemma ClearedThen(m0: Level<FileStat>, m1: Level<FileStat>, m2: Level<FileStat>, owner: Text,
                    a: Key -> bool, b: Key -> bool, c: Key -> bool)
    requires LevelOk(m0) && LevelOk(m1) && LevelOk(m2)
    requires Cleared(m0, m1, owner, a) && Cleared(m1, m2, owner, b) && forall k: Key | k != [] :: c(k) == (a(k) || b(k))
    ensures Cleared(m0, m2, owner, c)
  {
    forall k: Key | k != [] ensures Get(m2, k) == After(Get(m0, k), owner, c(k)) {
      assert Get(m1, k) == After(Get(m0, k), owner, a(k));
    }
  }

  lemma ClearedNone(m: Level<FileStat>, owner: Text, passed: Key -> bool)
    requires LevelOk(m) && forall k: Key | k != [] :: !passed(k)
    ensures Cleared(m, m, owner, passed)
  {
  }

  lemma ClearedOne(m: Level<FileStat>, m': Level<FileStat>, owner: Text, name: Key)
    requires LevelOk(m) && LevelOk(m') && m.Level? && name != []
    requires m' == match Get(m, name) case Some(f) => if f.owner == owner then Put(m, name, None) else m case None => m
    ensures Cleared(m, m', owner, k => k == name)
    ensures NameIsKey(m) ==> NameIsKey(m')
  {
    forall k: Key | k != [] ensures Get(m', k) == After(Get(m, k), owner, k == name) {
      if Get(m, name).Some? && Get(m, name).value.owner == owner { GetPut(m, name, None, k); }
    }
  }

  /** deregister_itr: the source frees the record too. */
  method DeregisterItr(root: TrieLevel<FileStat>, owner: Text, element: FileStat)
    requires root.Valid() && Indexable(element.name) && Get(root.model, element.name) == Some(element)
    modifies root.Repr
    ensures root.Valid() && root.Repr == old(root.Repr) && Kept<FileStat>(old(root.Repr))
    ensures forall q, g | 0 <= g < FANOUT && old(root.At(q, g)) != null :: root.At(q, g) == old(root.At(q, g))
    ensures root.model == if element.owner == owner then Put(old(root.model), element.name, None) else old(root.model)
  {
    if element.owner == owner {
      root.Insert(element.name, None);
    }
  }

  /** One turn of the first loop of trie_loose_iterate at the node `t`, which the trie reaches by `p` and `h`. */
  method DeregisterSlot(root: TrieLevel<FileStat>, owner: Text, t: TrieNode<FileStat>, i: nat, ghost p: Key,
                        ghost h: nat)
    requires root.Valid() && NameIsKey(root.model) && h < FANOUT && i < FANOUT && root.At(p, h) == t
    requires t.Valid()
    modifies root.Repr
    ensures root.Valid() && root.Repr == old(root.Repr) && Kept<FileStat>(old(root.Repr)) && NameIsKey(root.model)
    ensures forall q, g | 0 <= g < FANOUT && old(root.At(q, g)) != null :: root.At(q, g) == old(root.At(q, g))
    ensures Cleared(old(root.model), root.model, owner, k => k == p + [Join(h, i)])
  {
    hide Cleared;
    ghost var name := p + [Join(h, i)];
    ghost var m := root.model;
    JoinExact(h, i, name[|p|]);
    AtGet(root, p, h, name);
    assert name[|p|..] == [Join(h, i)];
    assert Get(m, name) == t.values[i];
    if t.values[i].Some? {
      DeregisterItr(root, owner, t.values[i].value);
    }
    ClearedOne(m, root.model, owner, name);
  }

  method DeregisterValues(root: TrieLevel<FileStat>, owner: Text, t: TrieNode<FileStat>, ghost p: Key, ghost h: nat)
    requires root.Valid() && NameIsKey(root.model) && h < FANOUT && root.At(p, h) == t
    modifies root.Repr
    ensures root.Valid() && root.Repr == old(root.Repr) && Kept<FileStat>(old(root.Repr)) && NameIsKey(root.model)
    ensures forall q, g | 0 <= g < FANOUT && old(root.At(q, g)) != null :: root.At(q, g) == old(root.At(q, g))
    ensures Cleared(old(root.model), root.model, owner, k => InValues(k, p, h, FANOUT))
  {
    hide Cleared, NameIsKey, Get;
    ghost var m0 := root.model;
    ClearedNone(m0, owner, k => InValues(k, p, h, 0));
    for i := 0 to FANOUT
      invariant root.Valid() && root.Repr == old(root.Repr) && Kept<FileStat>(old(root.Repr)) && NameIsKey(root.model)
      invariant forall q, g | 0 <= g < FANOUT && old(root.At(q, g)) != null :: root.At(q, g) == old(root.At(q, g))
      invariant Cleared(m0, root.model, owner, k => InValues(k, p, h, i))
    {
      ghost var m1 := root.model;
      AtInside(root, p, h);
      DeregisterSlot(root, owner, t, i, p, h);
      NextSlot(p, h, i);
      ClearedThen(m0, m1, root.model, owner, k => InValues(k, p, h, i), k => k == p + [Join(h, i)],
                  k => InValues(k, p, h, i + 1));
    }
  }

  lemma NextChild(p: Key, h: nat, i: nat)
    requires h < FANOUT && i < FANOUT
    ensures forall k: Key :: !InChildren(k, p, h, 0)
    ensures forall k: Key :: InChildren(k, p, h, i + 1) == (InChildren(k, p, h, i) || Continues(k, p + [Join(h, i)]))
  {
    forall k: Key ensures InChildren(k, p, h, i + 1) == (InChildren(k, p, h, i) || Continues(k, p + [Join(h, i)])) {
      ContinuesLonger(k, p, Join(h, i));
      if |k| > |p| + 1 { JoinExact(h, i, k[|p|]); }
    }
  }

  lemma NextSlot(p: Key, h: nat, i: nat)
    requires h < FANOUT && i < FANOUT
    ensures forall k: Key :: InValues(k, p, h, i + 1) == (InValues(k, p, h, i) || k == p + [Join(h, i)])
  {
    forall k: Key ensures InValues(k, p, h, i + 1) == (InValues(k, p, h, i) || k == p + [Join(h, i)]) {
      if Continues(k, p) && |k| == |p| + 1 {
        JoinExact(h, i, k[|p|]);
        assert k == p + [k[|p|]];
      }
    }
  }

  /** trie_loose_iterate. */
  method DeregisterNode(root: TrieLevel<FileStat>, owner: Text, t: TrieNode<FileStat>, ghost p: Key, ghost h: nat)
    requires root.Valid() && NameIsKey(root.model) && h < FANOUT && root.At(p, h) == t
    modifies root.Repr
    ensures root.Valid() && root.Repr == old(root.Repr) && Kept<FileStat>(old(root.Repr)) && NameIsKey(root.model)
    ensures forall q, g | 0 <= g < FANOUT && old(root.At(q, g)) != null :: root.At(q, g) == old(root.At(q, g))
    ensures Cleared(old(root.model), root.model, owner, k => InNode(k, p, h))
    decreases t.Repr, 3
  {
    ghost var m0 := root.model;
    AtInside(root, p, h);
    DeregisterValues(root, owner, t, p, h);
    ghost var m1 := root.model;
    DeregisterChildren(root, owner, t, p, h);
    ClearedThen(m0, m1, root.model, owner, k => InValues(k, p, h, FANOUT), k => InChildren(k, p, h, FANOUT),
                k => InNode(k, p, h));
  }

  /** The second loop of trie_loose_iterate. */
  method DeregisterChildren(root: TrieLevel<FileStat>, owner: Text, t: TrieNode<FileStat>, ghost p: Key, ghost h: nat)
    requires root.Valid() && NameIsKey(root.model) && h < FANOUT && root.At(p, h) == t
    modifies root.Repr
    ensures root.Valid() && root.Repr == old(root.Repr) && Kept<FileStat>(old(root.Repr)) && NameIsKey(root.model)
    ensures forall q, g | 0 <= g < FANOUT && old(root.At(q, g)) != null :: root.At(q, g) == old(root.At(q, g))
    ensures Cleared(old(root.model), root.model, owner, k => InChildren(k, p, h, FANOUT))
    decreases t.Repr, 2
  {
    hide Cleared, NameIsKey, Get, InChildren, Continues;
    ghost var m0 := root.model;
    NextChild(p, h, 0);
    ClearedNone(m0, owner, k => InChildren(k, p, h, 0));
    for i := 0 to FANOUT
      invariant root.Valid() && root.Repr == old(root.Repr) && Kept<FileStat>(old(root.Repr)) && NameIsKey(root.model)
      invariant forall q, g | 0 <= g < FANOUT && old(root.At(q, g)) != null :: root.At(q, g) == old(root.At(q, g))
      invariant Cleared(m0, root.model, owner, k => InChildren(k, p, h, i))
    {
      ghost var m1 := root.model;
      AtInside(root, p, h);
      DeregisterBelow(root, owner, t, i, p, h);
      NextChild(p, h, i);
      ClearedThen(m0, m1, root.model, owner, k => InChildren(k, p, h, i), k => Continues(k, p + [Join(h, i)]),
                  k => InChildren(k, p, h, i + 1));
    }
  }

  /** The inner loop of trie_loose_iterate, over the second-level node `t.children[i]` if there is one. */
  method DeregisterBelow(root: TrieLevel<FileStat>, owner: Text, t: TrieNode<FileStat>, i: nat, ghost p: Key,
                         ghost h: nat)
    requires root.Valid() && NameIsKey(root.model) && h < FANOUT && i < FANOUT && root.At(p, h) == t
    requires t.Valid()
    modifies root.Repr
    ensures root.Valid() && root.Repr == old(root.Repr) && Kept<FileStat>(old(root.Repr)) && NameIsKey(root.model)
    ensures forall q, g | 0 <= g < FANOUT && old(root.At(q, g)) != null :: root.At(q, g) == old(root.At(q, g))
    ensures Cleared(old(root.model), root.model, owner, k => Continues(k, p + [Join(h, i)]))
    decreases t.Repr, 1
  {
    hide Cleared, NameIsKey, Get;
    ghost var m0 := root.model;
    ghost var q := p + [Join(h, i)];
    AtInside(root, p, h);
    var tmp := t.children[i];
    if tmp == null {
      NothingUnder(root, owner, t, i, p, h);
      return;
    }
    ClearedNone(m0, owner, k => InLevel(k, q, 0));
    for j := 0 to FANOUT
      invariant root.Valid() && root.Repr == old(root.Repr) && Kept<FileStat>(old(root.Repr)) && NameIsKey(root.model)
      invariant forall q, g | 0 <= g < FANOUT && old(root.At(q, g)) != null :: root.At(q, g) == old(root.At(q, g))
      invariant Cleared(m0, root.model, owner, k => InLevel(k, q, j))
    {
      ghost var m1 := root.model;
      AtInside(root, p, h);
      assert t.children[i] == tmp;
      AtStep(root, p, h, i, j);
      var next := tmp.children[j];
      if next == null {
        NothingAt(root, owner, q, j);
      } else {
        DeregisterNode(root, owner, next, q, j);
      }
      ClearedThen(m0, m1, root.model, owner, k => InLevel(k, q, j), k => InNode(k, q, j), k => InLevel(k, q, j + 1));
    }
    ClearedNone(root.model, owner, k => false);
    ClearedThen(m0, root.model, root.model, owner, k => InLevel(k, q, FANOUT), k => false, k => Continues(k, q));
  }

  lemma NothingAt(root: TrieLevel<FileStat>, owner: Text, q: Key, j: nat)
    requires root.Valid() && j < FANOUT && root.At(q, j) == null
    ensures Cleared(root.model, root.model, owner, k => InNode(k, q, j))
  {
    forall k: Key | k != [] ensures Get(root.model, k) == After(Get(root.model, k), owner, InNode(k, q, j)) {
      if InNode(k, q, j) { AtGet(root, q, j, k); }
    }
  }

  lemma NothingUnder(root: TrieLevel<FileStat>, owner: Text, t: TrieNode<FileStat>, i: nat, p: Key, h: nat)
    requires root.Valid() && h < FANOUT && i < FANOUT && root.At(p, h) == t && t.Valid() && t.children[i] == null
    ensures Cleared(root.model, root.model, owner, k => Continues(k, p + [Join(h, i)]))
  {
    var q := p + [Join(h, i)];
    forall k: Key | k != [] ensures Get(root.model, k) == After(Get(root.model, k), owner, Continues(k, q)) {
      if Continues(k, q) {
        AtStep(root, p, h, i, Hi(k[|q|]));
        AtGet(root, q, Hi(k[|q|]), k);
      }
    }
  }

  /** trie_iterate with deregister_itr. */
  method DeregisterAll(root: TrieLevel<FileStat>, owner: Text)
    requires root.Valid() && NameIsKey(root.model)
    modifies root.Repr
    ensures root.Valid() && root.Repr == old(root.Repr) && NameIsKey(root.model)
    ensures Cleared(old(root.model), root.model, owner, k => true)
  {
    ghost var m0 := root.model;
    for j := 0 to FANOUT
      invariant root.Valid() && root.Repr == old(root.Repr) && Kept<FileStat>(old(root.Repr)) && NameIsKey(root.model)
      invariant Cleared(m0, root.model, owner, k => InLevel(k, [], j))
    {
      ghost var m1 := root.model;
      var next := root.children[j];
      assert root.At([], j) == next;
      if next == null {
        NothingAt(root, owner, [], j);
      } else {
        DeregisterNode(root, owner, next, [], j);
      }
      ClearedThen(m0, m1, root.model, owner, k => InLevel(k, [], j), k => InNode(k, [], j), k => InLevel(k, [], j + 1));
    }
    ClearedThen(m0, root.model, root.model, owner, k => InLevel(k, [], FANOUT), k => false, k => true);
  }

  // ---- Histories of commands ----

  /** The commands that change the map: a record registered under the peer's address, and the
      departure of an owner. */
  datatype Command = Registered(stat: FileStat) | Departed(owner: Text)

  /** The record bound to `name` after the given commands, one at a time. */
  function Held(history: seq<Command>, name: Key): Option<FileStat> {
    if history == [] then None
    else
      var before := Held(history[..|history| - 1], name);
      match history[|history| - 1]
      case Registered(f) => if f.name == name then Some(f) else before
      case Departed(owner) => After(before, owner, true)
  }

  /** Command `i` registered `f`, and nothing later replaced it or removed its owner. */
  ghost predicate LastWord(history: seq<Command>, f: FileStat, i: nat) {
    && i < |history| && history[i] == Registered(f)
    && forall j | i < j < |history| ::
         history[j] != Departed(f.owner) && (history[j].Registered? ==> history[j].stat.name != f.name)
  }

  /** What a history leaves: exactly the records with the last word. */
  lemma {:induction false} HeldExact(history: seq<Command>, f: FileStat)
    ensures Held(history, f.name) == Some(f) <==> exists i: nat :: LastWord(history, f, i)
  {
    if history != [] {
      var n := |history| - 1;
      var before := history[..n];
      HeldExact(before, f);
      if Held(history, f.name) == Some(f) {
        if history[n] == Registered(f) {
          assert LastWord(history, f, n);
        } else {
          var i: nat :| LastWord(before, f, i);
          assert LastWord(history, f, i);
        }
      } else if exists i: nat :: LastWord(history, f, i) {
        var i: nat :| LastWord(history, f, i);
        assert i < n && LastWord(before, f, i);
        assert false;
      }
    }
  }

  // ---- The server ----

  /** Whether NEWFILE registers what it read. */
  predicate Registers(parsed: Parsed) {
    parsed.Record? && parsed.stat.name != [DOT] && parsed.stat.name != [DOT, DOT]
  }

  /** A client posts a file as its printed record: the server registers it unless it is one of the two
      entries of every directory. */
  lemma PostedRegisters(f: FileStat, rest: Text)
    requires Clean(f) && Fits(f)
    ensures Registers(Parse(Print(f) + rest)) <==> f.name != [DOT] && f.name != [DOT, DOT]
  {
    hide Parse, Print;
    RoundTrip(f, rest);
  }

  class Server {
    const files: TrieLevel<FileStat>
    ghost var history: seq<Command>

    /** The map holds what the commands so far leave. */
    ghost predicate Valid()
      reads this, files, files.Repr
    {
      files.Valid() && NameIsKey(files.model) && this !in files.Repr
      && forall name: Key | name != [] :: Get(files.model, name) == Held(history, name)
    }

    /** The file map. */
    ghost function Entry(name: Key): Option<FileStat>
      requires Valid() && name != []
      reads this, files, files.Repr
    {
      Get(files.model, name)
    }

    constructor ()
      ensures Valid() && fresh(files) && fresh(files.Repr) && history == []
    {
      files := new TrieLevel<FileStat>();
      history := [];
      new;
      forall name: Key | name != [] ensures Get(files.model, name) == None {
        assert files.model.children[Hi(name[0])] == NoNode;
      }
    }

    /** The NEWFILE branch of connection_callback: a readable record is bound to its own name, with the
        peer's address as its host, unless that name is `.` or `..`; no other name changes. */
    method NewFile(input: Stream, address: Text)
      requires Valid() && Dotted(address) && input.pos <= |input.data|
      requires input !in files.Repr
      requires Registers(Parse(input.Rest())) ==> Indexable(Parse(input.Rest()).stat.name)
      modifies this`history, files.Repr, input
      ensures Valid() && fresh(files.Repr - old(files.Repr))
      ensures input.pos <= |input.data| && input.Rest() == old(Parse(input.Rest())).rest
      ensures var parsed := old(Parse(input.Rest()));
        if parsed.Record? && parsed.stat.name != [DOT] && parsed.stat.name != [DOT, DOT] then
          var record := parsed.stat.(host := address);
          && history == old(history) + [Registered(record)]
          && forall name: Key | name != [] ::
               Entry(name) == if name == parsed.stat.name then Some(record) else old(Entry(name))
        else
          history == old(history) && forall name: Key | name != [] :: Entry(name) == old(Entry(name))
    {
      hide Parse;
      ParsedClean(input.Rest());
      var tmp, end := input.ReadFileStatEnd();
      if tmp.Some? && tmp.value.name != [DOT] && tmp.value.name != [DOT, DOT] {
        ghost var m := files.model;
        var record := tmp.value.(host := address);
        files.Insert(tmp.value.name, Some(record));
        history := history + [Registered(record)];
        assert history[..|history| - 1] == old(history);
        forall name: Key | name != []
          ensures Get(files.model, name) == if name == record.name then Some(record) else Get(m, name)
        {
          GetPut(m, record.name, Some(record), name);
        }
      }
    }

    /** The DEREGISTER branch: exactly the map restricted to other owners is left. */
    method Deregister(owner: Text)
      requires Valid()
      modifies this`history, files.Repr
      ensures Valid() && files.Repr == old(files.Repr) && history == old(history) + [Departed(owner)]
      ensures forall name: Key | name != [] ::
        Entry(name) == After(old(Entry(name)), owner, true)
    {
      ghost var m := files.model;
      DeregisterAll(files, owner);
      history := history + [Departed(owner)];
      assert history[..|history| - 1] == old(history);
      forall name: Key | name != [] ensures Get(files.model, name) == After(Get(m, name), owner, true) {
        assert (k => true)(name);
      }
    }
  }
}
