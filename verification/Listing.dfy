/** The LIST command: the server prints its map, and the client rebuilds it. */
module Listing {
  import opened Prelude
  import opened Tries
  import opened TrieHeap
  import opened TrieWalks
  import opened Records
  import opened Directory

  function Lines(fs: seq<FileStat>): Text {
    if fs == [] then [] else Print(fs[0]) + Lines(fs[1..])
  }

  /** What the server sends in answer to LIST. */
  function Answer(m: Level<FileStat>): Text
    requires LevelOk(m)
  {
    Lines(Values(Bindings(m))) + (END + [NEWLINE])
  }

  /** The records a client takes from its input, up to the first line that is not one. */
  function Received(s: Text): seq<FileStat>
    decreases |s|
  {
    ParsedClean(s);
    if Parse(s).Record? then [Parse(s).stat] + Received(Parse(s).rest) else []
  }

  lemma ReceivedMore(f: FileStat, tail: Text)
    requires Clean(f) && Fits(f)
    ensures Received(Print(f) + tail) == [f] + Received(tail)
  {
    RoundTrip(f, tail);
  }

  lemma {:induction false} ReceivedLines(fs: seq<FileStat>, tail: Text)
    requires !Parse(tail).Record? && forall i | 0 <= i < |fs| :: Clean(fs[i]) && Fits(fs[i])
    ensures Received(Lines(fs) + tail) == fs
  {
    hide Print, Parse, Clean, Fits;
    if fs == [] {
      assert Lines(fs) + tail == tail;
    } else {
      var more := Lines(fs[1..]) + tail;
      assert Lines(fs) + tail == Print(fs[0]) + more;
      ReceivedMore(fs[0], more);
      ReceivedLines(fs[1..], tail);
    }
  }

  ghost predicate AllIndexable(fs: seq<FileStat>) {
    forall i | 0 <= i < |fs| :: Indexable(fs[i].name)
  }

  /** The client's map after it has put each record under its name. */
  ghost function PutAll(m: Level<FileStat>, fs: seq<FileStat>): (m': Level<FileStat>)
    requires LevelOk(m) && m.Level? && AllIndexable(fs)
    ensures LevelOk(m') && m'.Level?
    decreases |fs|
  {
    if fs == [] then m else PutAll(Put(m, fs[0].name, Some(fs[0])), fs[1..])
  }

  function PutOne(m: Level<FileStat>, stat: Option<FileStat>): (m': Level<FileStat>)
    requires LevelOk(m) && m.Level? && (stat.Some? ==> stat.value.name != [])
    ensures LevelOk(m') && m'.Level?
  {
    if stat.Some? then Put(m, stat.value.name, stat) else m
  }

  lemma {:induction false} PutAllGet(m: Level<FileStat>, fs: seq<FileStat>, k: Key)
    requires LevelOk(m) && m.Level? && k != [] && AllIndexable(fs)
    requires forall f, g | f in fs && g in fs && f.name == k == g.name :: f == g
    ensures forall f | f in fs && f.name == k :: Get(PutAll(m, fs), k) == Some(f)
    ensures (forall f | f in fs :: f.name != k) ==> Get(PutAll(m, fs), k) == Get(m, k)
    decreases |fs|
  {
    if fs != [] {
      var m1 := Put(m, fs[0].name, Some(fs[0]));
      GetPut(m, fs[0].name, Some(fs[0]), k);
      PutAllGet(m1, fs[1..], k);
      if f :| f in fs && f.name == k {
        assert f == fs[0] || f in fs[1..];
        if g :| g in fs[1..] && g.name == k {
          assert g == f;
        }
      }
    }
  }

  /** The traversal hands the callback each stored record, under its own name, and nothing else. */
  lemma ValuesExact(m: Level<FileStat>)
    requires LevelOk(m) && NameIsKey(m)
    ensures var fs := Values(Bindings(m));
      && (forall i | 0 <= i < |fs| :: fs[i].name != [] && Get(m, fs[i].name) == Some(fs[i]))
      && (forall k: Key | k != [] && Get(m, k).Some? :: Get(m, k).value in fs)
  {
    var bs := Bindings(m);
    var fs := Values(bs);
    BindingsExact(m);
    forall i | 0 <= i < |fs| ensures fs[i].name != [] && Get(m, fs[i].name) == Some(fs[i]) {
      assert bs[i] in bs;
    }
    forall k: Key | k != [] && Get(m, k).Some? ensures Get(m, k).value in fs {
      var b := Binding(k, Get(m, k).value);
      assert b in bs;
      var i :| 0 <= i < |bs| && bs[i] == b;
      assert fs[i] == b.value;
    }
  }

  /** Every stored record's line fits the printer's buffer. */
  ghost predicate AllFit(m: Level<FileStat>)
    requires LevelOk(m)
  {
    forall k: Key | k != [] && Get(m, k).Some? :: Fits(Get(m, k).value)
  }

  /** If all records fit, then on every server key the client agrees with the server, and everywhere
      else it keeps what it had, whatever follows on the stream. */
  lemma ListTransfersMap(server: Level<FileStat>, client: Level<FileStat>, rest: Text)
    requires LevelOk(server) && LevelOk(client) && client.Level? && NameIsKey(server) && AllFit(server)
    ensures var got := Received(Answer(server) + rest);
      && AllIndexable(got)
      && forall k: Key | k != [] ::
           Get(PutAll(client, got), k) == if Get(server, k).Some? then Get(server, k) else Get(client, k)
  {
    var fs := Values(Bindings(server));
    ValuesExact(server);
    EndReads(rest);
    ReceivedLines(fs, END + [NEWLINE] + rest);
    assert Answer(server) + rest == Lines(fs) + (END + [NEWLINE] + rest);
    forall k: Key | k != []
      ensures Get(PutAll(client, fs), k) == if Get(server, k).Some? then Get(server, k) else Get(client, k)
    {
      PutAllGet(client, fs, k);
    }
  }

  /** The LIST branch of connection_callback. */
  method List(server: Server) returns (out: Text)
    requires server.Valid()
    ensures out == Answer(server.files.model)
  {
    hide Print;
    var seen := Iterate(server.files);
    out := [];
    assert seen[0..] == seen;
    ghost var rest := Lines(seen[0..]);
    for i := 0 to |seen|
      invariant rest == Lines(seen[i..]) && out + rest == Lines(seen)
    {
      assert seen[i..][1..] == seen[i + 1..];
      rest := Lines(seen[i + 1..]);
      Regroup(out, Print(seen[i]), rest);
      out := out + Print(seen[i]);
    }
    out := out + (END + [NEWLINE]);
  }

  class Client {
    const files: TrieLevel<FileStat>

    constructor ()
      ensures files.Valid() && fresh(files) && fresh(files.Repr) && files.model == EmptyLevel()
    {
      files := new TrieLevel<FileStat>();
    }

    /** The do-while loop of list_files. */
    method ListFiles(input: Stream)
      requires files.Valid() && input !in files.Repr && input.pos <= |input.data|
      requires AllIndexable(Received(input.Rest()))
      modifies files.Repr, input
      ensures files.Valid() && fresh(files.Repr - old(files.Repr))
      ensures files.model == PutAll(old(files.model), Received(old(input.Rest())))
    {
      hide Parse, Put;
      ghost var got := Received(input.Rest());
      var stat: Option<FileStat>, end := None, false;
      var again := true;
      while again
        invariant files.Valid() && fresh(files.Repr - old(files.Repr))
        invariant input !in files.Repr && input.pos <= |input.data|
        invariant again && stat.Some? ==> Indexable(stat.value.name)
        invariant again ==> AllIndexable(Received(input.Rest()))
        invariant again ==>
          PutAll(old(files.model), got) == PutAll(PutOne(files.model, stat), Received(input.Rest()))
        invariant !again ==> PutAll(old(files.model), got) == files.model
        decreases if again then |input.Rest()| + 1 else 0
      {
        if stat.Some? {
          files.Insert(stat.value.name, stat);
        }
        ghost var rest := input.Rest();
        ParsedClean(rest);
        stat, end := input.ReadFileStatEnd();
        if stat.Some? {
          assert Received(rest) == [stat.value] + Received(input.Rest());
          assert Received(rest)[1..] == Received(input.Rest());
        }
        again := stat.Some? && !end;
      }
    }
  }

  /** A whole `ls`: the client sends LIST, the server answers, the client reads the answer. If all
      records fit the printer's buffer, the client then holds every record with the last word, and
      what it held before under any other name. */
  method Ls(server: Server, client: Client)
    requires server.Valid() && client.files.Valid()
    requires server.files.Repr !! client.files.Repr && server !in client.files.Repr
    requires AllIndexable(Received(Answer(server.files.model)))
    modifies client.files.Repr
    ensures client.files.Valid() && server.Valid() && server.history == old(server.history)
    ensures server.files.model == old(server.files.model)
    ensures client.files.model == PutAll(old(client.files.model), Received(Answer(old(server.files.model))))
    ensures AllFit(server.files.model) ==> forall k: Key | k != [] ::
      Get(client.files.model, k)
        == if Held(server.history, k).Some? then Held(server.history, k) else old(Get(client.files.model, k))
  {
    hide PutAll, Received, Answer, Get;
    var text := List(server);
    var input := new Stream(text);
    assert text + [] == text == input.Rest();
    if AllFit(server.files.model) {
      ListTransfersMap(server.files.model, client.files.model, []);
    }
    client.ListFiles(input);
  }
}
