/** Exactly when LIST transfers the map: every record that survives leaves a trace in the server's
    answer that only a complete line can leave. */
module Transfers {
  import opened Prelude
  import opened Tries
  import opened TrieWalks
  import opened Records
  import opened Directory
  import opened Listing

  // ---- The trace: a dot, digits, a colon, characters of a number field, a newline ----

  /** 1 after a dot and digits, 2 after a further colon and characters of a number field, else 0. */
  function NextState(q: nat, c: Char): nat {
    if c == DOT then 1
    else if q == 1 && ZERO <= c < ZERO + 10 then 1
    else if q == 1 && c == COLON then 2
    else if q == 2 && ZERO <= c < 0x40 then 2
    else 0
  }

  function State(s: Text, q: nat): nat {
    if s == [] then q else State(s[1..], NextState(q, s[0]))
  }

  /** How many traces end in a text that is read from state `q`. */
  function Ends(s: Text, q: nat): nat {
    if s == [] then 0 else (if q == 2 && s[0] == NEWLINE then 1 else 0) + Ends(s[1..], NextState(q, s[0]))
  }

  lemma {:induction false} EndsAppend(a: Text, b: Text, q: nat)
    ensures State(a + b, q) == State(b, State(a, q))
    ensures Ends(a + b, q) == Ends(a, q) + Ends(b, State(a, q))
  {
    if a == [] {
      assert a + b == b;
    } else {
      assert (a + b)[1..] == a[1..] + b;
      EndsAppend(a[1..], b, NextState(q, a[0]));
    }
  }

  lemma {:induction false} NoNewline(t: Text, q: nat)
    requires NEWLINE !in t
    ensures Ends(t, q) == 0
  {
    if t != [] { NoNewline(t[1..], NextState(q, t[0])); }
  }

  lemma {:induction false} NoColon(t: Text, q: nat)
    requires COLON !in t && q != 2
    ensures Ends(t, q) == 0 && State(t, q) != 2
  {
    if t != [] { NoColon(t[1..], NextState(q, t[0])); }
  }

  lemma {:induction false} AfterAddress(t: Text, q: nat)
    requires DOT in t || q == 1
    requires forall i | 0 <= i < |t| :: t[i] == DOT || ZERO <= t[i] < ZERO + 10
    ensures State(t, q) == 1
  {
    if t != [] {
      forall i | 0 <= i < |t[1..]| ensures t[1..][i] == DOT || ZERO <= t[1..][i] < ZERO + 10 {
        assert t[1..][i] == t[i + 1];
      }
      AfterAddress(t[1..], NextState(q, t[0]));
    }
  }

  /** The characters of a number field keep both of these states. */
  lemma {:induction false} AfterNumber(t: Text, q: nat)
    requires forall i | 0 <= i < |t| :: ZERO <= t[i] < 0x40
    ensures q == 2 ==> State(t, q) == 2
    ensures q == 0 ==> State(t, q) == 0
    ensures Ends(t, q) == 0
  {
    if t != [] {
      forall i | 0 <= i < |t[1..]| ensures ZERO <= t[1..][i] < 0x40 { assert t[1..][i] == t[i + 1]; }
      AfterNumber(t[1..], NextState(q, t[0]));
      if q != 0 && q != 2 { NoNewline(t, q); }
    }
  }

  // ---- Each complete line leaves one trace, and a cut line none ----

  lemma {:induction false} DecimalDigits(n: nat)
    ensures forall i | 0 <= i < |Decimal(n)| :: ZERO <= Decimal(n)[i] < ZERO + 10
  {
    if n >= 10 { DecimalDigits(n / 10); }
  }

  /** A line without its newline. */
  function PortPart(f: FileStat): Text { [COLON] + Decimal(f.port) }

  function HostPart(f: FileStat): Text { f.host + PortPart(f) }

  function OwnerPart(f: FileStat): Text { f.owner + ([COLON] + HostPart(f)) }

  function SizePart(f: FileStat): Text { Decimal(f.size) + ([COLON] + OwnerPart(f)) }

  function Body(f: FileStat): Text { f.name + ([SLASH] + SizePart(f)) }

  lemma BodyLine(f: FileStat)
    ensures Line(f) == Body(f) + [NEWLINE]
  {
    assert AfterOwner(f, []) == HostPart(f) + [NEWLINE];
    assert AfterSize(f, []) == OwnerPart(f) + [NEWLINE];
    assert AfterName(f, []) == SizePart(f) + [NEWLINE];
  }

  lemma StepState(c: Char, t: Text, q: nat)
    ensures State([c] + t, q) == State(t, NextState(q, c))
    ensures Ends([c] + t, q) == (if q == 2 && c == NEWLINE then 1 else 0) + Ends(t, NextState(q, c))
  {
    assert ([c] + t)[1..] == t;
  }

  lemma HostEnds(f: FileStat, q: nat)
    requires Dotted(f.host)
    ensures Ends(HostPart(f), q) == 0 && State(HostPart(f), q) == 2
  {
    AfterAddress(f.host, q);
    NoNewline(f.host, q);
    EndsAppend(f.host, PortPart(f), q);
    StepState(COLON, Decimal(f.port), 1);
    DecimalDigits(f.port);
    AfterNumber(Decimal(f.port), 2);
  }

  lemma OwnerEnds(f: FileStat)
    requires Clean(f) && Dotted(f.host)
    ensures Ends(OwnerPart(f), 0) == 0 && State(OwnerPart(f), 0) == 2
  {
    NoColon(f.owner, 0);
    var q := State(f.owner, 0);
    EndsAppend(f.owner, [COLON] + HostPart(f), 0);
    StepState(COLON, HostPart(f), q);
    HostEnds(f, NextState(q, COLON));
  }

  lemma BodyEnds(f: FileStat, q: nat)
    requires Clean(f) && Dotted(f.host)
    ensures Ends(Body(f), q) == 0 && State(Body(f), q) == 2
  {
    NoNewline(f.name, q);
    EndsAppend(f.name, [SLASH] + SizePart(f), q);
    StepState(SLASH, SizePart(f), State(f.name, q));
    DecimalDigits(f.size);
    AfterNumber(Decimal(f.size), 0);
    EndsAppend(Decimal(f.size), [COLON] + OwnerPart(f), 0);
    StepState(COLON, OwnerPart(f), 0);
    OwnerEnds(f);
  }

  lemma PrintEnds(f: FileStat, q: nat)
    requires Clean(f) && Dotted(f.host)
    ensures Ends(Print(f), q) == if Fits(f) then 1 else 0
  {
    var body := Body(f);
    BodyLine(f);
    BodyEnds(f, q);
    if Fits(f) {
      EndsAppend(body, [NEWLINE], q);
      StepState(NEWLINE, [], 2);
      assert [NEWLINE] + [] == [NEWLINE];
    } else {
      var k := LINE_LEN - 1;
      assert Print(f) == body[..k] && body == body[..k] + body[k..];
      EndsAppend(body[..k], body[k..], q);
    }
  }

  function Fitting(fs: seq<FileStat>): nat {
    if fs == [] then 0 else (if Fits(fs[0]) then 1 else 0) + Fitting(fs[1..])
  }

  ghost predicate Storable(f: FileStat) {
    Clean(f) && Dotted(f.host)
  }

  lemma {:induction false} LinesEnds(fs: seq<FileStat>, tail: Text, q: nat)
    requires forall i | 0 <= i < |fs| :: Storable(fs[i])
    requires forall p :: Ends(tail, p) == 0
    ensures Ends(Lines(fs) + tail, q) == Fitting(fs)
    decreases |fs|
  {
    if fs == [] {
      assert Lines(fs) + tail == tail;
    } else {
      var more := Lines(fs[1..]) + tail;
      assert Lines(fs) + tail == Print(fs[0]) + more;
      assert Storable(fs[0]);
      PrintEnds(fs[0], q);
      EndsAppend(Print(fs[0]), more, q);
      LinesEnds(fs[1..], tail, State(Print(fs[0]), q));
    }
  }

  lemma EndMarkerEnds(q: nat)
    ensures Ends(END + [NEWLINE], q) == 0
  {
    var s := END + [NEWLINE];
    assert s == [0x45] + ([0x4E, 0x44] + [NEWLINE]);
    StepState(0x45, [0x4E, 0x44] + [NEWLINE], q);
    NoColon([0x4E, 0x44] + [NEWLINE], 0);
  }

  // ---- Each record received from an address uses up one trace ----

  lemma {:induction false} NameFieldText(s: Text, buf: Text)
    requires NameField(s, buf).Found?
    ensures var r := NameField(s, buf); buf + s == r.value + [SLASH] + r.rest
    decreases |s|
  {
    assert s == [s[0]] + s[1..];
    if s[0] == SLASH {
      assert buf + s == buf + [SLASH] + s[1..];
    } else {
      NameFieldText(s[1..], buf + [s[0]]);
      assert buf + [s[0]] + s[1..] == buf + s;
    }
  }

  lemma {:induction false} TextFieldText(s: Text, buf: Text)
    requires TextField(s, buf).Found?
    ensures var r := TextField(s, buf); buf + s == r.value + [COLON] + r.rest
    decreases |s|
  {
    assert s == [s[0]] + s[1..];
    if s[0] == COLON {
      assert buf + s == buf + [COLON] + s[1..];
    } else {
      TextFieldText(s[1..], buf + [s[0]]);
      assert buf + [s[0]] + s[1..] == buf + s;
    }
  }

  lemma {:induction false} NumberFieldText(s: Text, stop: Char, n: nat) returns (t: Text)
    requires NumberField(s, stop, n).Found?
    ensures s == t + [stop] + NumberField(s, stop, n).rest
    ensures forall i | 0 <= i < |t| :: ZERO <= t[i] < 0x40
    decreases |s|
  {
    assert s == [s[0]] + s[1..];
    if s[0] == stop {
      t := [];
    } else {
      var u := NumberFieldText(s[1..], stop, U64(n * 10 + (s[0] - ZERO)));
      t := [s[0]] + u;
    }
  }

  /** The end of a record as it stood in the input: its host, a colon, its port and the newline. */
  lemma RecordText(s: Text) returns (before: Text, host: Text, port: Text)
    requires Parse(s).Record?
    ensures s == before + (host + ([COLON] + (port + ([NEWLINE] + Parse(s).rest))))
    ensures Parse(s).stat.host == CString(host)
    ensures forall i | 0 <= i < |port| :: ZERO <= port[i] < 0x40
  {
    var name := NameField(s, []);
    NameFieldText(s, []);
    var size := NumberField(name.rest, COLON, 0);
    var t := NumberFieldText(name.rest, COLON, 0);
    var owner := TextField(size.rest, []);
    TextFieldText(size.rest, []);
    var field := TextField(owner.rest, []);
    TextFieldText(owner.rest, []);
    port := NumberFieldText(field.rest, NEWLINE, 0);
    host := field.value;
    Then(s, [], s, name.value + [SLASH], name.rest);
    Then(s, name.value + [SLASH], name.rest, t + [COLON], size.rest);
    before := name.value + [SLASH] + (t + [COLON]);
    Then(s, before, size.rest, owner.value + [COLON], owner.rest);
    before := before + (owner.value + [COLON]);
    HostAndPort(owner.rest, host, field.rest, port, Parse(s).rest);
  }

  lemma Then(s: Text, a: Text, r: Text, b: Text, r': Text)
    requires s == a + r && (r == b + r' || [] + r == b + r')
    ensures s == a + b + r'
  {
    assert [] + r == r;
  }

  lemma HostAndPort(r: Text, host: Text, r': Text, port: Text, rest: Text)
    requires [] + r == host + [COLON] + r' && r' == port + [NEWLINE] + rest
    ensures r == host + ([COLON] + (port + ([NEWLINE] + rest)))
  {
    assert [] + r == r;
  }

  lemma RecordEnds(s: Text, q: nat) returns (used: Text)
    requires Parse(s).Record? && NUL !in s && Dotted(Parse(s).stat.host)
    ensures s == used + Parse(s).rest && Ends(used, q) >= 1
  {
    var before, host, port := RecordText(s);
    var tail := port + [NEWLINE];
    var last := host + ([COLON] + tail);
    used := before + last;
    assert s == used + Parse(s).rest;
    assert forall c | c in host :: c in s;
    assert CString(host) == host;
    var p := State(before, q);
    EndsAppend(before, last, q);
    AfterAddress(host, p);
    EndsAppend(host, [COLON] + tail, p);
    StepState(COLON, tail, 1);
    AfterNumber(port, 2);
    EndsAppend(port, [NEWLINE], 2);
    StepState(NEWLINE, [], 2);
    assert [NEWLINE] + [] == [NEWLINE];
  }

  /** The records that came from an address. */
  ghost function FromAddress(fs: seq<FileStat>): seq<FileStat> {
    if fs == [] then [] else (if Dotted(fs[0].host) then [fs[0]] else []) + FromAddress(fs[1..])
  }

  lemma {:induction false} ReceivedEnds(s: Text, q: nat)
    requires NUL !in s
    ensures |FromAddress(Received(s))| <= Ends(s, q)
    decreases |s|
  {
    if Parse(s).Record? {
      ParsedClean(s);
      var g, rest := Parse(s).stat, Parse(s).rest;
      var used: Text;
      if Dotted(g.host) {
        used := RecordEnds(s, q);
      } else {
        var before, host, port := RecordText(s);
        used := before + (host + ([COLON] + (port + [NEWLINE])));
        assert s == used + rest;
      }
      EndsAppend(used, rest, q);
      assert forall c | c in rest :: c in s;
      ReceivedEnds(rest, State(used, q));
      assert Received(s)[0] == g && Received(s)[1..] == Received(rest);
    }
  }

  // ---- Counting ----

  lemma {:induction false} FromAddressHas(fs: seq<FileStat>, f: FileStat)
    requires f in fs && Dotted(f.host)
    ensures f in FromAddress(fs)
  {
    if fs[0] != f { FromAddressHas(fs[1..], f); }
  }

  lemma {:induction false} ElementsFew<T>(s: seq<T>)
    ensures |Elements(s)| <= |s|
  {
    if s != [] {
      var n := |s| - 1;
      ElementsFew(s[..n]);
      assert Elements(s) == Elements(s[..n]) + {s[n]};
    }
  }

  lemma {:induction false} FittingAll(fs: seq<FileStat>)
    ensures Fitting(fs) <= |fs|
    ensures Fitting(fs) == |fs| ==> forall i | 0 <= i < |fs| :: Fits(fs[i])
  {
    if fs != [] { FittingAll(fs[1..]); }
  }

  lemma {:induction false} PutAllSource(m: Level<FileStat>, fs: seq<FileStat>, k: Key, f: FileStat)
    requires LevelOk(m) && m.Level? && k != [] && AllIndexable(fs) && Get(PutAll(m, fs), k) == Some(f)
    ensures f in fs || Get(m, k) == Some(f)
    decreases |fs|
  {
    if fs != [] {
      GetPut(m, fs[0].name, Some(fs[0]), k);
      PutAllSource(Put(m, fs[0].name, Some(fs[0])), fs[1..], k, f);
    }
  }

  lemma {:induction false} LinesNoNul(fs: seq<FileStat>)
    requires forall i | 0 <= i < |fs| :: Storable(fs[i])
    ensures NUL !in Lines(fs)
  {
    if fs != [] {
      var f := fs[0];
      assert Storable(f);
      DecimalDigits(f.size);
      DecimalDigits(f.port);
      BodyLine(f);
      assert NUL !in Body(f) by {
        assert NUL !in HostPart(f);
        assert NUL !in OwnerPart(f);
        assert NUL !in SizePart(f);
      }
      assert NUL !in Print(f);
      LinesNoNul(fs[1..]);
    }
  }

  lemma CameFromAddresses(fs: seq<FileStat>, got: seq<FileStat>)
    requires Distinct(fs) && forall i | 0 <= i < |fs| :: fs[i] in got && Dotted(fs[i].host)
    ensures |fs| <= |FromAddress(got)|
  {
    var from := FromAddress(got);
    forall f | f in fs ensures f in Elements(from) { FromAddressHas(got, f); }
    DistinctFits(fs, Elements(from));
    ElementsFew(from);
  }

  /** The traces in the server's answer are those of the lines that fit. */
  lemma AnswerEnds(fs: seq<FileStat>)
    requires forall i | 0 <= i < |fs| :: Storable(fs[i])
    ensures Ends(Lines(fs) + (END + [NEWLINE]), 0) == Fitting(fs)
  {
    forall p ensures Ends(END + [NEWLINE], p) == 0 { EndMarkerEnds(p); }
    LinesEnds(fs, END + [NEWLINE], 0);
  }

  lemma AnswerNoNul(fs: seq<FileStat>)
    requires forall i | 0 <= i < |fs| :: Storable(fs[i])
    ensures NUL !in Lines(fs) + (END + [NEWLINE])
  {
    hide Lines, Storable;
    LinesNoNul(fs);
    var marker := END + [NEWLINE];
    assert forall i | 0 <= i < |marker| :: marker[i] != NUL;
    assert NUL !in marker;
  }

  /** Distinct records that all came through are at most as many as the lines that fit. */
  lemma SurvivorsFit(fs: seq<FileStat>)
    requires Distinct(fs) && forall i | 0 <= i < |fs| :: Storable(fs[i])
    requires forall i | 0 <= i < |fs| :: fs[i] in Received(Lines(fs) + (END + [NEWLINE]))
    ensures forall i | 0 <= i < |fs| :: Fits(fs[i])
  {
    hide Received, Lines, Ends, FromAddress;
    var text := Lines(fs) + (END + [NEWLINE]);
    forall i | 0 <= i < |fs| ensures Dotted(fs[i].host) { assert Storable(fs[i]); }
    CameFromAddresses(fs, Received(text));
    AnswerNoNul(fs);
    ReceivedEnds(text, 0);
    AnswerEnds(fs);
    FittingAll(fs);
  }

  // ---- The condition ----

  /** The client holds none of the server's records yet. */
  ghost predicate Stale(server: Level<FileStat>, client: Level<FileStat>)
    requires LevelOk(server) && LevelOk(client)
  {
    forall k: Key | k != [] && Get(server, k).Some? :: Get(client, k) != Get(server, k)
  }

  /** LIST transfers the map: on every server key the client agrees with the server, and everywhere
      else it keeps what it had. */
  ghost predicate Transferred(server: Level<FileStat>, client: Level<FileStat>)
    requires LevelOk(server) && LevelOk(client) && client.Level?
  {
    var got := Received(Answer(server));
    && AllIndexable(got)
    && forall k: Key | k != [] ::
         Get(PutAll(client, got), k) == if Get(server, k).Some? then Get(server, k) else Get(client, k)
  }

  /** Exactly when LIST transfers the map to a client that holds none of its records: every stored
      record's line fits the printer's buffer. To any client it then transfers the map too. */
  lemma ListTransfersExactly(server: Level<FileStat>, client: Level<FileStat>)
    requires LevelOk(server) && LevelOk(client) && client.Level? && NameIsKey(server)
    ensures AllFit(server) ==> Transferred(server, client)
    ensures Stale(server, client) ==> (Transferred(server, client) <==> AllFit(server))
  {
    if AllFit(server) {
      ListTransfersMap(server, client, []);
      assert Answer(server) + [] == Answer(server);
    }
    if Stale(server, client) && Transferred(server, client) {
      var fs := Values(Bindings(server));
      ValuesExact(server);
      DistinctValues(server);
      forall i | 0 <= i < |fs| ensures Storable(fs[i]) && fs[i] in Received(Answer(server)) {
        var k := fs[i].name;
        assert Get(server, k) == Some(fs[i]);
        PutAllSource(client, Received(Answer(server)), k, fs[i]);
      }
      SurvivorsFit(fs);
      forall k: Key | k != [] && Get(server, k).Some? ensures Fits(Get(server, k).value) {
        var i :| 0 <= i < |fs| && fs[i] == Get(server, k).value;
      }
    }
  }

  lemma DistinctValues(m: Level<FileStat>)
    requires LevelOk(m) && NameIsKey(m)
    ensures Distinct(Values(Bindings(m)))
  {
    var bs := Bindings(m);
    BindingsExact(m);
    forall i, j | 0 <= i < j < |bs| ensures Values(bs)[i] != Values(bs)[j] {
      assert bs[i] in bs && bs[j] in bs;
    }
  }
}
