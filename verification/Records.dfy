/** PA4/pa4str.c: the line that carries one file record, its printer and its parser. */
module Records {
  import opened Prelude
  import opened Tries

  type Text = seq<Char>

  const NUL: Char := 0
  const NEWLINE: Char := 0x0A
  const SLASH: Char := 0x2F
  const DOT: Char := 0x2E
  const COLON: Char := 0x3A
  const ZERO: Char := 0x30
  const END: Text := [0x45, 0x4E, 0x44]

  /** BUF_LEN of the parser, and the size of the printer's buffer. */
  const BUF_LEN := 1024
  const LINE_LEN := 2048

  datatype FileStat = FileStat(name: Text, size: nat, owner: Text, host: Text, port: nat)

  // ---- Printer ----

  function Digit(d: nat): Char
    requires d < 10
  {
    ZERO + d
  }

  function Decimal(n: nat): Text {
    if n < 10 then [Digit(n)] else Decimal(n / 10) + [Digit(n % 10)]
  }

  /** name/size:owner:host:port and a newline. */
  function Line(f: FileStat): Text {
    f.name + ([SLASH] + AfterName(f, []))
  }

  /** The line after its first delimiter, and what follows it on the stream. */
  function AfterName(f: FileStat, rest: Text): Text {
    Decimal(f.size) + ([COLON] + AfterSize(f, rest))
  }

  function AfterSize(f: FileStat, rest: Text): Text {
    f.owner + ([COLON] + AfterOwner(f, rest))
  }

  function AfterOwner(f: FileStat, rest: Text): Text {
    f.host + ([COLON] + AfterHost(f, rest))
  }

  function AfterHost(f: FileStat, rest: Text): Text {
    Decimal(f.port) + ([NEWLINE] + rest)
  }

  /** write_file_stat: snprintf leaves room for the terminating null. */
  function Print(f: FileStat): (p: Text)
    ensures p <= Line(f) && |p| < LINE_LEN && (|p| < LINE_LEN - 1 ==> p == Line(f))
  {
    var line := Line(f);
    if |line| < LINE_LEN then line else line[..LINE_LEN - 1]
  }

  // ---- Parser ----

  /** What a C string function sees of a buffer. */
  function CString(t: Text): (c: Text)
    ensures |c| <= |t| && c == t[..|c|] && NUL !in c
    ensures |c| < |t| ==> t[|c|] == NUL
  {
    if t == [] || t[0] == NUL then [] else
      assert t == [t[0]] + t[1..];
      [t[0]] + CString(t[1..])
  }

  /** One field: the delimiter was found, or the input ended, or a character was refused. */
  datatype Field<T> = Found(value: T, rest: Text) | AtEnd(value: T) | Refused(end: bool, rest: Text)

  function NameField(s: Text, buf: Text): Field<Text>
    decreases |s|
  {
    if s == [] then AtEnd(buf)
    else if s[0] == SLASH then Found(buf, s[1..])
    else if s[0] == NEWLINE then Refused(CString(buf) == END, s[1..])
    else if |buf| >= BUF_LEN - 1 then Refused(false, s[1..])
    else NameField(s[1..], buf + [s[0]])
  }

  function TextField(s: Text, buf: Text): (r: Field<Text>)
    ensures r.Refused? ==> !r.end
    decreases |s|
  {
    if s == [] then AtEnd(buf)
    else if s[0] == COLON then Found(buf, s[1..])
    else if |buf| >= BUF_LEN - 1 then Refused(false, s[1..])
    else TextField(s[1..], buf + [s[0]])
  }

  function NumberField(s: Text, stop: Char, n: nat): (r: Field<nat>)
    ensures r.Refused? ==> !r.end
    decreases |s|
  {
    if s == [] then AtEnd(n)
    else if s[0] == stop then Found(n, s[1..])
    else if s[0] < ZERO || s[0] >= 0x40 then Refused(false, s[1..])
    else NumberField(s[1..], stop, U64(n * 10 + (s[0] - ZERO)))
  }

  /** What read_file_stat_end returns, the value of its `end` flag, and the input it leaves. */
  datatype Parsed = Record(stat: FileStat, rest: Text) | NoRecord(end: bool, rest: Text)

  function Failure<T>(field: Field<T>): Parsed
    requires !field.Found?
  {
    if field.AtEnd? then NoRecord(false, []) else NoRecord(field.end, field.rest)
  }

  function Parse(s: Text): Parsed {
    var name := NameField(s, []);
    if !name.Found? then Failure(name) else
    var size := NumberField(name.rest, COLON, 0);
    if !size.Found? then Failure(size) else
    var owner := TextField(size.rest, []);
    if !owner.Found? then Failure(owner) else
    var host := TextField(owner.rest, []);
    if !host.Found? then Failure(host) else
    var port := NumberField(host.rest, NEWLINE, 0);
    if !port.Found? then Failure(port) else
    var stat := FileStat(CString(name.value), size.value, CString(owner.value), CString(host.value), U16(port.value));
    Record(stat, port.rest)
  }

  // ---- Fields that survive ----

  predicate CleanName(t: Text) {
    |t| < BUF_LEN && NUL !in t && SLASH !in t && NEWLINE !in t
  }

  predicate CleanText(t: Text) {
    |t| < BUF_LEN && NUL !in t && COLON !in t
  }

  predicate Clean(f: FileStat) {
    && CleanName(f.name) && CleanText(f.owner) && CleanText(f.host)
    && f.size < 0x1_0000_0000_0000_0000 && f.port < 0x1_0000
  }

  /** A dotted address, as inet_ntoa writes it. */
  ghost predicate Dotted(t: Text) {
    |t| <= 15 && DOT in t && forall i | 0 <= i < |t| :: t[i] == DOT || ZERO <= t[i] < ZERO + 10
  }

  /** The records that one line carries. */
  predicate Fits(f: FileStat) {
    |Line(f)| < LINE_LEN
  }

  lemma {:induction false} NameFieldRuns(t: Text, buf: Text, rest: Text)
    requires SLASH !in t && NEWLINE !in t && |buf| + |t| < BUF_LEN
    ensures NameField(t + rest, buf) == NameField(rest, buf + t)
    decreases |t|
  {
    if t == [] {
      assert t + rest == rest && buf + t == buf;
    } else {
      assert (t + rest)[1..] == t[1..] + rest;
      NameFieldRuns(t[1..], buf + [t[0]], rest);
      assert buf + [t[0]] + t[1..] == buf + t;
    }
  }

  lemma {:induction false} TextFieldRuns(t: Text, buf: Text, rest: Text)
    requires COLON !in t && |buf| + |t| < BUF_LEN
    ensures TextField(t + rest, buf) == TextField(rest, buf + t)
    decreases |t|
  {
    if t == [] {
      assert t + rest == rest && buf + t == buf;
    } else {
      assert (t + rest)[1..] == t[1..] + rest;
      TextFieldRuns(t[1..], buf + [t[0]], rest);
      assert buf + [t[0]] + t[1..] == buf + t;
    }
  }

  /** Reading back what %lu or %u printed. */
  lemma {:induction false} DecimalReads(n: nat, stop: Char, tail: Text)
    requires n < 0x1_0000_0000_0000_0000 && (stop < ZERO || stop >= ZERO + 10)
    ensures NumberField(Decimal(n) + tail, stop, 0) == NumberField(tail, stop, n)
  {
    if n < 10 {
      assert (Decimal(n) + tail)[1..] == tail;
    } else {
      var d := Digit(n % 10);
      DecimalReads(n / 10, stop, [d] + tail);
      assert Decimal(n) + tail == Decimal(n / 10) + ([d] + tail);
      assert U64(n / 10 * 10 + n % 10) == n;
      assert ([d] + tail)[1..] == tail;
    }
  }

  /** The number that a text denotes, digit by digit, without any limit. */
  function NumberOf(t: Text): int {
    if t == [] then 0 else NumberOf(t[..|t| - 1]) * 10 + (t[|t| - 1] - ZERO)
  }

  predicate AllDigits(t: Text) {
    forall i | 0 <= i < |t| :: ZERO <= t[i] < ZERO + 10
  }

  /** What %lu and %u print: digits that denote the number, and no leading zero. */
  lemma {:induction false} DecimalExact(n: nat)
    ensures AllDigits(Decimal(n)) && NumberOf(Decimal(n)) == n
    ensures Decimal(n) != [] && (|Decimal(n)| > 1 ==> Decimal(n)[0] != ZERO)
  {
    if n < 10 {
      assert NumberOf([Digit(n)]) == NumberOf([Digit(n)][..0]) * 10 + n;
    } else {
      DecimalExact(n / 10);
      assert Decimal(n)[..|Decimal(n)| - 1] == Decimal(n / 10);
      if |Decimal(n / 10)| == 1 { assert NumberOf(Decimal(n / 10)[..0]) == 0; }
    }
  }

  /** No other text does: the digits without a leading zero are determined by the number. */
  lemma {:induction false} DecimalOnly(t: Text)
    requires AllDigits(t) && t != [] && (|t| > 1 ==> t[0] != ZERO)
    ensures NumberOf(t) >= 0 && t == Decimal(NumberOf(t))
    ensures t[0] != ZERO ==> NumberOf(t) > 0
    decreases |t|
  {
    var k := |t| - 1;
    assert t == t[..k] + [t[k]];
    if k == 0 {
      assert NumberOf(t[..0]) == 0;
    } else {
      DecimalOnly(t[..k]);
    }
  }

  /** A line as the printer writes it: `a/5:b:c:80`. */
  lemma LineExample()
    ensures Print(FileStat([0x61], 5, [0x62], [0x63], 80))
      == [0x61, SLASH, 0x35, COLON, 0x62, COLON, 0x63, COLON, 0x38, 0x30, NEWLINE]
  {
    var f := FileStat([0x61], 5, [0x62], [0x63], 80);
    assert Decimal(80) == [0x38, 0x30] && Decimal(5) == [0x35];
    hide Decimal;
    assert AfterHost(f, []) == [0x38, 0x30, NEWLINE];
    assert AfterOwner(f, []) == [0x63, COLON, 0x38, 0x30, NEWLINE];
    assert AfterSize(f, []) == [0x62, COLON, 0x63, COLON, 0x38, 0x30, NEWLINE];
    assert AfterName(f, []) == [0x35, COLON, 0x62, COLON, 0x63, COLON, 0x38, 0x30, NEWLINE];
  }

  // ---- What each field of the parser accepts ----

  /** The characters that a number field admits: digits, and the six that follow them. */
  predicate NumberChars(t: Text) {
    forall i | 0 <= i < |t| :: ZERO <= t[i] < 0x40
  }

  lemma NumberTurn(n: int, d: int)
    ensures U64(U64(n) * 10 + d) == U64(n * 10 + d)
  {
    var m := 0x1_0000_0000_0000_0000;
    assert n * 10 + d == (U64(n) * 10 + d) + m * (n / m * 10);
  }

  lemma NumberSnoc(done: Text, c: Char)
    ensures U64(NumberOf(done + [c])) == U64(U64(NumberOf(done)) * 10 + (c - ZERO))
  {
    assert (done + [c])[..|done|] == done;
    NumberTurn(NumberOf(done), c - ZERO);
  }

  lemma {:induction false} NumberFieldRuns(t: Text, stop: Char, done: Text, rest: Text)
    requires NumberChars(t) && stop !in t
    ensures NumberField(t + rest, stop, U64(NumberOf(done))) == NumberField(rest, stop, U64(NumberOf(done + t)))
    decreases |t|
  {
    if t == [] {
      assert t + rest == rest && done + t == done;
    } else {
      NumberSnoc(done, t[0]);
      NumberFieldRuns(t[1..], stop, done + [t[0]], rest);
      hide NumberOf, U64;
      assert (t + rest)[1..] == t[1..] + rest;
      assert done + [t[0]] + t[1..] == done + t;
    }
  }

  lemma NumberFieldReads(t: Text, stop: Char, rest: Text)
    requires NumberChars(t) && stop !in t
    ensures NumberField(t + rest, stop, 0) == NumberField(rest, stop, U64(NumberOf(t)))
  {
    hide NumberField;
    NumberFieldRuns(t, stop, [], rest);
    assert [] + t == t;
  }

  /** A number field ends at its delimiter, at the end of the input or at the first character it does not
      admit; what it found is the number of its characters, modulo 2^64. */
  lemma NumberFieldExact(t: Text, stop: Char, bad: Char, rest: Text)
    requires NumberChars(t) && stop !in t && bad != stop && !(ZERO <= bad < 0x40)
    ensures NumberField(t + ([stop] + rest), stop, 0) == Found(U64(NumberOf(t)), rest)
    ensures NumberField(t, stop, 0) == AtEnd(U64(NumberOf(t)))
    ensures NumberField(t + ([bad] + rest), stop, 0) == Refused(false, rest)
  {
    hide NumberOf;
    NumberFieldReads(t, stop, [stop] + rest);
    NumberFieldReads(t, stop, []);
    NumberFieldReads(t, stop, [bad] + rest);
    assert t + [] == t && ([stop] + rest)[1..] == rest == ([bad] + rest)[1..];
  }

  /** The name ends at the first slash; a newline before it, or a 1024th character, refuses the record. */
  lemma NameFieldExact(t: Text, next: Char, rest: Text)
    requires SLASH !in t && NEWLINE !in t && |t| < BUF_LEN
    ensures NameField(t + ([SLASH] + rest), []) == Found(t, rest)
    ensures NameField(t, []) == AtEnd(t)
    ensures NameField(t + ([NEWLINE] + rest), []) == Refused(CString(t) == END, rest)
    ensures |t| == BUF_LEN - 1 && next != SLASH && next != NEWLINE ==>
      NameField(t + ([next] + rest), []) == Refused(false, rest)
  {
    NameFieldFinds(t, rest);
    NameFieldRuns(t, [], []);
    NameFieldRuns(t, [], [NEWLINE] + rest);
    NameFieldRuns(t, [], [next] + rest);
    assert [] + t == t && t + [] == t && ([NEWLINE] + rest)[1..] == rest == ([next] + rest)[1..];
  }

  /** The owner and the host end at the first colon; a 1024th character refuses the record. */
  lemma TextFieldExact(t: Text, next: Char, rest: Text)
    requires COLON !in t && |t| < BUF_LEN
    ensures TextField(t + ([COLON] + rest), []) == Found(t, rest)
    ensures TextField(t, []) == AtEnd(t)
    ensures |t| == BUF_LEN - 1 && next != COLON ==> TextField(t + ([next] + rest), []) == Refused(false, rest)
  {
    TextFieldFinds(t, rest);
    TextFieldRuns(t, [], []);
    TextFieldRuns(t, [], [next] + rest);
    assert [] + t == t && t + [] == t && ([next] + rest)[1..] == rest;
  }

  // ---- The lines that are records ----

  /** The five fields of a line, as texts. */
  datatype Fields = Fields(name: Text, size: Text, owner: Text, host: Text, port: Text)

  predicate WellFormed(x: Fields) {
    && SLASH !in x.name && NEWLINE !in x.name && |x.name| < BUF_LEN
    && NumberChars(x.size) && COLON !in x.size
    && COLON !in x.owner && |x.owner| < BUF_LEN && COLON !in x.host && |x.host| < BUF_LEN
    && NumberChars(x.port)
  }

  function Joined(x: Fields, rest: Text): Text {
    var afterOwner := x.host + ([COLON] + (x.port + ([NEWLINE] + rest)));
    x.name + ([SLASH] + (x.size + ([COLON] + (x.owner + ([COLON] + afterOwner)))))
  }

  /** The record that a line stands for: texts end at a null character, the size is taken modulo 2^64 and
      the port modulo 2^16. */
  function RecordOf(x: Fields): FileStat {
    FileStat(CString(x.name), U64(NumberOf(x.size)), CString(x.owner), CString(x.host), U16(NumberOf(x.port)))
  }

  lemma ShortAfterLong(n: int)
    ensures U16(U64(n)) == U16(n)
  {
    var m := 0x1_0000_0000_0000_0000;
    assert n == U64(n) + 0x1_0000 * (0x1_0000_0000_0000 * (n / m));
  }

  lemma WellFormedParses(x: Fields, rest: Text)
    requires WellFormed(x)
    ensures Parse(Joined(x, rest)) == Record(RecordOf(x), rest)
  {
    hide NameField, TextField, NumberField, CString, NumberOf;
    var afterHost := x.port + ([NEWLINE] + rest);
    var afterOwner := x.host + ([COLON] + afterHost);
    var afterSize := x.owner + ([COLON] + afterOwner);
    var afterName := x.size + ([COLON] + afterSize);
    NameFieldFinds(x.name, afterName);
    NumberFieldExact(x.size, COLON, 0, afterSize);
    TextFieldFinds(x.owner, afterOwner);
    TextFieldFinds(x.host, afterHost);
    NumberFieldExact(x.port, NEWLINE, 0, rest);
    ShortAfterLong(NumberOf(x.port));
  }

  lemma {:induction false} NameFieldShape(s: Text, buf: Text)
    requires NameField(s, buf).Found? && SLASH !in buf && NEWLINE !in buf && |buf| < BUF_LEN
    ensures var r := NameField(s, buf);
      && SLASH !in r.value && NEWLINE !in r.value && |r.value| < BUF_LEN
      && buf + s == r.value + ([SLASH] + r.rest)
    decreases |s|
  {
    if s[0] == SLASH {
      assert s == [SLASH] + s[1..];
    } else {
      NameFieldShape(s[1..], buf + [s[0]]);
      assert buf + s == buf + [s[0]] + s[1..];
    }
  }

  lemma {:induction false} TextFieldShape(s: Text, buf: Text)
    requires TextField(s, buf).Found? && COLON !in buf && |buf| < BUF_LEN
    ensures var r := TextField(s, buf);
      COLON !in r.value && |r.value| < BUF_LEN && buf + s == r.value + ([COLON] + r.rest)
    decreases |s|
  {
    if s[0] == COLON {
      assert s == [COLON] + s[1..];
    } else {
      TextFieldShape(s[1..], buf + [s[0]]);
      assert buf + s == buf + [s[0]] + s[1..];
    }
  }

  lemma {:induction false} NumberFieldShape(s: Text, stop: Char, n: nat) returns (t: Text)
    requires NumberField(s, stop, n).Found?
    ensures NumberChars(t) && stop !in t && s == t + ([stop] + NumberField(s, stop, n).rest)
    decreases |s|
  {
    if s[0] == stop {
      t := [];
      assert s == [stop] + s[1..];
    } else {
      t := NumberFieldShape(s[1..], stop, U64(n * 10 + (s[0] - ZERO)));
      t := [s[0]] + t;
      assert s == [s[0]] + s[1..];
    }
  }

  lemma ParsedShape(s: Text) returns (x: Fields)
    requires Parse(s).Record?
    ensures WellFormed(x) && s == Joined(x, Parse(s).rest)
  {
    hide NameField, TextField, NumberField, CString;
    var name := NameField(s, []);
    NameFieldShape(s, []);
    var size := NumberField(name.rest, COLON, 0);
    var sizeText := NumberFieldShape(name.rest, COLON, 0);
    var owner := TextField(size.rest, []);
    TextFieldShape(size.rest, []);
    var host := TextField(owner.rest, []);
    TextFieldShape(owner.rest, []);
    var portText := NumberFieldShape(host.rest, NEWLINE, 0);
    x := Fields(name.value, sizeText, owner.value, host.value, portText);
    assert [] + s == s && [] + size.rest == size.rest && [] + owner.rest == owner.rest;
  }

  /** What the parser accepts, exactly: five fields with their delimiters, and what it then returns. */
  lemma ParseExact(s: Text, f: FileStat, rest: Text)
    ensures Parse(s) == Record(f, rest)
       <==> exists x: Fields :: WellFormed(x) && s == Joined(x, rest) && f == RecordOf(x)
  {
    hide Parse, WellFormed, Joined, RecordOf;
    if Parse(s).Record? && Parse(s).rest == rest {
      var x := ParsedShape(s);
      WellFormedParses(x, rest);
    }
    forall x: Fields | WellFormed(x) && s == Joined(x, rest) ensures Parse(s) == Record(RecordOf(x), rest) {
      WellFormedParses(x, rest);
    }
  }

  lemma NameFieldFinds(t: Text, rest: Text)
    requires SLASH !in t && NEWLINE !in t && |t| < BUF_LEN
    ensures NameField(t + ([SLASH] + rest), []) == Found(t, rest)
  {
    NameFieldRuns(t, [], [SLASH] + rest);
    assert ([SLASH] + rest)[1..] == rest && [] + t == t;
  }

  lemma TextFieldFinds(t: Text, rest: Text)
    requires COLON !in t && |t| < BUF_LEN
    ensures TextField(t + ([COLON] + rest), []) == Found(t, rest)
  {
    TextFieldRuns(t, [], [COLON] + rest);
    assert ([COLON] + rest)[1..] == rest && [] + t == t;
  }

  lemma DecimalFinds(n: nat, stop: Char, rest: Text)
    requires n < 0x1_0000_0000_0000_0000 && (stop < ZERO || stop >= ZERO + 10)
    ensures NumberField(Decimal(n) + ([stop] + rest), stop, 0) == Found(n, rest)
  {
    DecimalReads(n, stop, [stop] + rest);
    assert ([stop] + rest)[1..] == rest;
  }

  /** Print then Parse is the identity, whatever follows on the stream. */
  lemma RoundTrip(f: FileStat, rest: Text)
    requires Clean(f) && Fits(f)
    ensures Parse(Print(f) + rest) == Record(f, rest)
  {
    LineReads(f, rest);
  }

  lemma LineReads(f: FileStat, rest: Text)
    requires Clean(f)
    ensures Parse(Line(f) + rest) == Record(f, rest)
  {
    LineContinues(f, rest);
    NameFieldFinds(f.name, AfterName(f, rest));
    DecimalFinds(f.size, COLON, AfterSize(f, rest));
    TextFieldFinds(f.owner, AfterOwner(f, rest));
    TextFieldFinds(f.host, AfterHost(f, rest));
    DecimalFinds(f.port, NEWLINE, rest);
  }

  lemma LineContinues(f: FileStat, rest: Text)
    ensures Line(f) + rest == f.name + ([SLASH] + AfterName(f, rest))
  {
    assert [NEWLINE] + [] + rest == [NEWLINE] + rest;
    assert AfterHost(f, []) + rest == AfterHost(f, rest);
    assert AfterOwner(f, []) + rest == AfterOwner(f, rest);
    assert AfterSize(f, []) + rest == AfterSize(f, rest);
    assert [COLON] + AfterSize(f, []) + rest == [COLON] + AfterSize(f, rest);
    assert AfterName(f, []) + rest == AfterName(f, rest);
  }

  /** The end marker is recognised, and it is not a record. */
  lemma EndReads(rest: Text)
    ensures Parse(END + [NEWLINE] + rest) == NoRecord(true, rest)
  {
    NameFieldRuns(END, [], [NEWLINE] + rest);
    assert END + [NEWLINE] + rest == END + ([NEWLINE] + rest) && [] + END == END;
    assert ([NEWLINE] + rest)[1..] == rest;
  }

  // ---- Exactly the fields that survive ----

  lemma {:induction false} NameFieldClean(s: Text, buf: Text)
    requires |buf| < BUF_LEN && SLASH !in buf && NEWLINE !in buf
    ensures var r := NameField(s, buf); r.Found? ==>
      |r.value| < BUF_LEN && SLASH !in r.value && NEWLINE !in r.value && |r.rest| < |s|
    decreases |s|
  {
    if s != [] && s[0] != SLASH && s[0] != NEWLINE && |buf| < BUF_LEN - 1 {
      NameFieldClean(s[1..], buf + [s[0]]);
    }
  }

  lemma {:induction false} TextFieldClean(s: Text, buf: Text)
    requires |buf| < BUF_LEN && COLON !in buf
    ensures var r := TextField(s, buf); r.Found? ==> |r.value| < BUF_LEN && COLON !in r.value && |r.rest| < |s|
    decreases |s|
  {
    if s != [] && s[0] != COLON && |buf| < BUF_LEN - 1 {
      TextFieldClean(s[1..], buf + [s[0]]);
    }
  }

  lemma {:induction false} NumberFieldClean(s: Text, stop: Char, n: nat)
    requires n < 0x1_0000_0000_0000_0000
    ensures var r := NumberField(s, stop, n); r.Found? ==> r.value < 0x1_0000_0000_0000_0000 && |r.rest| < |s|
    decreases |s|
  {
    if s != [] && s[0] != stop && ZERO <= s[0] < 0x40 {
      NumberFieldClean(s[1..], stop, U64(n * 10 + (s[0] - ZERO)));
    }
  }

  /** Whatever the parser accepts, it returns a clean record. */
  lemma ParsedClean(s: Text)
    ensures Parse(s).Record? ==> Clean(Parse(s).stat) && |Parse(s).rest| < |s|
  {
    var name := NameField(s, []);
    NameFieldClean(s, []);
    if name.Found? {
      var size := NumberField(name.rest, COLON, 0);
      NumberFieldClean(name.rest, COLON, 0);
      if size.Found? {
        var owner := TextField(size.rest, []);
        TextFieldClean(size.rest, []);
        if owner.Found? {
          var host := TextField(owner.rest, []);
          TextFieldClean(owner.rest, []);
          if host.Found? {
            NumberFieldClean(host.rest, NEWLINE, 0);
          }
        }
      }
    }
  }

  lemma {:induction false} NameFieldExtends(s: Text, buf: Text, more: Text)
    requires NameField(s, buf).Found?
    ensures var r := NameField(s, buf); NameField(s + more, buf) == Found(r.value, r.rest + more)
    decreases |s|
  {
    assert (s + more)[1..] == s[1..] + more;
    if s[0] != SLASH { NameFieldExtends(s[1..], buf + [s[0]], more); }
  }

  lemma {:induction false} TextFieldExtends(s: Text, buf: Text, more: Text)
    requires TextField(s, buf).Found?
    ensures var r := TextField(s, buf); TextField(s + more, buf) == Found(r.value, r.rest + more)
    decreases |s|
  {
    assert (s + more)[1..] == s[1..] + more;
    if s[0] != COLON { TextFieldExtends(s[1..], buf + [s[0]], more); }
  }

  lemma {:induction false} NumberFieldExtends(s: Text, stop: Char, n: nat, more: Text)
    requires NumberField(s, stop, n).Found?
    ensures var r := NumberField(s, stop, n); NumberField(s + more, stop, n) == Found(r.value, r.rest + more)
    decreases |s|
  {
    assert (s + more)[1..] == s[1..] + more;
    if s[0] != stop { NumberFieldExtends(s[1..], stop, U64(n * 10 + (s[0] - ZERO)), more); }
  }

  /** A complete record reads the same whatever comes after it. */
  lemma ParseExtends(s: Text, more: Text)
    requires Parse(s).Record?
    ensures Parse(s + more) == Record(Parse(s).stat, Parse(s).rest + more)
  {
    var name := NameField(s, []);
    NameFieldExtends(s, [], more);
    var size := NumberField(name.rest, COLON, 0);
    NumberFieldExtends(name.rest, COLON, 0, more);
    var owner := TextField(size.rest, []);
    TextFieldExtends(size.rest, [], more);
    var host := TextField(owner.rest, []);
    TextFieldExtends(owner.rest, [], more);
    NumberFieldExtends(host.rest, NEWLINE, 0, more);
  }

  /** A printed record comes back, alone on its stream, exactly if it is clean and its line fits the
      printer's buffer. */
  lemma RecordSurvivesExactly(f: FileStat)
    ensures Parse(Print(f)) == Record(f, []) <==> Clean(f) && Fits(f)
  {
    if Clean(f) && Fits(f) {
      RoundTrip(f, []);
      assert Print(f) + [] == Print(f);
    } else if Parse(Print(f)) == Record(f, []) {
      ParsedClean(Print(f));
      var cut := Line(f)[LINE_LEN - 1..];
      ParseExtends(Print(f), cut);
      assert Print(f) + cut == Line(f) == Line(f) + [];
      LineReads(f, []);
    }
  }

  /** The parser's own limits admit records that the printer cuts short. */
  lemma CleanRecordCut()
    ensures exists f: FileStat :: Clean(f) && !Fits(f) && Parse(Print(f)) != Record(f, [])
  {
    var long := seq(BUF_LEN - 1, i => ZERO);
    var f := FileStat(long, 0, long, [], 0);
    assert Clean(f);
    assert |Line(f)| == 2 * |long| + 7;
    RecordSurvivesExactly(f);
  }

  // ---- The parser over a stream ----

  class Stream {
    const data: Text
    var pos: nat

    constructor (text: Text)
      ensures data == text && pos == 0
    {
      data, pos := text, 0;
    }

    ghost function Rest(): Text
      requires pos <= |data|
      reads this
    {
      data[pos..]
    }

    /** fgetc, which returns -1 at the end of the input. */
    method Getc() returns (ch: int)
      requires pos <= |data|
      modifies this
      ensures pos <= |data|
      ensures old(Rest()) == [] ==> ch == -1 && pos == old(pos)
      ensures old(Rest()) != [] ==> ch == old(Rest())[0] && pos == old(pos) + 1 && Rest() == old(Rest())[1..]
    {
      if pos == |data| {
        return -1;
      }
      ch := data[pos];
      pos := pos + 1;
    }

    /** The loop of each field reads one character ahead of its test. */
    method ReadName() returns (field: Field<Text>)
      requires pos <= |data|
      modifies this
      ensures pos <= |data| && field == NameField(old(Rest()), [])
      ensures Rest() == if field.AtEnd? then [] else field.rest
    {
      var buf: Text := [];
      var ch := Getc();
      while ch != SLASH && ch != -1
        invariant pos <= |data| && -1 <= ch < 256
        invariant ch == -1 ==> Rest() == [] && NameField(old(Rest()), []) == AtEnd(buf)
        invariant ch != -1 ==> NameField(old(Rest()), []) == NameField([ch as Char] + Rest(), buf)
        decreases |data| - pos, ch
      {
        assert ([ch as Char] + Rest())[1..] == Rest();
        if ch == NEWLINE {
          return Refused(CString(buf) == END, data[pos..]);
        }
        if |buf| >= BUF_LEN - 1 {
          return Refused(false, data[pos..]);
        }
        buf := buf + [ch as Char];
        ghost var rest := Rest();
        ch := Getc();
        if ch != -1 { assert rest == [ch as Char] + Rest(); }
      }
      if ch == -1 {
        return AtEnd(buf);
      }
      assert ([ch as Char] + Rest())[1..] == Rest();
      return Found(buf, data[pos..]);
    }

    method ReadText() returns (field: Field<Text>)
      requires pos <= |data|
      modifies this
      ensures pos <= |data| && field == TextField(old(Rest()), [])
      ensures Rest() == if field.AtEnd? then [] else field.rest
    {
      var buf: Text := [];
      var ch := Getc();
      while ch != COLON && ch != -1
        invariant pos <= |data| && -1 <= ch < 256
        invariant ch == -1 ==> Rest() == [] && TextField(old(Rest()), []) == AtEnd(buf)
        invariant ch != -1 ==> TextField(old(Rest()), []) == TextField([ch as Char] + Rest(), buf)
        decreases |data| - pos, ch
      {
        assert ([ch as Char] + Rest())[1..] == Rest();
        if |buf| >= BUF_LEN - 1 {
          return Refused(false, data[pos..]);
        }
        buf := buf + [ch as Char];
        ghost var rest := Rest();
        ch := Getc();
        if ch != -1 { assert rest == [ch as Char] + Rest(); }
      }
      if ch == -1 {
        return AtEnd(buf);
      }
      assert ([ch as Char] + Rest())[1..] == Rest();
      return Found(buf, data[pos..]);
    }

    method ReadNumber(stop: Char) returns (field: Field<nat>)
      requires pos <= |data|
      modifies this
      ensures pos <= |data| && field == NumberField(old(Rest()), stop, 0)
      ensures Rest() == if field.AtEnd? then [] else field.rest
    {
      var n: nat := 0;
      var ch := Getc();
      while ch != stop && ch != -1
        invariant pos <= |data| && -1 <= ch < 256
        invariant ch == -1 ==> Rest() == [] && NumberField(old(Rest()), stop, 0) == AtEnd(n)
        invariant ch != -1 ==> NumberField(old(Rest()), stop, 0) == NumberField([ch as Char] + Rest(), stop, n)
        decreases |data| - pos, ch
      {
        assert ([ch as Char] + Rest())[1..] == Rest();
        if ch < ZERO || ch >= 0x40 {
          return Refused(false, data[pos..]);
        }
        n := U64(n * 10 + (ch - ZERO));
        ghost var rest := Rest();
        ch := Getc();
        if ch != -1 { assert rest == [ch as Char] + Rest(); }
      }
      if ch == -1 {
        return AtEnd(n);
      }
      assert ([ch as Char] + Rest())[1..] == Rest();
      return Found(n, data[pos..]);
    }

    /** read_file_stat_end. The end of the input is noticed only after the last field. */
    method ReadFileStatEnd() returns (stat: Option<FileStat>, end: bool)
      requires pos <= |data|
      modifies this
      ensures pos <= |data|
      ensures (match stat case Some(f) => Record(f, Rest()) case None => NoRecord(end, Rest())) == Parse(old(Rest()))
      ensures stat.Some? ==> !end
    {
      var name := ReadName();
      if name.Refused? {
        return None, name.end;
      }
      var size := ReadNumber(COLON);
      if size.Refused? {
        return None, false;
      }
      var owner := ReadText();
      if owner.Refused? {
        return None, false;
      }
      var host := ReadText();
      if host.Refused? {
        return None, false;
      }
      var port := ReadNumber(NEWLINE);
      if port.Refused? || port.AtEnd? {
        return None, false;
      }
      var owned, at := CString(owner.value), CString(host.value);
      return Some(FileStat(CString(name.value), size.value, owned, at, U16(port.value))), false;
    }
  }
}
