/**
 * A request as a client writes it, and what the reader makes of it: the second meaning of a
 * header block beside the parser of crates/nas-gateway/src/http1.rs.
 */
module HttpText {
  import opened Wrappers
  import opened Bytes
  import opened Http
  import Q = CanonicalQuery
  import Utf8

  /** A word of the request line, or a header name. */
  predicate Word(w: Bytes) {
    w != [] && forall i | 0 <= i < |w| :: Graphic(w[i])
  }

  /** Printable ASCII without blanks at either end; it may be empty. */
  predicate Value(v: Bytes) {
    && (forall i | 0 <= i < |v| :: SPACE <= v[i] <= 0x7E)
    && (v != [] ==> Graphic(v[0]) && Graphic(v[|v| - 1]))
  }

  datatype Field = Field(name: Bytes, value: Bytes) {
    predicate Legal() {
      Word(name) && COLON !in name && Value(value)
    }

    function Line(): Bytes {
      name + [COLON] + ([SPACE] + value)
    }
  }

  datatype Message = Message(method_: Bytes, path: Bytes, query: Option<Bytes>, version: Bytes, fields: seq<Field>, body: Bytes) {
    predicate Legal() {
      && Word(method_) && Word(path) && QUERY !in path && Word(version)
      && (query.Some? ==> query.value == [] || Word(query.value))
      && (forall i | 0 <= i < |fields| :: fields[i].Legal())
      && |body| <= MAX_BODY
    }

    function Target(): Bytes {
      if query.Some? then path + [QUERY] + query.value else path
    }

    function Line(): Bytes {
      method_ + [SPACE] + (Target() + [SPACE] + version)
    }

    /** The header fields, the announced length of the body last. */
    function AllFields(length: nat): (all: seq<Field>)
      ensures |all| == |fields| + 1
    {
      fields + [Field(Ascii("content-length"), Digits(length))]
    }

    /** The header block announcing a body of some length. */
    function Announcing(length: nat): Bytes {
      Lines([Line()] + FieldLines(AllFields(length))) + [CR, LF]
    }

    function Head(): Bytes {
      Announcing(|body|)
    }
  }

  /** The decimal digits of a number. */
  function Digits(n: nat): (d: Bytes)
    ensures d != [] && forall i | 0 <= i < |d| :: 0x30 <= d[i] <= 0x39
  {
    if n < 10 then [0x30 + n] else Digits(n / 10) + [0x30 + n % 10]
  }

  function FieldLines(fields: seq<Field>): (lines: seq<Bytes>)
    ensures |lines| == |fields| && forall i | 0 <= i < |fields| :: lines[i] == fields[i].Line()
  {
    seq(|fields|, i requires 0 <= i < |fields| => fields[i].Line())
  }

  /** Lines, each with its end. */
  function Lines(lines: seq<Bytes>): Bytes {
    if lines == [] then [] else lines[0] + [CR] + ([LF] + Lines(lines[1..]))
  }

  /** What some fields say: a later one of the same name wins, and names know no case. */
  function HeaderMap(fields: seq<Field>): map<Bytes, Bytes> {
    if fields == [] then map[] else
      var n := |fields| - 1;
      HeaderMap(fields[..n])[Lower(fields[n].name) := fields[n].value]
  }

  /** A line that may be written: printable ASCII, and not empty. */
  predicate Printable(line: Bytes) {
    line != [] && forall i | 0 <= i < |line| :: SPACE <= line[i] <= 0x7E
  }

  // ---- Where the header ends

  lemma {:induction false} SkipLine(line: Bytes, rest: Bytes)
    requires (forall i | 0 <= i < |line| :: line[i] != CR) && |rest| >= 4
    ensures HeaderEnd(line + rest)
            == if HeaderEnd(rest).Ok? then Ok(HeaderEnd(rest).value + |line|) else HeaderEnd(rest)
  {
    if line == [] {
      assert line + rest == rest;
    } else {
      var b := line + rest;
      SkipLine(line[1..], rest);
      assert b[1..] == line[1..] + rest && b[..4][0] == line[0];
    }
  }

  lemma SkipOne(b: Bytes, x: byte, rest: Bytes)
    requires b == [x] + rest && |b| >= 4 && b[..4] != [CR, LF, CR, LF]
    ensures HeaderEnd(b) == if HeaderEnd(rest).Ok? then Ok(HeaderEnd(rest).value + 1) else HeaderEnd(rest)
  {
    assert b[1..] == rest;
  }

  lemma SkipEnd(next: byte, rest: Bytes)
    requires next != CR && |rest| >= 2
    ensures var b := [CR] + ([LF] + ([next] + rest));
            HeaderEnd(b) == if HeaderEnd([next] + rest).Ok? then Ok(HeaderEnd([next] + rest).value + 2) else HeaderEnd([next] + rest)
  {
    hide HeaderEnd;
    var tail := [next] + rest;
    var line := [LF] + tail;
    assert line[..4][0] == LF;
    SkipOne(line, LF, tail);
    assert ([CR] + line)[..4][2] == next;
    SkipOne([CR] + line, CR, line);
  }

  lemma {:induction false} EndOfLines(lines: seq<Bytes>, rest: Bytes)
    requires lines != [] && forall i | 0 <= i < |lines| :: Printable(lines[i])
    ensures HeaderEnd(Lines(lines) + ([CR, LF] + rest)) == Ok(|Lines(lines)| + 2)
  {
    hide HeaderEnd;
    var line, end := lines[0], [CR, LF] + rest;
    var more := Lines(lines[1..]) + end;
    var after := [CR] + ([LF] + more);
    assert Lines(lines) + end == line + after;
    assert Printable(line);
    SkipLine(line, after);
    if |lines| == 1 {
      assert lines[1..] == [] && more == end;
      assert after[..4] == [CR, LF, CR, LF];
      FoundAt(after);
    } else {
      EndOfLines(lines[1..], rest);
      var next := lines[1];
      assert Printable(next) && lines[1..][0] == next;
      var tail := (next + [CR] + ([LF] + Lines(lines[1..][1..])) + end)[1..];
      assert more == [next[0]] + tail;
      SkipEnd(next[0], tail);
    }
  }

  lemma FoundAt(b: Bytes)
    requires |b| >= 4 && b[..4] == [CR, LF, CR, LF]
    ensures HeaderEnd(b) == Ok(4)
  {
  }

  // ---- Cutting the header into lines

  /** What `split` on line feeds makes of written lines and the blank one. */
  function Raw(lines: seq<Bytes>): (r: seq<Bytes>)
    ensures |r| == |lines|
    ensures forall i | 0 <= i < |lines| :: r[i] == lines[i] + [CR]
  {
    seq(|lines|, i requires 0 <= i < |lines| => lines[i] + [CR])
  }

  lemma {:induction false} SplitLines(lines: seq<Bytes>)
    requires forall i | 0 <= i < |lines| :: Printable(lines[i])
    ensures Split(Lines(lines) + [CR, LF], LF) == Raw(lines) + [[CR], []]
  {
    hide Split;
    if lines == [] {
      var none: Bytes := [];
      assert Lines(lines) + [CR, LF] == [CR] + [LF] + none;
      Q.SplitAt([CR], LF, none);
      Q.SplitNone([CR], LF);
      Q.SplitNone(none, LF);
    } else {
      var first, rest := lines[0] + [CR], Lines(lines[1..]) + [CR, LF];
      assert Lines(lines) + [CR, LF] == first + [LF] + rest;
      assert Printable(lines[0]);
      Q.SplitAt(first, LF, rest);
      Q.SplitNone(first, LF);
      SplitLines(lines[1..]);
      assert Raw(lines) == [first] + Raw(lines[1..]);
    }
  }

  lemma {:induction false} AsciiIsValid(b: Bytes)
    requires forall i | 0 <= i < |b| :: b[i] <= 0x7F
    ensures Utf8.Valid(b)
  {
    if b != [] {
      AsciiIsValid(b[1..]);
    }
  }

  // ---- Reading the lines back

  lemma ReadField(t: Text, headers: map<Bytes, Bytes>, f: Field)
    requires TrimLaw(t) && f.Legal()
    ensures Printable(f.Line())
    ensures AddHeader(t, headers, f.Line() + [CR]) == Ok(headers[Lower(f.name) := f.value])
  {
    hide Utf8.Valid, SplitOnce, Lower;
    var line := f.Line();
    assert TrimCr(line + [CR]) == line;
    AsciiIsValid(line);
    Q.SplitOnceAt(f.name, COLON, [SPACE] + f.value);
  }

  lemma {:induction false} ReadFields(t: Text, fields: seq<Field>)
    requires TrimLaw(t) && forall i | 0 <= i < |fields| :: fields[i].Legal()
    ensures Headers(t, Raw(FieldLines(fields))) == Ok(HeaderMap(fields))
  {
    hide TrimLaw, AddHeader;
    if fields != [] {
      var n := |fields| - 1;
      var raw := Raw(FieldLines(fields));
      ReadFields(t, fields[..n]);
      assert raw[..n] == Raw(FieldLines(fields[..n])) && raw[n] == fields[n].Line() + [CR];
      ReadField(t, HeaderMap(fields[..n]), fields[n]);
    }
  }

  lemma BlankLines(t: Text, lines: seq<Bytes>)
    requires Headers(t, lines).Ok?
    ensures Headers(t, lines + [[CR], []]) == Headers(t, lines)
  {
    var none: Bytes := [];
    var one, two := lines + [[CR]], lines + [[CR]] + [none];
    assert lines + [[CR], []] == two && two[..|one|] == one && one[..|lines|] == lines;
    assert TrimCr([CR]) == none && TrimCr(none) == none;
  }

  lemma ReadLine(m: Message)
    requires m.Legal()
    ensures Printable(m.Line()) && RequestLine(m.Line() + [CR]) == Ok((m.method_, m.Target()))
  {
    hide Utf8.Valid, Split;
    var line := m.Line();
    assert Word(m.Target());
    assert TrimCr(line + [CR]) == line;
    AsciiIsValid(line);
    Q.SplitAt(m.method_, SPACE, m.Target() + [SPACE] + m.version);
    Q.SplitAt(m.Target(), SPACE, m.version);
    Q.SplitNone(m.method_, SPACE);
    Q.SplitNone(m.Target(), SPACE);
    Q.SplitNone(m.version, SPACE);
  }

  lemma {:induction false} ReadDigits(n: nat)
    ensures Decimal(Digits(n)) == Ok(n)
  {
    var d := Digits(n);
    if n < 10 {
      assert d[..0] == [];
    } else {
      ReadDigits(n / 10);
      assert d[..|d| - 1] == Digits(n / 10);
    }
  }

  /** A length may carry a plus sign, and nothing but digits besides. */
  lemma ReadNumber(n: u64)
    ensures ParseU64(Digits(n)) == Ok(n) && ParseU64([PLUS] + Digits(n)) == Ok(n) && ParseU64([]).Err?
  {
    hide Decimal, Digits;
    ReadDigits(n);
    assert ([PLUS] + Digits(n))[1..] == Digits(n);
  }

  /** The digit a character stands for, to base 16. */
  predicate StandsFor(x: byte, v: nat) {
    var c := x as char;
    || ('0' <= c <= '9' && v == c as int - '0' as int)
    || ('A' <= c <= 'F' && v == c as int - 'A' as int + 10)
    || ('a' <= c <= 'f' && v == c as int - 'a' as int + 10)
  }

  /** Two octets are a hexadecimal number: two digits, or a plus sign and one. */
  lemma HexByteIff(a: byte, b: byte, v: byte)
    ensures HexByte(a, b) == Ok(v) <==>
            exists low: nat :: StandsFor(b, low)
              && ((a == PLUS && v == low) || exists high: nat :: StandsFor(a, high) && v == 16 * high + low)
  {
    if HexByte(a, b) == Ok(v) {
      var low := HexVal(b).value;
      assert StandsFor(b, low);
      if a != PLUS {
        assert StandsFor(a, HexVal(a).value);
      }
    }
  }

  lemma ReadLength(m: Message, length: nat)
    ensures ContentLength(HeaderMap(m.AllFields(length))) == if length <= U64_MAX then Ok(length) else Err(BadLine)
  {
    hide Decimal, Digits;
    var all := m.AllFields(length);
    assert all[..|m.fields|] == m.fields;
    var name := Ascii("content-length");
    assert Lower(name) == name by { LowerLength(); }
    ReadDigits(length);
  }

  lemma LowerLength()
    ensures Lower(Ascii("content-length")) == Ascii("content-length")
    ensures Word(Ascii("content-length")) && COLON !in Ascii("content-length")
  {
    var s := "content-length";
    var n := Ascii(s);
    assert forall i | 0 <= i < |s| :: 'a' <= s[i] <= 'z' || s[i] == '-';
    forall i | 0 <= i < |n| ensures LowerByte(n[i]) == n[i] && Graphic(n[i]) && n[i] != COLON {
      assert n[i] == Octet(s[i]);
    }
  }

  lemma {:induction false} SplitOnceNone(a: Bytes, sep: byte)
    requires sep !in a
    ensures SplitOnce(a, sep).Err?
  {
    if a != [] {
      SplitOnceNone(a[1..], sep);
    }
  }

  lemma AllLegal(m: Message, length: nat)
    requires m.Legal()
    ensures forall i | 0 <= i < |m.AllFields(length)| :: m.AllFields(length)[i].Legal()
  {
    LowerLength();
  }

  /** The request a written message stands for. */
  function Meaning(t: Text, m: Message): Request {
    Request(m.method_, t.lossy(PercentDecoded(m.path)), if m.query.Some? then m.query.value else [],
            HeaderMap(m.AllFields(|m.body|)), m.body)
  }

  lemma LinesArePrintable(t: Text, m: Message, length: nat)
    requires TrimLaw(t) && m.Legal()
    ensures var lines := [m.Line()] + FieldLines(m.AllFields(length));
            forall i | 0 <= i < |lines| :: Printable(lines[i])
  {
    hide TrimLaw, Printable, AddHeader, RequestLine;
    var all := m.AllFields(length);
    var lines := [m.Line()] + FieldLines(all);
    AllLegal(m, length);
    ReadLine(m);
    forall i | 0 <= i < |lines| ensures Printable(lines[i]) {
      if i > 0 { ReadField(t, map[], all[i - 1]); }
    }
  }

  /** The lines of a written head, read back one by one. */
  lemma HeadPieces(t: Text, m: Message, length: nat)
    requires TrimLaw(t) && m.Legal()
    ensures var lines := Split(m.Announcing(length), LF);
            && RequestLine(lines[0]) == Ok((m.method_, m.Target()))
            && Headers(t, lines[1..]) == Ok(HeaderMap(m.AllFields(length)))
  {
    hide TrimLaw, Split, RequestLine, Headers, HeaderMap, FieldLines, Lines, Raw, Printable;
    var all := m.AllFields(length);
    var lines := [m.Line()] + FieldLines(all);
    AllLegal(m, length);
    LinesArePrintable(t, m, length);
    ReadLine(m);
    SplitLines(lines);
    var raw := Raw(lines) + [[CR], []];
    assert raw[0] == m.Line() + [CR];
    assert raw[1..] == Raw(FieldLines(all)) + [[CR], []];
    ReadFields(t, all);
    BlankLines(t, Raw(FieldLines(all)));
  }

  /**
   * A written head is read as what it says, and refused exactly for the length it announces:
   * beyond the cap on bodies as too large, beyond a u64 as no length at all.
   */
  lemma ReadsHead(t: Text, m: Message, length: nat)
    requires TrimLaw(t) && m.Legal()
    ensures ParseHead(t, m.Announcing(length)) ==
            if length > U64_MAX then Err(BadLine)
            else if length > MAX_BODY then Err(TooLarge("body", length))
            else Ok((Meaning(t, m).(headers := HeaderMap(m.AllFields(length)), body := []), length))
  {
    hide TrimLaw, Split, SplitOnce, RequestLine, Headers, HeaderMap, ContentLength, PercentDecoded, Message.Announcing;
    HeadPieces(t, m, length);
    ReadLength(m, length);
    if m.query.Some? {
      Q.SplitOnceAt(m.path, QUERY, m.query.value);
    } else {
      SplitOnceNone(m.path, QUERY);
    }
  }

  lemma WrittenEnds(t: Text, m: Message, length: nat, rest: Bytes)
    requires TrimLaw(t) && m.Legal()
    ensures HeaderEnd(m.Announcing(length) + rest) == Ok(|m.Announcing(length)|)
  {
    hide TrimLaw, HeaderEnd, FieldLines, Lines, Printable, Message.Line, Field.Line;
    var lines := [m.Line()] + FieldLines(m.AllFields(length));
    LinesArePrintable(t, m, length);
    EndOfLines(lines, rest);
    assert m.Announcing(length) + rest == Lines(lines) + ([CR, LF] + rest);
  }

  /**
   * What is written is read: the parser finds the end of the written header, takes exactly
   * the body that its length announces, and leaves whatever follows.
   */
  lemma WrittenIsParsed(t: Text, m: Message, rest: Bytes, e: Ending)
    requires TrimLaw(t) && m.Legal()
    ensures HeaderEnd(m.Head() + m.body + rest) == Ok(|m.Head()|)
    ensures Parse(t, m.Head() + m.body + rest, e) == Ok(Meaning(t, m))
  {
    hide TrimLaw, HeaderEnd, ParseHead, HeaderMap, Message.Announcing;
    var head, stream := m.Head(), m.Head() + m.body + rest;
    assert stream == head + (m.body + rest);
    WrittenEnds(t, m, |m.body|, m.body + rest);
    assert stream[..|head|] == head && stream[|head|..|head| + |m.body|] == m.body;
    ReadsHead(t, m, |m.body|);
  }

  /** A request cut short anywhere is refused for how the stream ended, however much of it arrived. */
  lemma CutShortIsRefused(t: Text, m: Message, n: nat)
    requires TrimLaw(t) && m.Legal() && |m.Head()| <= MAX_HEADER && n < |m.Head()| + |m.body|
    ensures Parse(t, (m.Head() + m.body)[..n], Closed) == Err(HttpError.Truncated)
    ensures Parse(t, (m.Head() + m.body)[..n], Broken) == Err(Io)
  {
    hide TrimLaw, HeaderEnd, ParseHead, HeaderMap, Message.Announcing;
    var head, whole := m.Head(), m.Head() + m.body;
    WrittenEnds(t, m, |m.body|, m.body);
    HeaderEndPrefix(whole, n);
    ReadsHead(t, m, |m.body|);
    if n >= |head| {
      assert whole[..n][..|head|] == head;
    }
  }

  // ---- What a header block may be

  /** A request line: two words apart by one blank, and perhaps more after another. */
  lemma RequestLineIff(line: Bytes, first: Bytes, second: Bytes)
    ensures var s := TrimCr(line);
            RequestLine(line) == Ok((first, second)) <==>
            && Utf8.Valid(s) && first != [] && second != [] && SPACE !in first && SPACE !in second
            && (s == first + [SPACE] + second || exists rest :: s == first + [SPACE] + second + [SPACE] + rest)
  {
    hide Utf8.Valid, Split;
    var s := TrimCr(line);
    if SPACE !in first && SPACE !in second {
      Q.SplitNone(first, SPACE);
      Q.SplitNone(second, SPACE);
      Q.SplitAt(first, SPACE, second);
      forall rest | s == first + [SPACE] + second + [SPACE] + rest ensures Split(s, SPACE) == [first, second] + Split(rest, SPACE) {
        assert s == first + [SPACE] + (second + [SPACE] + rest);
        Q.SplitAt(first, SPACE, second + [SPACE] + rest);
        Q.SplitAt(second, SPACE, rest);
      }
    }
    if RequestLine(line) == Ok((first, second)) {
      SplitShape(s, SPACE);
      PiecesAvoid(s, SPACE);
    }
  }

  lemma {:induction false} PiecesAvoid(b: Bytes, sep: byte)
    ensures forall piece | piece in Split(b, sep) :: sep !in piece
  {
    if b != [] {
      PiecesAvoid(b[1..], sep);
      assert Split(b[1..], sep)[0] in Split(b[1..], sep);
    }
  }

  /** The first piece, and what is left when there is more. */
  lemma {:induction false} FirstPieceOf(b: Bytes, sep: byte)
    ensures |Split(b, sep)| == 1 ==> b == Split(b, sep)[0]
    ensures |Split(b, sep)| > 1 ==>
            var k := |Split(b, sep)[0]|;
            k < |b| && b == Split(b, sep)[0] + [sep] + b[k + 1..] && Split(b[k + 1..], sep) == Split(b, sep)[1..]
  {
    if b != [] {
      var tail, pieces := b[1..], Split(b[1..], sep);
      FirstPieceOf(tail, sep);
      assert b == [b[0]] + tail;
      if b[0] != sep && |pieces| > 1 {
        var k := |pieces[0]|;
        assert b[k + 2..] == tail[k + 1..];
      }
    }
  }

  /** With separators between them the pieces give back the text. */
  lemma SplitShape(b: Bytes, sep: byte)
    ensures |Split(b, sep)| == 2 ==> b == Split(b, sep)[0] + [sep] + Split(b, sep)[1]
    ensures |Split(b, sep)| > 2 ==> exists rest :: b == Split(b, sep)[0] + [sep] + Split(b, sep)[1] + [sep] + rest
  {
    hide Split;
    FirstPieceOf(b, sep);
    var pieces := Split(b, sep);
    if |pieces| > 1 {
      var first, second, tail := pieces[0], pieces[1], b[|pieces[0]| + 1..];
      assert b == first + [sep] + tail;
      FirstPieceOf(tail, sep);
      if |pieces| > 2 {
        var rest := tail[|second| + 1..];
        assert tail == second + [sep] + rest;
        Regroup(first + [sep], second + [sep], rest);
        assert first + [sep] + (second + [sep]) == first + [sep] + second + [sep];
      }
    }
  }

  lemma Regroup(a: Bytes, b: Bytes, c: Bytes)
    ensures a + (b + c) == a + b + c
  {
  }

  /** A header line the reader takes: blank, or valid text with a colon. */
  predicate Acceptable(raw: Bytes) {
    var line := TrimCr(raw);
    line == [] || (Utf8.Valid(line) && COLON in line)
  }

  lemma {:induction false} ColonIff(line: Bytes)
    ensures SplitOnce(line, COLON).Ok? <==> COLON in line
    ensures SplitOnce(line, COLON).Ok? ==>
            var kv := SplitOnce(line, COLON).value;
            line == kv.0 + [COLON] + kv.1 && COLON !in kv.0
  {
    if line != [] {
      ColonIff(line[1..]);
      assert line == [line[0]] + line[1..];
    }
  }

  lemma AddHeaderIff(t: Text, headers: map<Bytes, Bytes>, raw: Bytes)
    ensures AddHeader(t, headers, raw).Ok? <==> Acceptable(raw)
    ensures AddHeader(t, headers, raw).Err? ==> AddHeader(t, headers, raw).error == BadLine
  {
    hide Utf8.Valid, SplitOnce, Lower;
    ColonIff(TrimCr(raw));
  }

  /** The header lines are taken exactly when each of them is. */
  lemma {:induction false} HeadersIff(t: Text, lines: seq<Bytes>)
    ensures Headers(t, lines).Ok? <==> forall i | 0 <= i < |lines| :: Acceptable(lines[i])
    ensures Headers(t, lines).Err? ==> Headers(t, lines).error == BadLine
  {
    hide Acceptable, AddHeader;
    if lines != [] {
      var n := |lines| - 1;
      HeadersIff(t, lines[..n]);
      assert forall i | 0 <= i < n :: lines[..n][i] == lines[i];
      if Headers(t, lines[..n]).Ok? {
        AddHeaderIff(t, Headers(t, lines[..n]).value, lines[n]);
      }
    }
  }

  /** What they say: each header has the value its last line gives it, names knowing no case. */
  lemma {:induction false} HeadersMeaning(t: Text, lines: seq<Bytes>)
    requires Headers(t, lines).Ok?
    ensures forall name | name in Headers(t, lines).value :: Says(t, lines, name, Headers(t, lines).value[name])
  {
    hide Says, AddHeader;
    if lines != [] {
      HeadersMeaning(t, lines[..|lines| - 1]);
      forall name | name in Headers(t, lines).value ensures Says(t, lines, name, Headers(t, lines).value[name]) {
        SaysStep(t, lines, name);
      }
    }
  }

  /** Line `i` gives the header `name` this value, and no later line gives it another. */
  ghost predicate SaysAt(t: Text, lines: seq<Bytes>, i: nat, name: Bytes, value: Bytes) {
    && i < |lines| && Gives(t, lines[i], name, value)
    && forall j, v | i < j < |lines| :: !Gives(t, lines[j], name, v)
  }

  ghost predicate Says(t: Text, lines: seq<Bytes>, name: Bytes, value: Bytes) {
    exists i :: SaysAt(t, lines, i, name, value)
  }

  /** The text before the first colon is the name, and what follows the value, both trimmed. */
  ghost predicate Gives(t: Text, raw: Bytes, name: Bytes, value: Bytes) {
    exists k, v :: COLON !in k && TrimCr(raw) == k + [COLON] + v && name == Lower(t.trim(k)) && value == t.trim(v)
  }

  lemma GivesIff(t: Text, raw: Bytes, name: Bytes, value: Bytes)
    ensures Gives(t, raw, name, value) <==>
            && SplitOnce(TrimCr(raw), COLON).Ok?
            && name == Lower(t.trim(SplitOnce(TrimCr(raw), COLON).value.0)) && value == t.trim(SplitOnce(TrimCr(raw), COLON).value.1)
  {
    hide Lower, SplitOnce;
    ColonIff(TrimCr(raw));
    if k, v :| COLON !in k && TrimCr(raw) == k + [COLON] + v && name == Lower(t.trim(k)) && value == t.trim(v) {
      Q.SplitOnceAt(k, COLON, v);
    }
  }

  lemma SaysStep(t: Text, lines: seq<Bytes>, name: Bytes)
    requires lines != [] && Headers(t, lines).Ok? && name in Headers(t, lines).value
    requires var before := Headers(t, lines[..|lines| - 1]);
             before.Ok? && forall x | x in before.value :: Says(t, lines[..|lines| - 1], x, before.value[x])
    ensures Says(t, lines, name, Headers(t, lines).value[name])
  {
    hide Utf8.Valid, Lower, SplitOnce, Gives;
    var n := |lines| - 1;
    var value := Headers(t, lines).value[name];
    forall v ensures Gives(t, lines[n], name, v) <==>
            && SplitOnce(TrimCr(lines[n]), COLON).Ok?
            && name == Lower(t.trim(SplitOnce(TrimCr(lines[n]), COLON).value.0)) && v == t.trim(SplitOnce(TrimCr(lines[n]), COLON).value.1)
    {
      GivesIff(t, lines[n], name, v);
    }
    if Gives(t, lines[n], name, value) {
      assert SaysAt(t, lines, n, name, value);
    } else {
      var before := Headers(t, lines[..n]).value;
      NothingSaid(t, before, lines[n], name);
      assert before[name] == value;
      var i :| SaysAt(t, lines[..n], i, name, value);
      assert forall j | 0 <= j < n :: lines[..n][j] == lines[j];
      assert SaysAt(t, lines, i, name, value);
    }
  }

  lemma NothingSaid(t: Text, headers: map<Bytes, Bytes>, raw: Bytes, name: Bytes)
    requires AddHeader(t, headers, raw).Ok? && name in AddHeader(t, headers, raw).value
    requires !Gives(t, raw, name, AddHeader(t, headers, raw).value[name])
    ensures name in headers && AddHeader(t, headers, raw).value[name] == headers[name]
    ensures forall v :: !Gives(t, raw, name, v)
  {
    hide Utf8.Valid, Lower, SplitOnce, Gives;
    forall v ensures Gives(t, raw, name, v) <==>
            && SplitOnce(TrimCr(raw), COLON).Ok?
            && name == Lower(t.trim(SplitOnce(TrimCr(raw), COLON).value.0)) && v == t.trim(SplitOnce(TrimCr(raw), COLON).value.1)
    {
      GivesIff(t, raw, name, v);
    }
    EmptyHasNoColon(raw);
  }

  lemma EmptyHasNoColon(raw: Bytes)
    ensures TrimCr(raw) == [] ==> SplitOnce(TrimCr(raw), COLON).Err?
  {
  }

  // ---- Reading what was written

  /** And so it is read however the stream is split, if its header is within the cap. */
  lemma WrittenIsRead(t: Text, m: Message, rest: Bytes, chunks: seq<Bytes>, e: Ending)
    requires TrimLaw(t) && m.Legal() && |m.Head()| <= MAX_HEADER + 1
    requires Joined(chunks) == m.Head() + m.body + rest
    ensures ReadSpec(t, chunks, e) == Ok(Meaning(t, m))
  {
    hide TrimLaw, HeaderEnd, ReadSpec, Parse, Meaning;
    WrittenIsParsed(t, m, rest, e);
    ReaderRefinesParser(t, chunks, e);
  }
}
