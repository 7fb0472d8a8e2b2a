/** Reading an HTTP/1.1 request (crates/nas-gateway/src/http1.rs). */
module Http {
  import opened Wrappers
  import opened Bytes
  import opened Encoding
  import Utf8

  const MAX_BODY: u64 := 64 * 1024 * 1024
  const MAX_HEADER: nat := 64 * 1024
  const READ_SIZE: nat := 1024

  const CR: byte := 0x0D
  const LF: byte := 0x0A
  const SPACE: byte := 0x20
  const COLON: byte := 0x3A
  const QUERY: byte := 0x3F
  const PERCENT: byte := 0x25
  const PLUS: byte := 0x2B

  /** Library text operations: `str::trim` and `String::from_utf8_lossy`. */
  datatype Text = Text(trim: Bytes -> Bytes, lossy: Bytes -> Bytes)

  predicate Graphic(b: byte) {
    0x21 <= b <= 0x7E
  }

  /** What `str::trim` promises of nothing, and of text framed by printable octets. */
  ghost predicate TrimLaw(t: Text) {
    && t.trim([]) == []
    && (forall x :: t.trim([SPACE] + x) == t.trim(x))
    && (forall x | x != [] && Graphic(x[0]) && Graphic(x[|x| - 1]) :: t.trim(x) == x)
  }

  /** `str::trim` only cuts: it puts nothing in. */
  ghost predicate CutLaw(t: Text) {
    forall s, b | b in t.trim(s) :: b in s
  }

  datatype Request = Request(method_: Bytes, path: Bytes, query: Bytes, headers: map<Bytes, Bytes>, body: Bytes)

  datatype HttpError = Io | Truncated | TooLarge(which: string, got: nat) | BadLine

  type Answer<T> = Result<T, HttpError>

  // ---- The header block

  /** `find_double_crlf`: just past the first blank line. */
  function HeaderEnd(b: Bytes): (r: Result<nat, ()>)
    ensures r.Ok? ==> 4 <= r.value <= |b|
  {
    if |b| < 4 then Err(())
    else if b[..4] == [CR, LF, CR, LF] then Ok(4)
    else
      var r := HeaderEnd(b[1..]);
      if r.Ok? then Ok(r.value + 1) else r
  }

  /** A blank line found stays found, and is not found before it has arrived. */
  lemma {:induction false} HeaderEndPrefix(b: Bytes, k: nat)
    requires k <= |b|
    ensures HeaderEnd(b).Err? ==> HeaderEnd(b[..k]).Err?
    ensures HeaderEnd(b).Ok? ==> HeaderEnd(b[..k]) == if k >= HeaderEnd(b).value then HeaderEnd(b) else Err(())
  {
    if |b| >= 4 && k >= 4 {
      assert b[..k][..4] == b[..4];
      if b[..4] != [CR, LF, CR, LF] {
        HeaderEndPrefix(b[1..], k - 1);
        assert b[..k][1..] == b[1..][..k - 1];
      }
    }
  }

  /** Pieces between separators; there is always at least one. */
  function Split(b: Bytes, sep: byte): (r: seq<Bytes>)
    ensures r != []
  {
    if b == [] then [[]] else Prepend(b[0], sep, Split(b[1..], sep))
  }

  function Prepend(x: byte, sep: byte, pieces: seq<Bytes>): (r: seq<Bytes>)
    requires pieces != []
    ensures r != []
  {
    if x == sep then [[]] + pieces else [[x] + pieces[0]] + pieces[1..]
  }

  /** `split_once`: before and after the first separator. */
  function SplitOnce(b: Bytes, sep: byte): Result<(Bytes, Bytes), ()> {
    if b == [] then Err(())
    else if b[0] == sep then Ok(([], b[1..]))
    else
      var r := SplitOnce(b[1..], sep);
      if r.Ok? then Ok(([b[0]] + r.value.0, r.value.1)) else r
  }

  function TrimCr(line: Bytes): Bytes {
    if line != [] && line[|line| - 1] == CR then line[..|line| - 1] else line
  }

  function Lower(b: Bytes): Bytes {
    seq(|b|, i requires 0 <= i < |b| => LowerByte(b[i]))
  }

  function LowerByte(x: byte): byte {
    if 0x41 <= x <= 0x5A then x + 0x20 else x
  }

  function RequestLine(line: Bytes): Answer<(Bytes, Bytes)> {
    var s := TrimCr(line);
    var pieces := Split(s, SPACE);
    if !Utf8.Valid(s) || |pieces| < 2 || pieces[0] == [] || pieces[1] == [] then Err(BadLine)
    else Ok((pieces[0], pieces[1]))
  }

  /** One header line into the map; later lines win. */
  function AddHeader(t: Text, headers: map<Bytes, Bytes>, raw: Bytes): Answer<map<Bytes, Bytes>> {
    var line := TrimCr(raw);
    if line == [] then Ok(headers)
    else if !Utf8.Valid(line) || SplitOnce(line, COLON).Err? then Err(BadLine)
    else
      var kv := SplitOnce(line, COLON).value;
      Ok(headers[Lower(t.trim(kv.0)) := t.trim(kv.1)])
  }

  function Headers(t: Text, lines: seq<Bytes>): Answer<map<Bytes, Bytes>> {
    if lines == [] then Ok(map[]) else
      var n := |lines| - 1;
      var rest :- Headers(t, lines[..n]);
      AddHeader(t, rest, lines[n])
  }

  function HexVal(x: byte): Result<byte, ()> {
    if 0x30 <= x <= 0x39 then Ok(x - 0x30)
    else if 0x41 <= x <= 0x46 then Ok(x - 0x41 + 10)
    else if 0x61 <= x <= 0x66 then Ok(x - 0x61 + 10)
    else Err(())
  }

  /** `u8::from_str_radix(_, 16)` on two octets: a leading plus sign is allowed. */
  function HexByte(a: byte, b: byte): Result<byte, ()> {
    var low :- HexVal(b);
    if a == PLUS then Ok(low) else
      var high :- HexVal(a);
      Ok(16 * high + low)
  }

  function Escaped(b: Bytes): bool {
    |b| > 2 && b[0] == PERCENT && HexByte(b[1], b[2]).Ok?
  }

  function PercentDecoded(b: Bytes): Bytes {
    if b == [] then []
    else if Escaped(b) then [HexByte(b[1], b[2]).value] + PercentDecoded(b[3..])
    else [b[0]] + PercentDecoded(b[1..])
  }

  /** How many octets the item at the front takes, and the octet it stands for. */
  function FirstItem(b: Bytes): (r: (nat, byte))
    requires b != []
    ensures 1 <= r.0 <= |b|
  {
    if Escaped(b) then (3, HexByte(b[1], b[2]).value) else (1, b[0])
  }

  lemma DecodeOne(out: Bytes, p: Bytes, i: nat)
    requires i < |p|
    ensures var (n, v) := FirstItem(p[i..]);
            i + n <= |p| && out + PercentDecoded(p[i..]) == (out + [v]) + PercentDecoded(p[i + n..])
  {
    hide HexByte;
    var (n, v) := FirstItem(p[i..]);
    assert p[i..][n..] == p[i + n..];
    assert PercentDecoded(p[i..]) == [v] + PercentDecoded(p[i + n..]);
  }

  /** `decode_path`: advance one escape or one octet at a time. */
  method DecodePath(t: Text, p: Bytes) returns (r: Bytes)
    ensures r == t.lossy(PercentDecoded(p))
  {
    hide HexByte;
    var out: Bytes := [];
    var i := 0;
    assert p[0..] == p;
    while i < |p|
      invariant 0 <= i <= |p|
      invariant out + PercentDecoded(p[i..]) == PercentDecoded(p)
    {
      hide PercentDecoded;
      DecodeOne(out, p, i);
      if p[i] == PERCENT && i + 2 < |p| {
        var v := HexByte(p[i + 1], p[i + 2]);
        if v.Ok? {
          out, i := out + [v.value], i + 3;
          continue;
        }
      }
      out, i := out + [p[i]], i + 1;
    }
    assert p[i..] == [] && out + [] == out;
    return t.lossy(out);
  }

  /** The decimal value of some digits. */
  function Decimal(b: Bytes): Result<nat, ()> {
    if b == [] then Ok(0) else
      var n := |b| - 1;
      var rest :- Decimal(b[..n]);
      if 0x30 <= b[n] <= 0x39 then Ok(10 * rest + b[n] - 0x30) else Err(())
  }

  /** `str::parse::<u64>`. */
  function ParseU64(b: Bytes): Answer<u64> {
    var digits := if b != [] && b[0] == PLUS then b[1..] else b;
    if digits != [] && Decimal(digits).Ok? && Decimal(digits).value <= U64_MAX then Ok(Decimal(digits).value)
    else Err(BadLine)
  }

  function ContentLength(headers: map<Bytes, Bytes>): Answer<u64> {
    var name := Ascii("content-length");
    if name in headers then ParseU64(headers[name]) else Ok(0)
  }

  /** The request a header block announces, and how long its body is. */
  function ParseHead(t: Text, head: Bytes): Answer<(Request, u64)> {
    var lines := Split(head, LF);
    var first :- RequestLine(lines[0]);
    var target := match SplitOnce(first.1, QUERY) case Ok(pq) => pq case Err(_) => (first.1, []);
    var headers :- Headers(t, lines[1..]);
    var want :- ContentLength(headers);
    if want > MAX_BODY then Err(TooLarge("body", want))
    else Ok((Request(first.0, t.lossy(PercentDecoded(target.0)), target.1, headers, []), want))
  }

  // ---- The whole stream

  /** How the stream ends once its octets are read. */
  datatype Ending = Closed | Broken

  function AtEnd(e: Ending): HttpError {
    if e == Closed then HttpError.Truncated else Io
  }

  /** The pure parser: it sees the whole stream at once. */
  function Parse(t: Text, stream: Bytes, e: Ending): Answer<Request> {
    var end := HeaderEnd(stream);
    if end.Err? then
      Err(if |stream| > MAX_HEADER then TooLarge("headers", |stream|) else AtEnd(e))
    else
      var head :- ParseHead(t, stream[..end.value]);
      var stop := end.value + head.1;
      if stop <= |stream| then Ok(head.0.(body := stream[end.value..stop])) else Err(AtEnd(e))
  }

  /** What successive reads hand over: never nothing, and at most one buffer. */
  predicate Reads(chunks: seq<Bytes>) {
    forall i | 0 <= i < |chunks| :: 0 < |chunks[i]| <= READ_SIZE
  }

  function Joined(chunks: seq<Bytes>): Bytes {
    if chunks == [] then [] else chunks[0] + Joined(chunks[1..])
  }

  /** The header loop: read until the blank line is in the buffer. */
  function Gather(buf: Bytes, chunks: seq<Bytes>, e: Ending): (r: Answer<(nat, Bytes, seq<Bytes>)>)
    ensures r.Ok? ==> 4 <= r.value.0 <= |r.value.1|
    decreases |chunks|
  {
    if |buf| > MAX_HEADER then Err(TooLarge("headers", |buf|))
    else if chunks == [] then Err(AtEnd(e))
    else
      var more := buf + chunks[0];
      var end := HeaderEnd(more);
      if end.Ok? then Ok((end.value, more, chunks[1..])) else Gather(more, chunks[1..], e)
  }

  /** The body loop: read until the announced length is in the buffer. */
  function Fill(body: Bytes, chunks: seq<Bytes>, want: nat, e: Ending): Answer<Bytes>
    decreases |chunks|
  {
    if |body| >= want then Ok(body[..want])
    else if chunks == [] then Err(AtEnd(e))
    else Fill(body + chunks[0], chunks[1..], want, e)
  }

  function ReadSpec(t: Text, chunks: seq<Bytes>, e: Ending): Answer<Request> {
    var g :- Gather([], chunks, e);
    var head :- ParseHead(t, g.1[..g.0]);
    var body :- Fill(g.1[g.0..], g.2, head.1, e);
    Ok(head.0.(body := body))
  }

  /** `read_request`. */
  method ReadRequest(t: Text, chunks: seq<Bytes>, e: Ending) returns (r: Answer<Request>)
    ensures r == ReadSpec(t, chunks, e)
  {
    hide HeaderEnd, ParseHead;
    var buf: Bytes := [];
    var next := 0;
    var end := 0;
    assert chunks[0..] == chunks;
    while true
      invariant 0 <= next <= |chunks| && end == 0
      invariant Gather([], chunks, e) == Gather(buf, chunks[next..], e)
      decreases |chunks| - next
    {
      if |buf| > MAX_HEADER { return Err(TooLarge("headers", |buf|)); }
      if next == |chunks| { return Err(AtEnd(e)); }
      buf := buf + chunks[next];
      assert chunks[next..][1..] == chunks[next + 1..];
      next := next + 1;
      var found := HeaderEnd(buf);
      if found.Ok? {
        end := found.value;
        break;
      }
    }
    var head := ReadHead(t, buf[..end]);
    if head.Err? { return Err(head.error); }
    var want := head.value.1;
    var body := buf[end..];
    ghost var spec := Fill(body, chunks[next..], want, e);
    while |body| < want
      invariant 0 <= next <= |chunks|
      invariant Fill(body, chunks[next..], want, e) == spec
      decreases |chunks| - next
    {
      if next == |chunks| { return Err(AtEnd(e)); }
      body := body + chunks[next];
      assert chunks[next..][1..] == chunks[next + 1..];
      next := next + 1;
    }
    assert body[..|body|] == body;
    if |body| > want { body := body[..want]; }
    return Ok(head.value.0.(body := body));
  }

  method ReadHead(t: Text, head: Bytes) returns (r: Answer<(Request, u64)>)
    ensures r == ParseHead(t, head)
  {
    hide Split, SplitOnce, RequestLine, AddHeader, ContentLength, PercentDecoded;
    var lines := Split(head, LF);
    var first := RequestLine(lines[0]);
    if first.Err? { return Err(first.error); }
    var (method_, target) := first.value;
    var pq := SplitOnce(target, QUERY);
    var path := DecodePath(t, if pq.Ok? then pq.value.0 else target);
    var query := if pq.Ok? then pq.value.1 else [];
    var rest := lines[1..];
    var headers: map<Bytes, Bytes> := map[];
    for i := 0 to |rest|
      invariant Headers(t, rest[..i]) == Ok(headers)
    {
      assert rest[..i + 1][..i] == rest[..i];
      var added := AddHeader(t, headers, rest[i]);
      if added.Err? {
        HeadersStop(t, rest, i + 1);
        return Err(added.error);
      }
      headers := added.value;
    }
    assert rest[..|rest|] == rest;
    var want := ContentLength(headers);
    if want.Err? { return Err(want.error); }
    if want.value > MAX_BODY { return Err(TooLarge("body", want.value)); }
    return Ok((Request(method_, path, query, headers, []), want.value));
  }

  lemma {:induction false} HeadersStop(t: Text, lines: seq<Bytes>, n: nat)
    requires n <= |lines| && Headers(t, lines[..n]).Err?
    ensures Headers(t, lines) == Headers(t, lines[..n])
    decreases |lines|
  {
    hide AddHeader;
    if n < |lines| {
      var m := |lines| - 1;
      assert lines[..m][..n] == lines[..n];
      HeadersStop(t, lines[..m], n);
    } else {
      assert lines[..n] == lines;
    }
  }

  // ---- However the stream is split

  lemma {:induction false} GatherFinds(buf: Bytes, chunks: seq<Bytes>, e: Ending, end: nat)
    requires HeaderEnd(buf + Joined(chunks)) == Ok(end) && HeaderEnd(buf).Err? && end <= MAX_HEADER + 1
    ensures var g := Gather(buf, chunks, e);
            g.Ok? && g.value.0 == end && g.value.1 + Joined(g.value.2) == buf + Joined(chunks)
    decreases |chunks|
  {
    hide HeaderEnd;
    var all := buf + Joined(chunks);
    HeaderEndPrefix(all, |buf|);
    assert all[..|buf|] == buf && |buf| < end;
    assert chunks == [] ==> all == buf;
    if chunks != [] {
      var more := buf + chunks[0];
      assert all == more + Joined(chunks[1..]);
      HeaderEndPrefix(all, |more|);
      assert all[..|more|] == more;
      if HeaderEnd(more).Err? {
        GatherFinds(more, chunks[1..], e, end);
      }
    }
  }

  lemma {:induction false} GatherFails(buf: Bytes, chunks: seq<Bytes>, e: Ending)
    requires Reads(chunks) && |buf| <= MAX_HEADER + READ_SIZE && HeaderEnd(buf + Joined(chunks)).Err?
    ensures var g, n := Gather(buf, chunks, e), |buf + Joined(chunks)|;
            && g.Err?
            && (n <= MAX_HEADER ==> g.error == AtEnd(e))
            && (n > MAX_HEADER ==> g.error.TooLarge? && g.error.which == "headers"
                                   && MAX_HEADER < g.error.got <= MAX_HEADER + READ_SIZE && g.error.got <= n)
    decreases |chunks|
  {
    hide HeaderEnd;
    var all := buf + Joined(chunks);
    if chunks == [] {
      assert all == buf;
    } else if |buf| <= MAX_HEADER {
      var more := buf + chunks[0];
      assert all == more + Joined(chunks[1..]);
      HeaderEndPrefix(all, |more|);
      assert all[..|more|] == more;
      GatherFails(more, chunks[1..], e);
    }
  }

  lemma {:induction false} FillTakes(body: Bytes, chunks: seq<Bytes>, want: nat, e: Ending)
    ensures var all := body + Joined(chunks);
            Fill(body, chunks, want, e) == if want <= |all| then Ok(all[..want]) else Err(AtEnd(e))
    decreases |chunks|
  {
    var all := body + Joined(chunks);
    if |body| >= want {
      assert all[..want] == body[..want];
    } else if chunks == [] {
      assert all == body;
    } else {
      FillTakes(body + chunks[0], chunks[1..], want, e);
      assert all == (body + chunks[0]) + Joined(chunks[1..]);
    }
  }

  lemma AfterGather(t: Text, chunks: seq<Bytes>, e: Ending)
    requires var g, end := Gather([], chunks, e), HeaderEnd(Joined(chunks));
             g.Ok? && end == Ok(g.value.0) && g.value.1 + Joined(g.value.2) == Joined(chunks)
    ensures ReadSpec(t, chunks, e) == Parse(t, Joined(chunks), e)
  {
    hide ParseHead, HeaderEnd, Gather, Fill, Joined;
    var stream := Joined(chunks);
    var (end, buf, rest) := Gather([], chunks, e).value;
    assert buf[..end] == stream[..end];
    var head := ParseHead(t, stream[..end]);
    if head.Ok? {
      var want := head.value.1;
      FillTakes(buf[end..], rest, want, e);
      assert buf[end..] + Joined(rest) == stream[end..];
      assert end + want <= |stream| ==> stream[end..][..want] == stream[end..end + want];
    }
  }

  /**
   * The reader refines the pure parser. If the header block ends within the cap, every
   * way of splitting the stream into reads gives the parser's own answer: the same
   * request with exactly Content-Length octets of body, or the same refusal.
   */
  lemma ReaderRefinesParser(t: Text, chunks: seq<Bytes>, e: Ending)
    requires HeaderEnd(Joined(chunks)).Ok? && HeaderEnd(Joined(chunks)).value <= MAX_HEADER + 1
    ensures ReadSpec(t, chunks, e) == Parse(t, Joined(chunks), e)
  {
    hide ParseHead, HeaderEnd, Gather, Fill, Joined, ReadSpec, Parse;
    var stream := Joined(chunks);
    assert [] + stream == stream;
    assert HeaderEnd([]).Err? by { NoHeaderInNothing(); }
    GatherFinds([], chunks, e, HeaderEnd(stream).value);
    AfterGather(t, chunks, e);
  }

  lemma NoHeaderInNothing()
    ensures HeaderEnd([]).Err?
  {
  }

  /**
   * Without a blank line the refusal is of the same kind however the stream is split, but
   * the size it reports is that of the buffer at the time.
   */
  lemma ReaderWithoutHeader(t: Text, chunks: seq<Bytes>, e: Ending)
    requires Reads(chunks) && HeaderEnd(Joined(chunks)).Err?
    ensures var r, n := ReadSpec(t, chunks, e), |Joined(chunks)|;
            && r.Err?
            && (n <= MAX_HEADER ==> r == Parse(t, Joined(chunks), e))
            && (n > MAX_HEADER ==> r.error.TooLarge? && r.error.which == "headers"
                                   && MAX_HEADER < r.error.got <= MAX_HEADER + READ_SIZE)
  {
    assert [] + Joined(chunks) == Joined(chunks);
    GatherFails([], chunks, e);
  }

  lemma {:induction false} GatherOverruns(buf: Bytes, chunks: seq<Bytes>, e: Ending, end: nat)
    requires Reads(chunks) && |buf| <= MAX_HEADER + READ_SIZE < end
    requires HeaderEnd(buf + Joined(chunks)) == Ok(end)
    ensures var g := Gather(buf, chunks, e);
            g.Err? && g.error.TooLarge? && g.error.which == "headers"
            && MAX_HEADER < g.error.got <= MAX_HEADER + READ_SIZE
    decreases |chunks|
  {
    hide HeaderEnd;
    var all := buf + Joined(chunks);
    assert chunks == [] ==> all == buf;
    if chunks != [] && |buf| <= MAX_HEADER {
      var more := buf + chunks[0];
      assert all == more + Joined(chunks[1..]);
      HeaderEndPrefix(all, |more|);
      assert all[..|more|] == more;
      GatherOverruns(more, chunks[1..], e, end);
    }
  }

  /** A header block that ends more than one read past the cap is refused however it is split. */
  lemma ReaderRefusesOverrun(t: Text, chunks: seq<Bytes>, e: Ending)
    requires Reads(chunks) && HeaderEnd(Joined(chunks)).Ok?
    requires HeaderEnd(Joined(chunks)).value > MAX_HEADER + READ_SIZE
    ensures var r := ReadSpec(t, chunks, e);
            r.Err? && r.error.TooLarge? && r.error.which == "headers"
            && MAX_HEADER < r.error.got <= MAX_HEADER + READ_SIZE
  {
    hide HeaderEnd, ParseHead, Gather, Joined;
    assert [] + Joined(chunks) == Joined(chunks);
    GatherOverruns([], chunks, e, HeaderEnd(Joined(chunks)).value);
  }

  /** The stream in reads of `k` octets. */
  function Chop(s: Bytes, k: nat): (r: seq<Bytes>)
    requires 0 < k <= READ_SIZE
    ensures Reads(r) && Joined(r) == s
    decreases |s|
  {
    if s == [] then []
    else if |s| <= k then [s]
    else
      var rest := Chop(s[k..], k);
      assert ([s[..k]] + rest)[1..] == rest;
      [s[..k]] + rest
  }

  lemma {:induction false} ByteByByteIsRefused(s: Bytes, i: nat, e: Ending, end: nat)
    requires HeaderEnd(s) == Ok(end) && i <= MAX_HEADER + 1 < end
    ensures Gather(s[..i], Chop(s[i..], 1), e) == Err(TooLarge("headers", MAX_HEADER + 1))
    decreases MAX_HEADER + 1 - i
  {
    hide HeaderEnd;
    if i <= MAX_HEADER {
      HeaderEndPrefix(s, i + 1);
      assert s[i..][..1] == [s[i]] && s[i..][1..] == s[i + 1..] && s[..i] + [s[i]] == s[..i + 1];
      assert Chop(s[i..], 1) == [[s[i]]] + Chop(s[i + 1..], 1);
      assert Chop(s[i..], 1)[1..] == Chop(s[i + 1..], 1);
      ByteByByteIsRefused(s, i + 1, e, end);
    }
  }

  lemma {:induction false} FullReadsFind(s: Bytes, j: nat, e: Ending, end: nat)
    requires HeaderEnd(s) == Ok(end) && MAX_HEADER + 1 < end <= MAX_HEADER + READ_SIZE && j <= 64
    ensures var g := Gather(s[..READ_SIZE * j], Chop(s[READ_SIZE * j..], READ_SIZE), e);
            g.Ok? && g.value.0 == end && g.value.1 + Joined(g.value.2) == s
    decreases 64 - j
  {
    hide HeaderEnd;
    var i := READ_SIZE * j;
    var rest := s[i..];
    var chunks := Chop(rest, READ_SIZE);
    var k := if |rest| <= READ_SIZE then |rest| else READ_SIZE;
    var m := i + k;
    assert chunks[0] == rest[..k] && Joined(chunks[1..]) == rest[k..] by { ChopStep(rest, READ_SIZE); }
    assert s[..i] + rest[..k] == s[..m] && rest[k..] == s[m..];
    HeaderEndPrefix(s, m);
    if j < 64 {
      assert k == READ_SIZE && m == READ_SIZE * (j + 1);
      ChopStep(rest, READ_SIZE);
      FullReadsFind(s, j + 1, e, end);
    }
  }

  lemma ChopStep(s: Bytes, k: nat)
    requires 0 < k <= READ_SIZE && s != []
    ensures var n := if |s| <= k then |s| else k;
            Chop(s, k)[0] == s[..n] && Chop(s, k)[1..] == Chop(s[n..], k) && Joined(Chop(s, k)[1..]) == s[n..]
  {
    assert s[..|s|] == s;
  }

  /**
   * In the strip of one read past the cap the split does matter: the same stream is
   * refused octet by octet and answered by the parser in full reads. With the lemmas
   * above this is exactly where the reader and the parser can part.
   */
  lemma SplitMattersPastCap(t: Text, stream: Bytes, e: Ending) returns (small: seq<Bytes>, full: seq<Bytes>)
    requires HeaderEnd(stream).Ok? && MAX_HEADER + 1 < HeaderEnd(stream).value <= MAX_HEADER + READ_SIZE
    ensures Reads(small) && Joined(small) == stream && Reads(full) && Joined(full) == stream
    ensures ReadSpec(t, small, e) == Err(TooLarge("headers", MAX_HEADER + 1))
    ensures ReadSpec(t, full, e) == Parse(t, stream, e)
  {
    hide HeaderEnd, ParseHead, Parse, Fill, Gather, Chop;
    var end := HeaderEnd(stream).value;
    small, full := Chop(stream, 1), Chop(stream, READ_SIZE);
    assert stream[..0] == [] && stream[0..] == stream;
    ByteByByteIsRefused(stream, 0, e, end);
    FullReadsFind(stream, 0, e, end);
    AfterGather(t, full, e);
  }
}
