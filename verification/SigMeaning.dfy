/**
 * One canonical request has one meaning, so that a signature covers what it seems to cover
 * (crates/nas-gateway/src/sigv4.rs:121-183, 261-281).
 */
module SigMeaning {
  import opened Wrappers
  import opened Bytes
  import opened Http
  import opened SigV4
  import Q = CanonicalQuery

  predicate OneLine(b: Bytes) {
    LF !in b
  }

  /** Cutting at the first line feed. */
  lemma FirstLine(a: Bytes, x: Bytes, b: Bytes, y: Bytes)
    requires OneLine(a) && OneLine(b) && a + [LF] + x == b + [LF] + y
    ensures a == b && x == y
  {
    Q.SplitOnceAt(a, LF, x);
    Q.SplitOnceAt(b, LF, y);
  }

  // ---- Encoded text is one line

  lemma {:induction false} EncodedIsOneLine(s: Bytes, slash: bool)
    ensures OneLine(Q.UriEncoded(s, slash))
  {
    if s != [] {
      EncodedIsOneLine(s[1..], slash);
      assert LF !in Q.EncodeByte(s[0], slash);
    }
  }

  lemma {:induction false} ParamsAreOneLine(t: Text, pieces: seq<Bytes>)
    ensures forall p | p in Q.Params(t, pieces) :: OneLine(p.0) && OneLine(p.1)
  {
    hide Q.UriEncoded, SplitOnce, PercentDecoded;
    if pieces != [] {
      ParamsAreOneLine(t, pieces[1..]);
      match SplitOnce(pieces[0], Q.EQUALS) {
        case Ok(kv) =>
          EncodedIsOneLine(t.lossy(PercentDecoded(Q.Spaced(kv.0))), true);
          EncodedIsOneLine(t.lossy(PercentDecoded(Q.Spaced(kv.1))), true);
        case Err(_) =>
          EncodedIsOneLine(t.lossy(PercentDecoded(Q.Spaced(pieces[0]))), true);
      }
    }
  }

  lemma {:induction false} RenderedIsOneLine(ps: seq<Q.Param>)
    requires forall i | 0 <= i < |ps| :: OneLine(ps[i].0) && OneLine(ps[i].1)
    ensures OneLine(Q.Rendered(ps))
  {
    if |ps| > 1 {
      RenderedIsOneLine(ps[1..]);
    }
  }

  lemma QueryIsOneLine(t: Text, query: Bytes)
    ensures OneLine(Q.Canonical(t, query))
  {
    hide Q.Params, Q.Rendered, Q.Pieces, Q.SortParams;
    var ps := Q.Params(t, Q.Pieces(query));
    var sorted := Q.SortParams(ps);
    ParamsAreOneLine(t, Q.Pieces(query));
    forall i | 0 <= i < |sorted| ensures OneLine(sorted[i].0) && OneLine(sorted[i].1) {
      assert sorted[i] in multiset(sorted);
      assert sorted[i] in ps;
    }
    RenderedIsOneLine(sorted);
  }

  lemma UpperIsOneLine(b: Bytes)
    requires OneLine(b)
    ensures OneLine(Upper(b))
  {
    forall i | 0 <= i < |b| ensures Upper(b)[i] != LF {
      assert b[i] in b;
    }
  }

  lemma LowerIsOneLine(b: Bytes)
    requires OneLine(b)
    ensures OneLine(Lower(b))
  {
    forall i | 0 <= i < |b| ensures Lower(b)[i] != LF {
      assert b[i] in b;
    }
  }

  // ---- The header lines

  /** The value a header line carries: trimmed, and empty for a header that is absent. */
  function Covers(p: Primitives, headers: map<Bytes, Bytes>, name: Bytes): Bytes {
    var v := Get(headers, name);
    p.text.trim(if v.Ok? then v.value else [])
  }

  function HeaderLine(p: Primitives, headers: map<Bytes, Bytes>, name: Bytes): Bytes {
    Lower(name) + [COLON] + Covers(p, headers, name)
  }

  /** Names and covered values hold no line feed, and names no semicolon. */
  predicate Lined(p: Primitives, headers: map<Bytes, Bytes>, names: seq<Bytes>) {
    forall i | 0 <= i < |names| :: OneLine(names[i]) && SEMI !in names[i] && OneLine(Covers(p, headers, names[i]))
  }

  lemma LineIsOneLine(p: Primitives, headers: map<Bytes, Bytes>, name: Bytes)
    requires OneLine(name) && OneLine(Covers(p, headers, name))
    ensures OneLine(HeaderLine(p, headers, name)) && HeaderLine(p, headers, name) != []
  {
    LowerIsOneLine(name);
  }

  lemma LinesStep(p: Primitives, h: map<Bytes, Bytes>, names: seq<Bytes>, x: Bytes)
    requires names != []
    ensures CanonHeaders(p, h, names) + [LF] + x
         == HeaderLine(p, h, names[0]) + [LF] + (CanonHeaders(p, h, names[1..]) + [LF] + x)
  {
    hide Get, Lower;
  }

  /** The blank line ends the header lines: they and what follows are recovered. */
  lemma {:induction false} LinesUnique(p: Primitives, h: map<Bytes, Bytes>, names: seq<Bytes>, x: Bytes,
                                       k: map<Bytes, Bytes>, others: seq<Bytes>, y: Bytes)
    requires Lined(p, h, names) && Lined(p, k, others)
    requires CanonHeaders(p, h, names) + [LF] + x == CanonHeaders(p, k, others) + [LF] + y
    ensures |names| == |others| && x == y
    ensures forall i | 0 <= i < |names| :: HeaderLine(p, h, names[i]) == HeaderLine(p, k, others[i])
    decreases |names| + |others|
  {
    hide HeaderLine, Covers;
    if names != [] {
      LineIsOneLine(p, h, names[0]);
      LinesStep(p, h, names, x);
    }
    if others != [] {
      LineIsOneLine(p, k, others[0]);
      LinesStep(p, k, others, y);
    }
    if names == [] || others == [] {
      OneEmpty(p, h, names, x, k, others, y);
    } else {
      FirstLine(HeaderLine(p, h, names[0]), CanonHeaders(p, h, names[1..]) + [LF] + x,
                HeaderLine(p, k, others[0]), CanonHeaders(p, k, others[1..]) + [LF] + y);
      LinesUnique(p, h, names[1..], x, k, others[1..], y);
      forall i | 0 <= i < |names| ensures HeaderLine(p, h, names[i]) == HeaderLine(p, k, others[i]) {
        if i > 0 { assert names[1..][i - 1] == names[i] && others[1..][i - 1] == others[i]; }
      }
    }
  }

  lemma OneEmpty(p: Primitives, h: map<Bytes, Bytes>, names: seq<Bytes>, x: Bytes,
                 k: map<Bytes, Bytes>, others: seq<Bytes>, y: Bytes)
    requires names == [] || others == []
    requires names != [] ==> OneLine(HeaderLine(p, h, names[0])) && HeaderLine(p, h, names[0]) != []
    requires others != [] ==> OneLine(HeaderLine(p, k, others[0])) && HeaderLine(p, k, others[0]) != []
    requires CanonHeaders(p, h, names) + [LF] + x == CanonHeaders(p, k, others) + [LF] + y
    ensures names == others && x == y
  {
    hide HeaderLine, CanonHeaders;
    if names != [] { StartsALine(p, h, names, x); }
    if others != [] { StartsALine(p, k, others, y); }
    assert CanonHeaders(p, h, []) == [] && CanonHeaders(p, k, []) == [] by { NoLines(p, h); NoLines(p, k); }
    assert ([] + [LF] + x)[1..] == x && ([] + [LF] + y)[1..] == y;
  }

  lemma NoLines(p: Primitives, h: map<Bytes, Bytes>)
    ensures CanonHeaders(p, h, []) == []
  {
  }

  lemma StartsALine(p: Primitives, h: map<Bytes, Bytes>, names: seq<Bytes>, x: Bytes)
    requires names != [] && OneLine(HeaderLine(p, h, names[0])) && HeaderLine(p, h, names[0]) != []
    ensures (CanonHeaders(p, h, names) + [LF] + x)[0] != LF
  {
    hide HeaderLine;
    LinesStep(p, h, names, x);
    assert HeaderLine(p, h, names[0])[0] in HeaderLine(p, h, names[0]);
  }

  lemma JoinUnique(names: seq<Bytes>, others: seq<Bytes>)
    requires |names| == |others| && Join(names, SEMI) == Join(others, SEMI)
    requires forall i | 0 <= i < |names| :: SEMI !in names[i] && SEMI !in others[i]
    ensures names == others
  {
    if names != [] {
      SplitOfJoin(names, SEMI);
      SplitOfJoin(others, SEMI);
    }
  }

  lemma {:induction false} JoinIsOneLine(names: seq<Bytes>)
    requires forall i | 0 <= i < |names| :: OneLine(names[i])
    ensures OneLine(Join(names, SEMI))
  {
    JoinAvoids(names, SEMI, LF);
  }

  // ---- The whole canonical request

  /** The empty path stands for the root. */
  function Rooted(path: Bytes): Bytes {
    if path == [] then [SLASH] else path
  }

  lemma PathUnique(a: Bytes, b: Bytes)
    ensures var (x, y) := (Q.UriEncoded(a, false), Q.UriEncoded(b, false));
            Rooted(x) == Rooted(y) <==> Rooted(a) == Rooted(b)
    ensures OneLine(Rooted(Q.UriEncoded(a, false)))
  {
    Q.DecodeOfEncode(a, false);
    Q.DecodeOfEncode(b, false);
    EncodedIsOneLine(a, false);
    var root: Bytes := [SLASH];
    assert root[1..] == [] && Q.UriEncoded(root, false) == root;
    if Rooted(Q.UriEncoded(a, false)) == Rooted(Q.UriEncoded(b, false)) {
      Q.DecodeOfEncode(root, false);
    }
  }

  /** Two requests say the same in everything a signature over these names covers. */
  predicate SameCovered(p: Primitives, r: Req, names: seq<Bytes>, payload: Bytes, q: Req, others: seq<Bytes>, other: Bytes) {
    && Upper(r.method_) == Upper(q.method_) && Rooted(r.path) == Rooted(q.path)
    && Q.Canonical(p.text, r.query) == Q.Canonical(p.text, q.query)
    && names == others && payload == other
    && forall i | 0 <= i < |names| :: Covers(p, r.headers, names[i]) == Covers(p, q.headers, names[i])
  }

  function Tail(names: seq<Bytes>, payload: Bytes): Bytes {
    Join(names, SEMI) + [LF] + payload
  }

  /** The canonical request, line by line. */
  lemma Cut(p: Primitives, r: Req, names: seq<Bytes>, payload: Bytes)
    ensures CanonicalRequest(p, r, names, payload)
         == Upper(r.method_) + [LF] + (Rooted(Q.UriEncoded(r.path, false)) + [LF] + (Q.Canonical(p.text, r.query) + [LF]
            + (CanonHeaders(p, r.headers, names) + [LF] + Tail(names, payload))))
  {
    hide Upper, Q.UriEncoded, Q.Canonical, CanonHeaders, Join;
  }

  lemma {:induction false} SameLines(p: Primitives, h: map<Bytes, Bytes>, k: map<Bytes, Bytes>, names: seq<Bytes>)
    requires forall i | 0 <= i < |names| :: Covers(p, h, names[i]) == Covers(p, k, names[i])
    ensures CanonHeaders(p, h, names) == CanonHeaders(p, k, names)
  {
    hide Get, Lower;
    if names != [] {
      assert Covers(p, h, names[0]) == Covers(p, k, names[0]);
      SameLines(p, h, k, names[1..]);
    }
  }

  /** One canonical request has one meaning, and one meaning one canonical request. */
  lemma CanonicalMeaning(p: Primitives, r: Req, names: seq<Bytes>, payload: Bytes, q: Req, others: seq<Bytes>, other: Bytes)
    requires OneLine(r.method_) && OneLine(q.method_) && Lined(p, r.headers, names) && Lined(p, q.headers, others)
    ensures CanonicalRequest(p, r, names, payload) == CanonicalRequest(p, q, others, other) <==>
            SameCovered(p, r, names, payload, q, others, other)
  {
    hide Upper, Q.UriEncoded, Q.Canonical, CanonHeaders, Join, CanonicalRequest, Lined, OneLine, Rooted, Covers, Tail;
    var (path, path') := (Rooted(Q.UriEncoded(r.path, false)), Rooted(Q.UriEncoded(q.path, false)));
    var (query, query') := (Q.Canonical(p.text, r.query), Q.Canonical(p.text, q.query));
    var (x, y) := (CanonHeaders(p, r.headers, names) + [LF] + Tail(names, payload),
                   CanonHeaders(p, q.headers, others) + [LF] + Tail(others, other));
    Cut(p, r, names, payload);
    Cut(p, q, others, other);
    PathUnique(r.path, q.path);
    PathUnique(q.path, r.path);
    if CanonicalRequest(p, r, names, payload) == CanonicalRequest(p, q, others, other) {
      UpperIsOneLine(r.method_);
      UpperIsOneLine(q.method_);
      QueryIsOneLine(p.text, r.query);
      QueryIsOneLine(p.text, q.query);
      FirstLine(Upper(r.method_), path + [LF] + (query + [LF] + x), Upper(q.method_), path' + [LF] + (query' + [LF] + y));
      FirstLine(path, query + [LF] + x, path', query' + [LF] + y);
      FirstLine(query, x, query', y);
      TailMeaning(p, r.headers, names, payload, q.headers, others, other);
    }
    if SameCovered(p, r, names, payload, q, others, other) {
      SameLines(p, r.headers, q.headers, names);
    }
  }

  lemma TailMeaning(p: Primitives, h: map<Bytes, Bytes>, names: seq<Bytes>, payload: Bytes,
                    k: map<Bytes, Bytes>, others: seq<Bytes>, other: Bytes)
    requires Lined(p, h, names) && Lined(p, k, others)
    requires CanonHeaders(p, h, names) + [LF] + Tail(names, payload) == CanonHeaders(p, k, others) + [LF] + Tail(others, other)
    ensures names == others && payload == other
    ensures forall i | 0 <= i < |names| :: Covers(p, h, names[i]) == Covers(p, k, names[i])
  {
    hide CanonHeaders, Join, Covers;
    LinesUnique(p, h, names, Tail(names, payload), k, others, Tail(others, other));
    JoinIsOneLine(names);
    JoinIsOneLine(others);
    FirstLine(Join(names, SEMI), payload, Join(others, SEMI), other);
    JoinUnique(names, others);
    forall i | 0 <= i < |names| ensures Covers(p, h, names[i]) == Covers(p, k, names[i]) {
      var lead := Lower(names[i]) + [COLON];
      assert HeaderLine(p, h, names[i])[|lead|..] == Covers(p, h, names[i]);
      assert HeaderLine(p, k, names[i])[|lead|..] == Covers(p, k, names[i]);
    }
  }

  // ---- What verify accepts

  predicate LinedValues(headers: map<Bytes, Bytes>) {
    forall k | k in headers :: OneLine(headers[k])
  }

  lemma CoversIsOneLine(p: Primitives, headers: map<Bytes, Bytes>, name: Bytes)
    requires CutLaw(p.text) && LinedValues(headers)
    ensures OneLine(Covers(p, headers, name))
  {
  }

  lemma WordIsOneLine(s: string)
    requires LowerToken(s)
    ensures OneLine(Ascii(s)) && SEMI !in Ascii(s)
  {
    TokenOf(s);
    forall i | 0 <= i < |s| ensures Ascii(s)[i] != LF {
      assert Ascii(s)[i] == Octet(s[i]);
    }
  }

  lemma OwnNames(p: Primitives, r: Req)
    requires CutLaw(p.text) && LinedValues(r.headers)
    ensures Lined(p, r.headers, Present(r.headers, Covered()))
  {
    hide Covers, CutLaw, LinedValues, OneLine, Ascii;
    var names := Present(r.headers, Covered());
    PresentNames(r.headers, Covered());
    WordIsOneLine("content-type");
    WordIsOneLine("host");
    WordIsOneLine("range");
    WordIsOneLine("x-amz-content-sha256");
    WordIsOneLine("x-amz-date");
    forall i | 0 <= i < |names| ensures OneLine(names[i]) && SEMI !in names[i] && OneLine(Covers(p, r.headers, names[i])) {
      assert names[i] in names;
      CoversIsOneLine(p, r.headers, names[i]);
    }
  }

  lemma SignerIsCanonical(p: Primitives, r: Req, payload: Bytes)
    ensures SignerRequest(p, r, payload) == CanonicalRequest(p, r, Present(r.headers, Covered()), payload)
  {
    hide Q.UriEncoded, Q.Canonical, Covered, CanonHeaders, SignerHeaders, Join, Lower, Ascii;
    var names := Present(r.headers, Covered());
    CoveredAreTokens();
    PresentNames(r.headers, Covered());
    forall i | 0 <= i < |names|
      ensures names[i] in r.headers && Lower(names[i]) == names[i] && Get(r.headers, names[i]) == Ok(r.headers[names[i]])
    {
      assert names[i] in names;
    }
    SameHeaders(p, r.headers, r.headers, names);
  }

  lemma {:induction false} SplitPieces(b: Bytes, sep: byte)
    ensures forall piece | piece in Split(b, sep) :: sep !in piece && forall x | x in piece :: x in b
  {
    if b != [] {
      SplitPieces(b[1..], sep);
      assert forall x | x in b[1..] :: x in b;
      var rest := Split(b[1..], sep);
      assert rest[0] in rest;
      forall piece | piece in Split(b, sep) ensures sep !in piece && forall x | x in piece :: x in b {
        if piece !in rest {
          assert piece == [] || piece == [b[0]] + rest[0];
        }
      }
    }
  }

  /** The names of a parsed list are single lines without semicolons, and the parts of a credential hold no slash. */
  predicate Tidy(f: Found) {
    && (f.signed.Ok? ==> forall i | 0 <= i < |f.signed.value| :: OneLine(f.signed.value[i]) && SEMI !in f.signed.value[i])
    && (f.credential.Ok? ==> SLASH !in f.credential.value.1 && SLASH !in f.credential.value.2)
  }

  lemma PartIsTidy(f: Found, part: Bytes)
    requires Tidy(f) && OneLine(part) && AddPart(f, part).Ok?
    ensures Tidy(AddPart(f, part).value)
  {
    hide Ascii, Split;
    var c := Strip(part, "Credential=");
    if c.Ok? {
      SplitPieces(c.value, SLASH);
      var it := Split(c.value, SLASH);
      assert |it| == 5 && it[1] in it && it[2] in it;
    }
    var h := Strip(part, "SignedHeaders=");
    if h.Ok? {
      SplitPieces(h.value, SEMI);
      assert forall x | x in h.value :: x in part;
      forall i | 0 <= i < |Split(h.value, SEMI)| ensures OneLine(Split(h.value, SEMI)[i]) && SEMI !in Split(h.value, SEMI)[i] {
        assert Split(h.value, SEMI)[i] in Split(h.value, SEMI);
      }
    }
  }

  lemma {:induction false} PartsAreTidy(t: Text, parts: seq<Bytes>)
    requires CutLaw(t) && AddParts(t, parts).Ok? && forall i | 0 <= i < |parts| :: OneLine(parts[i])
    ensures Tidy(AddParts(t, parts).value)
  {
    hide AddPart, Tidy;
    if parts == [] {
      assert Tidy(NOTHING) by { NothingIsTidy(); }
    } else {
      var n := |parts| - 1;
      PartsAreTidy(t, parts[..n]);
      assert OneLine(parts[n]);
      PartIsTidy(AddParts(t, parts[..n]).value, t.trim(parts[n]));
    }
  }

  lemma NothingIsTidy()
    ensures Tidy(NOTHING)
  {
  }

  lemma ParsedNames(p: Primitives, x: Req)
    requires CutLaw(p.text) && LinedValues(x.headers)
    requires Get(x.headers, Ascii("authorization")).Ok? && Parsed(p.text, Get(x.headers, Ascii("authorization")).value).Ok?
    ensures Lined(p, x.headers, Parsed(p.text, Get(x.headers, Ascii("authorization")).value).value.signed)
    ensures var parts := Parsed(p.text, Get(x.headers, Ascii("authorization")).value).value;
            SLASH !in parts.short && SLASH !in parts.region
  {
    hide AddParts, Split, Covers, Lower, Ascii;
    var value := Get(x.headers, Ascii("authorization")).value;
    assert OneLine(value);
    var rest := Strip(value, "AWS4-HMAC-SHA256").value;
    var text := p.text.trim(rest);
    assert OneLine(text) by { assert forall b | b in rest :: b in value; }
    SplitPieces(text, COMMA);
    var parts := Split(text, COMMA);
    forall i | 0 <= i < |parts| ensures OneLine(parts[i]) {
      assert parts[i] in parts;
    }
    PartsAreTidy(p.text, parts);
    var names := Parsed(p.text, value).value.signed;
    forall i | 0 <= i < |names| ensures OneLine(Covers(p, x.headers, names[i])) {
      CoversIsOneLine(p, x.headers, names[i]);
    }
  }

  /** Two different inputs of the MAC, keys included, with one result. */
  predicate MacsMeet(p: Primitives, key: Bytes, text: Bytes, other: Bytes, text': Bytes) {
    (key, text) != (other, text') && p.hmac(key, text) == p.hmac(other, text')
  }

  lemma SameText(p: Primitives, date: Bytes, short: Bytes, region: Bytes, canon: Bytes,
                 date': Bytes, short': Bytes, region': Bytes, canon': Bytes)
    requires OneLine(date) && OneLine(date')
    requires StringToSign(p, date, short, region, canon) == StringToSign(p, date', short', region', canon')
    ensures date == date' && p.sha(canon) == p.sha(canon') && Scope(short, region) == Scope(short', region')
  {
    hide HexEncode, Scope, Ascii, StringToSign;
    var (x, y) := (Scope(short, region) + [LF] + HexEncode(p.sha(canon)), Scope(short', region') + [LF] + HexEncode(p.sha(canon')));
    TextShape(p, date, short, region, canon);
    TextShape(p, date', short', region', canon');
    FirstLine(date, x, date', y);
    HexRoundTrip(p.sha(canon));
    HexRoundTrip(p.sha(canon'));
    assert x[..|x| - 65] == Scope(short, region) && y[..|y| - 65] == Scope(short', region');
    assert x[|x| - 64..] == HexEncode(p.sha(canon)) && y[|y| - 64..] == HexEncode(p.sha(canon'));
  }

  lemma TextShape(p: Primitives, date: Bytes, short: Bytes, region: Bytes, canon: Bytes)
    ensures |StringToSign(p, date, short, region, canon)| > |Algorithm()|
    ensures StringToSign(p, date, short, region, canon)[|Algorithm()| + 1..]
         == date + [LF] + (Scope(short, region) + [LF] + HexEncode(p.sha(canon)))
  {
    hide HexEncode, Scope, Algorithm;
    var rest := date + [LF] + (Scope(short, region) + [LF] + HexEncode(p.sha(canon)));
    var s := StringToSign(p, date, short, region, canon);
    assert s == (Algorithm() + [LF]) + rest;
  }

  /** The scope names one date and one region. */
  lemma ScopeUnique(short: Bytes, region: Bytes, short': Bytes, region': Bytes)
    requires SLASH !in short && SLASH !in region && SLASH !in short' && SLASH !in region'
    requires Scope(short, region) == Scope(short', region')
    ensures short == short' && region == region'
  {
    hide Join, Split;
    var (it, it') := ([short, region, Ascii("s3"), Ascii("aws4_request")], [short', region', Ascii("s3"), Ascii("aws4_request")]);
    NoSlash("s3");
    NoSlash("aws4_request");
    SplitOfJoin(it, SLASH);
    SplitOfJoin(it', SLASH);
    assert it[0] == it'[0] && it[1] == it'[1];
  }

  lemma NoSlash(s: string)
    requires forall i | 0 <= i < |s| :: s[i] != '/' && '!' <= s[i] <= '~'
    ensures SLASH !in Ascii(s)
  {
    forall i | 0 <= i < |s| ensures Ascii(s)[i] != SLASH {
      assert Ascii(s)[i] == Octet(s[i]) == s[i] as int;
    }
  }

  lemma DateIsOneLine(headers: map<Bytes, Bytes>)
    requires LinedValues(headers)
    ensures OneLine(DateOr(headers))
  {
    hide Lower;
    var epoch := "19700101T000000Z";
    forall i | 0 <= i < |epoch| ensures Ascii(epoch)[i] != LF {
      assert Ascii(epoch)[i] == Octet(epoch[i]);
    }
  }

  /**
   * A signature covers what it seems to cover. If `verify` accepts a request on the
   * signature that `sign` made for another, the two agree in date, region, method, path,
   * canonical query, list of names, every value these name, and payload line; or the two
   * canonical requests collide, or two inputs of the MAC do.
   */
  lemma AcceptedAgrees(p: Primitives, c: Creds, region: Bytes, r: Req, x: Req)
    requires CutLaw(p.text) && OneLine(r.method_) && OneLine(x.method_) && LinedValues(r.headers) && LinedValues(x.headers)
    requires SLASH !in region && SLASH !in Short(DateOr(r.headers))
    requires Verify(p, c, x) == Ok(())
    requires Carries(p, x, Signature(p, c, DateOr(r.headers), Short(DateOr(r.headers)), region, SignerRequest(p, r, SignedPayload(p, r))))
    ensures var parts := Parsed(p.text, Get(x.headers, Ascii("authorization")).value).value;
            var (date, date') := (DateOr(r.headers), DateOr(x.headers));
            var (mine, theirs) := (SignerRequest(p, r, SignedPayload(p, r)), CanonicalRequest(p, x, parts.signed, SignedPayload(p, x)));
            || (date == date' && parts.short == Short(date) && parts.region == region
                && SameCovered(p, r, Present(r.headers, Covered()), SignedPayload(p, r), x, parts.signed, SignedPayload(p, x)))
            || Collides(p.sha, {mine, theirs})
            || MacsMeet(p, SigningKey(p, c, Short(date), region), StringToSign(p, date, Short(date), region, mine),
                        SigningKey(p, c, parts.short, parts.region), StringToSign(p, date', parts.short, parts.region, theirs))
  {
    hide CutLaw, Parsed, CanonicalRequest, SignerRequest, HexDecode, Get, Present, Covered, SigningKey, StringToSign, SameCovered,
         Ascii, Lined, OneLine, LinedValues, Collides, Scope;
    var parts := Parsed(p.text, Get(x.headers, Ascii("authorization")).value).value;
    var (date, date') := (DateOr(r.headers), DateOr(x.headers));
    var (mine, theirs) := (SignerRequest(p, r, SignedPayload(p, r)), CanonicalRequest(p, x, parts.signed, SignedPayload(p, x)));
    var (s, t) := (StringToSign(p, date, Short(date), region, mine), StringToSign(p, date', parts.short, parts.region, theirs));
    if s == t {
      DateIsOneLine(r.headers);
      DateIsOneLine(x.headers);
      SameText(p, date, Short(date), region, mine, date', parts.short, parts.region, theirs);
      SameHash(p.sha, {mine, theirs}, mine, theirs);
      OwnNames(p, r);
      ParsedNames(p, x);
      ScopeUnique(Short(date), region, parts.short, parts.region);
      SignerIsCanonical(p, r, SignedPayload(p, r));
      CanonicalMeaning(p, r, Present(r.headers, Covered()), SignedPayload(p, r), x, parts.signed, SignedPayload(p, x));
    }
  }

  /** The Authorization header of `x` carries this signature. */
  predicate Carries(p: Primitives, x: Req, sig: Digest) {
    var auth := Get(x.headers, Ascii("authorization"));
    auth.Ok? && Parsed(p.text, auth.value).Ok? && HexDecode(Parsed(p.text, auth.value).value.signature) == Ok(sig)
  }

  /**
   * What `verify` asks of any request it accepts: this access key, a date that the
   * credential's day begins, and a payload line that is the hash of the body or says that
   * there is none.
   */
  lemma AcceptedIsInOrder(p: Primitives, c: Creds, x: Req)
    requires Verify(p, c, x) == Ok(())
    ensures Get(x.headers, Ascii("authorization")).Ok? && Parsed(p.text, Get(x.headers, Ascii("authorization")).value).Ok?
    ensures var parts := Parsed(p.text, Get(x.headers, Ascii("authorization")).value).value;
            && parts.id == c.id && Date(x.headers).Ok? && parts.short <= Date(x.headers).value
            && Payload(p, x) == Ok(SignedPayload(p, x))
            && (SignedPayload(p, x) != Ascii("UNSIGNED-PAYLOAD") ==> HexDecode(SignedPayload(p, x)) == Ok(p.sha(x.body)))
            && Carries(p, x, Signature(p, c, Date(x.headers).value, parts.short, parts.region,
                                       CanonicalRequest(p, x, parts.signed, SignedPayload(p, x))))
  {
    hide Parsed, Get, Signature, CanonicalRequest, HexDecode, Ascii, Payload;
    if SignedPayload(p, x) != Ascii("UNSIGNED-PAYLOAD") {
      PayloadIsTheHash(p, x);
    }
  }

  /** Somewhere in the two derivations of a signing key, two inputs of the MAC meet. */
  predicate KeysMeet(p: Primitives, c: Creds, short: Bytes, region: Bytes, d: Creds, short': Bytes, region': Bytes) {
    var (a, a') := (Ascii("AWS4") + c.secret, Ascii("AWS4") + d.secret);
    var (b, b') := (p.hmac(a, short), p.hmac(a', short'));
    var (e, e') := (p.hmac(b, region), p.hmac(b', region'));
    var (f, f') := (p.hmac(e, Ascii("s3")), p.hmac(e', Ascii("s3")));
    || MacsMeet(p, a, short, a', short') || MacsMeet(p, b, region, b', region')
    || MacsMeet(p, e, Ascii("s3"), e', Ascii("s3")) || MacsMeet(p, f, Ascii("aws4_request"), f', Ascii("aws4_request"))
  }

  /** A signing key is of one secret, one day and one region, or two inputs of the MAC meet. */
  lemma KeySeparates(p: Primitives, c: Creds, short: Bytes, region: Bytes, d: Creds, short': Bytes, region': Bytes)
    requires SigningKey(p, c, short, region) == SigningKey(p, d, short', region')
    ensures (c.secret == d.secret && short == short' && region == region') || KeysMeet(p, c, short, region, d, short', region')
  {
    hide Ascii;
    var (a, a') := (Ascii("AWS4") + c.secret, Ascii("AWS4") + d.secret);
    if a == a' {
      assert a[|Ascii("AWS4")|..] == c.secret && a'[|Ascii("AWS4")|..] == d.secret;
    }
  }

  /** The five headers `sign` covers whenever they are there. */
  lemma CoveredNames(headers: map<Bytes, Bytes>, name: Bytes)
    ensures name in Present(headers, Covered()) <==>
            && name in headers
            && (name == Ascii("content-type") || name == Ascii("host") || name == Ascii("range")
                || name == Ascii("x-amz-content-sha256") || name == Ascii("x-amz-date"))
  {
    hide Ascii;
    PresentIff(headers, Covered(), name);
  }

  lemma {:induction false} PresentIff(headers: map<Bytes, Bytes>, names: seq<Bytes>, name: Bytes)
    ensures name in Present(headers, names) <==> name in names && name in headers
  {
    if names != [] {
      PresentIff(headers, names[1..], name);
      assert name in names <==> name == names[0] || name in names[1..];
    }
  }

  /** A request's date is its `x-amz-date`, and failing that its `date`. */
  lemma DateMeaning(headers: map<Bytes, Bytes>)
    ensures Ascii("x-amz-date") in headers ==> Date(headers) == Ok(headers[Ascii("x-amz-date")])
    ensures Ascii("x-amz-date") !in headers && Ascii("date") in headers ==> Date(headers) == Ok(headers[Ascii("date")])
    ensures Ascii("x-amz-date") !in headers && Ascii("date") !in headers ==> Date(headers).Err?
  {
    TokenOf("x-amz-date");
    TokenOf("date");
  }

  // ---- And the body

  lemma {:induction false} DecodeLower(v: Bytes)
    ensures HexDecode(Lower(v)) == HexDecode(v)
  {
    if |v| >= 2 {
      DecodeLower(v[2..]);
      assert Lower(v)[2..] == Lower(v[2..]);
      assert HexByte(Lower(v)[0], Lower(v)[1]) == HexByte(v[0], v[1]);
    }
  }

  lemma PayloadIsTheHash(p: Primitives, r: Req)
    requires SignedPayload(p, r) != Ascii("UNSIGNED-PAYLOAD")
    ensures HexDecode(SignedPayload(p, r)) == Ok(p.sha(r.body))
  {
    hide Ascii, HexDecode, HexEncode, Lower;
    HexRoundTrip(p.sha(r.body));
    var v := Get(r.headers, Ascii("x-amz-content-sha256"));
    if v.Ok? {
      DecodeLower(v.value);
    }
  }

  /** Two requests with one payload line have one body, unless it is left unsigned or the bodies collide. */
  lemma SameBody(p: Primitives, r: Req, x: Req)
    requires SignedPayload(p, r) == SignedPayload(p, x) != Ascii("UNSIGNED-PAYLOAD")
    ensures r.body == x.body || Collides(p.sha, {r.body, x.body})
  {
    PayloadIsTheHash(p, r);
    PayloadIsTheHash(p, x);
    SameHash(p.sha, {r.body, x.body}, r.body, x.body);
  }
}
