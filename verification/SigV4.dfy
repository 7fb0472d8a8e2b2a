/** AWS Signature Version 4, both ends (crates/nas-gateway/src/sigv4.rs). */
module SigV4 {
  import opened Wrappers
  import opened Bytes
  import opened Encoding
  import opened Http
  import Q = CanonicalQuery
  import Utf8

  const COMMA: byte := 0x2C
  const SEMI: byte := 0x3B
  const SLASH: byte := 0x2F

  /** SHA-256, HMAC-SHA-256 and the library's text operations. */
  datatype Primitives = Primitives(sha: Bytes -> Digest, hmac: (Bytes, Bytes) -> Digest, text: Text)

  datatype Creds = Creds(id: Bytes, secret: Bytes)

  datatype Req = Req(method_: Bytes, path: Bytes, query: Bytes, headers: map<Bytes, Bytes>, body: Bytes)

  datatype AuthError = Missing | Malformed(what: string) | UnknownKey | BadSignature | PayloadHash

  type Auth<T> = Result<T, AuthError>

  // ---- Hexadecimal

  function LowerHex(n: nat): byte
    requires n < 16
  {
    if n < 10 then 0x30 + n else 0x61 + n - 10
  }

  function HexEncode(b: Bytes): Bytes {
    if b == [] then [] else [LowerHex(b[0] / 16), LowerHex(b[0] % 16)] + HexEncode(b[1..])
  }

  /** `hex_decode`: pairs of octets, each read by `from_str_radix`. */
  function HexDecode(s: Bytes): Result<Bytes, ()> {
    if s == [] then Ok([])
    else if |s| < 2 then Err(())
    else
      var x :- HexByte(s[0], s[1]);
      var rest :- HexDecode(s[2..]);
      Ok([x] + rest)
  }

  lemma {:induction false} HexRoundTrip(b: Bytes)
    ensures HexDecode(HexEncode(b)) == Ok(b)
    ensures forall x | x in HexEncode(b) :: 0x30 <= x <= 0x39 || 0x61 <= x <= 0x66
    ensures |HexEncode(b)| == 2 * |b|
  {
    if b != [] {
      HexRoundTrip(b[1..]);
      var s := HexEncode(b);
      assert HexByte(s[0], s[1]) == Ok(b[0]);
      assert s[2..] == HexEncode(b[1..]);
      assert b == [b[0]] + b[1..];
    }
  }

  // ---- The canonical request

  function Get(headers: map<Bytes, Bytes>, name: Bytes): Result<Bytes, ()> {
    if Lower(name) in headers then Ok(headers[Lower(name)]) else Err(())
  }

  function Date(headers: map<Bytes, Bytes>): Result<Bytes, ()> {
    var d := Get(headers, Ascii("x-amz-date"));
    if d.Ok? then d else Get(headers, Ascii("date"))
  }

  function Payload(p: Primitives, r: Req): Auth<Bytes> {
    match Get(r.headers, Ascii("x-amz-content-sha256"))
    case Err(_) => Ok(HexEncode(p.sha(r.body)))
    case Ok(v) =>
      if v == Ascii("UNSIGNED-PAYLOAD") then Ok(v)
      else if |v| != 64 || HexDecode(v) != Ok(p.sha(r.body)) then Err(PayloadHash)
      else Ok(Lower(v))
  }

  function UpperByte(x: byte): byte {
    if 0x61 <= x <= 0x7A then x - 0x20 else x
  }

  function Upper(b: Bytes): Bytes {
    seq(|b|, i requires 0 <= i < |b| => UpperByte(b[i]))
  }

  function Join(names: seq<Bytes>, sep: byte): Bytes {
    if names == [] then [] else if |names| == 1 then names[0] else names[0] + [sep] + Join(names[1..], sep)
  }

  function CanonHeaders(p: Primitives, headers: map<Bytes, Bytes>, names: seq<Bytes>): Bytes {
    if names == [] then [] else
      var v := Get(headers, names[0]);
      Lower(names[0]) + [COLON] + p.text.trim(if v.Ok? then v.value else []) + [LF]
      + CanonHeaders(p, headers, names[1..])
  }

  function Assembled(p: Primitives, r: Req, headers: Bytes, names: seq<Bytes>, payload: Bytes): Bytes {
    var path := Q.UriEncoded(r.path, false);
    Upper(r.method_) + [LF] + (if path == [] then [SLASH] else path) + [LF] + Q.Canonical(p.text, r.query) + [LF]
    + headers + [LF] + Join(names, SEMI) + [LF] + payload
  }

  /** `canonical_with_signed`: the verifier's canonical request, names as the client listed them. */
  function CanonicalRequest(p: Primitives, r: Req, names: seq<Bytes>, payload: Bytes): Bytes {
    Assembled(p, r, CanonHeaders(p, r.headers, names), names, payload)
  }

  /** Header lines as the signer writes them: names taken as the keys they are. */
  function SignerHeaders(p: Primitives, headers: map<Bytes, Bytes>, names: seq<Bytes>): Bytes {
    if names == [] then [] else
      names[0] + [COLON] + (if names[0] in headers then p.text.trim(headers[names[0]]) else []) + [LF]
      + SignerHeaders(p, headers, names[1..])
  }

  /** `canonical`: the signer's canonical request, over the covered headers that are present. */
  function SignerRequest(p: Primitives, r: Req, payload: Bytes): Bytes {
    var names := Present(r.headers, Covered());
    Assembled(p, r, SignerHeaders(p, r.headers, names), names, payload)
  }

  /** The headers `sign` covers, in key order. */
  function Covered(): (names: seq<Bytes>)
    ensures |names| == 5
  {
    [Ascii("content-type"), Ascii("host"), Ascii("range"), Ascii("x-amz-content-sha256"), Ascii("x-amz-date")]
  }

  function Present(headers: map<Bytes, Bytes>, names: seq<Bytes>): seq<Bytes> {
    if names == [] then []
    else if names[0] in headers then [names[0]] + Present(headers, names[1..])
    else Present(headers, names[1..])
  }

  function Scope(short: Bytes, region: Bytes): Bytes {
    Join([short, region, Ascii("s3"), Ascii("aws4_request")], SLASH)
  }

  function Algorithm(): Bytes {
    Ascii("AWS4-HMAC-SHA256")
  }

  function StringToSign(p: Primitives, date: Bytes, short: Bytes, region: Bytes, canon: Bytes): Bytes {
    Algorithm() + [LF] + date + [LF] + Scope(short, region) + [LF] + HexEncode(p.sha(canon))
  }

  function SigningKey(p: Primitives, c: Creds, short: Bytes, region: Bytes): Digest {
    var kDate := p.hmac(Ascii("AWS4") + c.secret, short);
    var kRegion := p.hmac(kDate, region);
    var kService := p.hmac(kRegion, Ascii("s3"));
    p.hmac(kService, Ascii("aws4_request"))
  }

  /** The signature of a canonical request, as both ends compute it. */
  function Signature(p: Primitives, c: Creds, date: Bytes, short: Bytes, region: Bytes, canon: Bytes): Digest {
    p.hmac(SigningKey(p, c, short, region), StringToSign(p, date, short, region, canon))
  }

  function Short(date: Bytes): Bytes {
    if |date| < 8 then date else date[..8]
  }

  function Tag(name: string, value: Bytes): Bytes {
    Ascii(name) + value
  }

  function SignedTag(names: Bytes): Bytes {
    Tag("SignedHeaders=", names)
  }

  /** The three comma-separated parts of an Authorization value. */
  function Formatted(c: Creds, short: Bytes, region: Bytes, names: seq<Bytes>, sig: Bytes): Bytes {
    Algorithm() + [SPACE] + Tag("Credential=", Join([c.id, short, region, Ascii("s3"), Ascii("aws4_request")], SLASH))
    + [COMMA] + ([SPACE] + SignedTag(Join(names, SEMI)))
    + [COMMA] + ([SPACE] + Tag("Signature=", sig))
  }

  /** The date `sign` uses: the epoch if the request names none. */
  function DateOr(headers: map<Bytes, Bytes>): Bytes {
    match Date(headers) case Ok(d) => d case Err(_) => Ascii("19700101T000000Z")
  }

  /** The payload line `sign` writes: for a false hash in the header, the true one. */
  function SignedPayload(p: Primitives, r: Req): Bytes {
    match Payload(p, r) case Ok(x) => x case Err(_) => HexEncode(p.sha(r.body))
  }

  /** `sign`. */
  function Sign(p: Primitives, c: Creds, region: Bytes, r: Req): Bytes {
    var payload := SignedPayload(p, r);
    var names := Present(r.headers, Covered());
    var date := DateOr(r.headers);
    var canon := SignerRequest(p, r, payload);
    Formatted(c, Short(date), region, names, HexEncode(Signature(p, c, date, Short(date), region, canon)))
  }

  // ---- Parsing and verifying

  /** What the loop over the parts has found so far. */
  datatype Found = Found(credential: Result<(Bytes, Bytes, Bytes), ()>, signed: Result<seq<Bytes>, ()>,
                         signature: Result<Bytes, ()>)

  const NOTHING: Found := Found(Err(()), Err(()), Err(()))

  function Strip(s: Bytes, prefix: string): Result<Bytes, ()> {
    if Ascii(prefix) <= s then Ok(s[|prefix|..]) else Err(())
  }

  function AddPart(f: Found, part: Bytes): Auth<Found> {
    var c := Strip(part, "Credential=");
    if c.Ok? then
      var it := Split(c.value, SLASH);
      if |it| == 5 && it[3] == Ascii("s3") && it[4] == Ascii("aws4_request")
      then Ok(f.(credential := Ok((it[0], it[1], it[2]))))
      else Err(Malformed("credential scope"))
    else
      var h := Strip(part, "SignedHeaders=");
      if h.Ok? then Ok(f.(signed := Ok(Split(h.value, SEMI)))) else
        var s := Strip(part, "Signature=");
        if s.Ok? then Ok(f.(signature := Ok(s.value))) else Ok(f)
  }

  function AddParts(t: Text, parts: seq<Bytes>): Auth<Found> {
    if parts == [] then Ok(NOTHING) else
      var n := |parts| - 1;
      var f :- AddParts(t, parts[..n]);
      AddPart(f, t.trim(parts[n]))
  }

  datatype Parts = Parts(id: Bytes, short: Bytes, region: Bytes, signed: seq<Bytes>, signature: Bytes)

  function Complete(f: Found): Auth<Parts> {
    if f.credential.Err? then Err(Malformed("credential"))
    else if f.signed.Err? then Err(Malformed("signed headers"))
    else if f.signature.Err? then Err(Malformed("signature"))
    else Ok(Parts(f.credential.value.0, f.credential.value.1, f.credential.value.2, f.signed.value, f.signature.value))
  }

  function Parsed(t: Text, value: Bytes): Auth<Parts> {
    var rest := Strip(value, "AWS4-HMAC-SHA256");
    if rest.Err? then Err(Malformed("algorithm")) else
      var f :- AddParts(t, Split(t.trim(rest.value), COMMA));
      Complete(f)
  }

  /** `parse_authorization`. */
  method ParseAuthorization(t: Text, value: Bytes) returns (r: Auth<Parts>)
    ensures r == Parsed(t, value)
  {
    hide AddPart, Split;
    var rest := Strip(value, "AWS4-HMAC-SHA256");
    if rest.Err? { return Err(Malformed("algorithm")); }
    var parts := Split(t.trim(rest.value), COMMA);
    var found := NOTHING;
    for i := 0 to |parts|
      invariant AddParts(t, parts[..i]) == Ok(found)
    {
      assert parts[..i + 1][..i] == parts[..i];
      var next := AddPart(found, t.trim(parts[i]));
      if next.Err? {
        PartsStop(t, parts, i + 1);
        return Err(next.error);
      }
      found := next.value;
    }
    assert parts[..|parts|] == parts;
    return Complete(found);
  }

  lemma {:induction false} PartsStop(t: Text, parts: seq<Bytes>, n: nat)
    requires n <= |parts| && AddParts(t, parts[..n]).Err?
    ensures AddParts(t, parts) == AddParts(t, parts[..n])
    decreases |parts|
  {
    hide AddPart;
    if n < |parts| {
      var m := |parts| - 1;
      assert parts[..m][..n] == parts[..n];
      PartsStop(t, parts[..m], n);
    } else {
      assert parts[..n] == parts;
    }
  }

  /** `verify`. */
  function Verify(p: Primitives, c: Creds, r: Req): Auth<()> {
    var auth := Get(r.headers, Ascii("authorization"));
    if auth.Err? then Err(Missing) else
      var parts :- Parsed(p.text, auth.value);
      if parts.id != c.id then Err(UnknownKey) else
        var payload :- Payload(p, r);
        var date := Date(r.headers);
        if date.Err? then Err(Malformed("x-amz-date"))
        else if !(parts.short <= date.value) then Err(Malformed("date mismatch"))
        else
          var canon := CanonicalRequest(p, r, parts.signed, payload);
          var got := HexDecode(parts.signature);
          if got.Err? then Err(Malformed("signature hex"))
          else if got.value != Signature(p, c, date.value, parts.short, parts.region, canon) then Err(BadSignature)
          else Ok(())
  }

  // ---- What sign writes, verify reads

  /** No separator of the Authorization syntax occurs in the value. */
  predicate Clean(s: Bytes) {
    COMMA !in s && SLASH !in s
  }

  lemma {:induction false} SplitOfJoin(names: seq<Bytes>, sep: byte)
    requires names != [] && forall i | 0 <= i < |names| :: sep !in names[i]
    ensures Split(Join(names, sep), sep) == names
  {
    hide Split;
    Q.SplitNone(names[0], sep);
    if |names| > 1 {
      SplitOfJoin(names[1..], sep);
      Q.SplitAt(names[0], sep, Join(names[1..], sep));
      assert names == [names[0]] + names[1..];
    }
  }

  lemma {:induction false} JoinAvoids(names: seq<Bytes>, sep: byte, x: byte)
    requires x != sep && forall i | 0 <= i < |names| :: x !in names[i]
    ensures x !in Join(names, sep)
  {
    if |names| > 1 {
      JoinAvoids(names[1..], sep, x);
    }
  }

  lemma {:induction false} JoinLast(names: seq<Bytes>, sep: byte)
    requires names != [] && names[|names| - 1] != []
    ensures var (j, l) := (Join(names, sep), names[|names| - 1]);
            j != [] && j[|j| - 1] == l[|l| - 1]
  {
    if |names| > 1 {
      JoinLast(names[1..], sep);
    }
  }

  lemma CredentialPart(f: Found, c: Creds, short: Bytes, region: Bytes, t: Text)
    requires TrimLaw(t) && Clean(c.id) && Clean(short) && Clean(region)
    ensures var part := Tag("Credential=", Join([c.id, short, region, Ascii("s3"), Ascii("aws4_request")], SLASH));
            && COMMA !in part && t.trim(part) == part && Graphic(part[0])
            && AddPart(f, part) == Ok(f.(credential := Ok((c.id, short, region))))
  {
    hide Join, Split, TrimLaw;
    var it := [c.id, short, region, Ascii("s3"), Ascii("aws4_request")];
    var value := Join(it, SLASH);
    var part := Tag("Credential=", value);
    SplitOfJoin(it, SLASH);
    JoinAvoids(it, SLASH, COMMA);
    JoinLast(it, SLASH);
    assert part[|Ascii("Credential=")|..] == value;
    TrimPart(t, part);
  }

  lemma TrimPart(t: Text, part: Bytes)
    requires TrimLaw(t) && part != [] && Graphic(part[0]) && Graphic(part[|part| - 1])
    ensures t.trim(part) == part && t.trim([SPACE] + part) == part
  {
  }

  /** How a joined list of names splits again: no name at all comes back as one empty name. */
  function Reread(names: seq<Bytes>): seq<Bytes> {
    if names == [] then [[]] else names
  }

  lemma SignedPart(f: Found, names: seq<Bytes>, t: Text)
    requires TrimLaw(t) && forall i | 0 <= i < |names| :: Token(names[i])
    ensures var part := SignedTag(Join(names, SEMI));
            && COMMA !in part && t.trim([SPACE] + part) == part
            && AddPart(f, part) == Ok(f.(signed := Ok(Reread(names))))
  {
    hide Join, Split, TrimLaw, Token, AddPart, SignedTag, Reread;
    var value := Join(names, SEMI);
    NamesJoined(names);
    HeadersTag(f, value);
    HeadersEnds(t, value);
  }

  lemma HeadersEnds(t: Text, value: Bytes)
    requires TrimLaw(t) && (value != [] ==> Graphic(value[|value| - 1]))
    ensures t.trim([SPACE] + SignedTag(value)) == SignedTag(value)
  {
    hide TrimLaw;
    var part := SignedTag(value);
    if value == [] {
      assert part[|part| - 1] == Octet('=');
    }
    TrimPart(t, part);
  }

  lemma HeadersTag(f: Found, value: Bytes)
    requires COMMA !in value
    ensures var part := SignedTag(value);
            COMMA !in part && AddPart(f, part) == Ok(f.(signed := Ok(Split(value, SEMI))))
  {
    hide Split;
    var part := SignedTag(value);
    assert part[|Ascii("SignedHeaders=")|..] == value;
    assert part[0] == Octet('S') && Ascii("Credential=")[0] == Octet('C');
  }

  lemma NamesJoined(names: seq<Bytes>)
    requires forall i | 0 <= i < |names| :: Token(names[i])
    ensures var value := Join(names, SEMI);
            && COMMA !in value && Split(value, SEMI) == Reread(names)
            && (value != [] ==> Graphic(value[|value| - 1]))
  {
    hide Split;
    JoinAvoids(names, SEMI, COMMA);
    if names == [] {
      Q.SplitNone([], SEMI);
    } else {
      SplitOfJoin(names, SEMI);
      JoinLast(names, SEMI);
    }
  }

  lemma SignaturePart(f: Found, sig: Bytes, t: Text)
    requires TrimLaw(t) && sig != [] && forall x | x in sig :: 0x30 <= x <= 0x39 || 0x61 <= x <= 0x66
    ensures var part := Tag("Signature=", sig);
            && COMMA !in part && t.trim([SPACE] + part) == part && Graphic(part[|part| - 1])
            && AddPart(f, part) == Ok(f.(signature := Ok(sig)))
  {
    hide Split, TrimLaw;
    var part := Tag("Signature=", sig);
    assert sig[|sig| - 1] in sig && part[|part| - 1] == sig[|sig| - 1];
    assert part[|Ascii("Signature=")|..] == sig;
    assert part[0] == Octet('S') && Ascii("Credential=")[0] == Octet('C');
    assert part[4] == Octet('a') && Ascii("SignedHeaders=")[4] == Octet('e');
    TrimPart(t, part);
  }

  lemma ThreeParts(t: Text, a: Bytes, b: Bytes, c: Bytes)
    requires TrimLaw(t) && COMMA !in a && COMMA !in b && COMMA !in c
    requires a != [] && Graphic(a[0]) && c != [] && Graphic(c[|c| - 1])
    ensures Split(t.trim([SPACE] + (a + [COMMA] + ([SPACE] + b) + [COMMA] + ([SPACE] + c))), COMMA)
            == [a, [SPACE] + b, [SPACE] + c]
  {
    hide Split, TrimLaw;
    var (sb, sc) := ([SPACE] + b, [SPACE] + c);
    var x := a + [COMMA] + sb + [COMMA] + sc;
    TrimPart(t, x);
    assert x == a + [COMMA] + (sb + [COMMA] + sc);
    Q.SplitAt(a, COMMA, sb + [COMMA] + sc);
    Q.SplitAt(sb, COMMA, sc);
    Q.SplitNone(a, COMMA);
    Q.SplitNone(sb, COMMA);
    Q.SplitNone(sc, COMMA);
  }

  /** The parser recovers exactly what was formatted, but for an empty list of names. */
  lemma ParseOfFormat(t: Text, c: Creds, short: Bytes, region: Bytes, names: seq<Bytes>, sig: Bytes)
    requires TrimLaw(t) && Clean(c.id) && Clean(short) && Clean(region) && sig != []
    requires forall i | 0 <= i < |names| :: Token(names[i])
    requires forall x | x in sig :: 0x30 <= x <= 0x39 || 0x61 <= x <= 0x66
    ensures Parsed(t, Formatted(c, short, region, names, sig)) == Ok(Parts(c.id, short, region, Reread(names), sig))
  {
    hide Split, TrimLaw, AddPart, Tag, SignedTag, Join;
    var cred := Tag("Credential=", Join([c.id, short, region, Ascii("s3"), Ascii("aws4_request")], SLASH));
    var head := SignedTag(Join(names, SEMI));
    var tail := Tag("Signature=", sig);
    var f1 := NOTHING.(credential := Ok((c.id, short, region)));
    var f2 := f1.(signed := Ok(Reread(names)));
    CredentialPart(NOTHING, c, short, region, t);
    SignedPart(f1, names, t);
    SignaturePart(f2, sig, t);
    var rest := [SPACE] + (cred + [COMMA] + ([SPACE] + head) + [COMMA] + ([SPACE] + tail));
    var value := Formatted(c, short, region, names, sig);
    assert value == Algorithm() + rest;
    assert value[|Algorithm()|..] == rest;
    assert cred != [] by { TagNotEmpty("Credential=", Join([c.id, short, region, Ascii("s3"), Ascii("aws4_request")], SLASH)); }
    assert tail != [] by { TagNotEmpty("Signature=", sig); }
    ThreeParts(t, cred, head, tail);
    var parts := [cred, [SPACE] + head, [SPACE] + tail];
    var one: seq<Bytes> := [cred];
    assert parts[..2][..1] == one && parts[..2][1] == [SPACE] + head && one[..0] == [];
    assert AddParts(t, one) == Ok(f1);
    assert AddParts(t, parts[..2]) == Ok(f2);
  }

  lemma TagNotEmpty(name: string, value: Bytes)
    requires name != ""
    ensures Tag(name, value) != []
  {
  }

  lemma {:induction false} PresentNames(headers: map<Bytes, Bytes>, names: seq<Bytes>)
    ensures forall n | n in Present(headers, names) :: n in names && n in headers
  {
    if names != [] {
      PresentNames(headers, names[1..]);
    }
  }

  /** The covered names are lower-case tokens. */
  predicate Token(n: Bytes) {
    SEMI !in n && COMMA !in n && n != [] && Graphic(n[|n| - 1])
  }

  /** Letters, digits and hyphens. */
  predicate LowerToken(s: string) {
    s != "" && forall i | 0 <= i < |s| :: 'a' <= s[i] <= 'z' || '0' <= s[i] <= '9' || s[i] == '-'
  }

  lemma TokenOf(s: string)
    requires LowerToken(s)
    ensures Token(Ascii(s)) && Lower(Ascii(s)) == Ascii(s)
  {
    var n := Ascii(s);
    forall i | 0 <= i < |n| ensures Graphic(n[i]) && n[i] != SEMI && n[i] != COMMA && LowerByte(n[i]) == n[i] {
      assert n[i] == Octet(s[i]);
    }
  }

  lemma OtherToken(s: string)
    requires LowerToken(s) && s[0] != 'a'
    ensures Token(Ascii(s)) && Lower(Ascii(s)) == Ascii(s) && Ascii(s) != Ascii("authorization")
  {
    TokenOf(s);
    assert Ascii(s)[0] == Octet(s[0]) && Ascii("authorization")[0] == Octet('a');
    assert Octet(s[0]) == s[0] as int && Octet('a') == 'a' as int;
  }

  lemma CoveredAreTokens()
    ensures forall n | n in Covered() :: Token(n) && n != Ascii("authorization") && Lower(n) == n
  {
    hide Token, Lower, Ascii;
    OtherToken("content-type");
    OtherToken("host");
    OtherToken("range");
    OtherToken("x-amz-content-sha256");
    OtherToken("x-amz-date");
  }

  /** On present lower-case names the two ends write the same header lines. */
  lemma {:induction false} SameHeaders(p: Primitives, h: map<Bytes, Bytes>, k: map<Bytes, Bytes>, names: seq<Bytes>)
    requires forall i | 0 <= i < |names| :: names[i] in h && Lower(names[i]) == names[i] && Get(k, names[i]) == Ok(h[names[i]])
    ensures SignerHeaders(p, h, names) == CanonHeaders(p, k, names)
  {
    hide Get, Lower;
    if names != [] {
      assert names[0] in h && Lower(names[0]) == names[0] && Get(k, names[0]) == Ok(h[names[0]]);
      SameHeaders(p, h, k, names[1..]);
    }
  }

  lemma OtherHeader(h: map<Bytes, Bytes>, v: Bytes, s: string)
    requires LowerToken(s) && s[0] != 'a'
    ensures Get(h[Ascii("authorization") := v], Ascii(s)) == Get(h, Ascii(s))
  {
    OtherToken(s);
  }

  lemma OwnHeader(h: map<Bytes, Bytes>, v: Bytes)
    ensures Get(h[Ascii("authorization") := v], Ascii("authorization")) == Ok(v)
  {
    TokenOf("authorization");
  }

  /** The request with its Authorization header added. */
  function Attached(r: Req, value: Bytes): Req {
    r.(headers := r.headers[Ascii("authorization") := value])
  }

  /** The verifier, reading back the signer's list, rebuilds the signer's canonical request. */
  lemma SameCanonical(p: Primitives, r: Req, value: Bytes, payload: Bytes)
    ensures CanonicalRequest(p, Attached(r, value), Present(r.headers, Covered()), payload) == SignerRequest(p, r, payload)
  {
    hide Q.UriEncoded, Q.Canonical, Covered, CanonHeaders, SignerHeaders, Join, Lower, Ascii;
    var k := r.headers[Ascii("authorization") := value];
    var names := Present(r.headers, Covered());
    CoveredAreTokens();
    PresentNames(r.headers, Covered());
    forall i | 0 <= i < |names|
      ensures names[i] in r.headers && Lower(names[i]) == names[i] && Get(k, names[i]) == Ok(r.headers[names[i]])
    {
      assert names[i] in names;
    }
    SameHeaders(p, r.headers, k, names);
  }

  /** Without a covered header the verifier reads one empty name and rebuilds a longer canonical request. */
  lemma OtherCanonical(p: Primitives, r: Req, value: Bytes, payload: Bytes)
    requires Present(r.headers, Covered()) == []
    ensures CanonicalRequest(p, Attached(r, value), [[]], payload) != SignerRequest(p, r, payload)
  {
    hide Q.UriEncoded, Q.Canonical, Present;
    var one: seq<Bytes> := [[]];
    assert one[1..] == [] && |CanonHeaders(p, Attached(r, value).headers, one)| >= 2;
    assert Join(one, SEMI) == [] == Join([], SEMI);
    assert |CanonicalRequest(p, Attached(r, value), one, payload)| > |SignerRequest(p, r, payload)|;
  }

  /** Two canonical requests collide: under SHA-256, or their strings to sign under the MAC. */
  ghost predicate Meet(p: Primitives, c: Creds, date: Bytes, region: Bytes, x: Bytes, y: Bytes) {
    var (k, s, t) := (SigningKey(p, c, Short(date), region), StringToSign(p, date, Short(date), region, x),
                      StringToSign(p, date, Short(date), region, y));
    Collides(p.sha, {x, y}) || (s != t && p.hmac(k, s) == p.hmac(k, t))
  }

  lemma SameSignatureIff(p: Primitives, c: Creds, date: Bytes, region: Bytes, x: Bytes, y: Bytes)
    requires x != y
    ensures Signature(p, c, date, Short(date), region, x) == Signature(p, c, date, Short(date), region, y)
            <==> Meet(p, c, date, region, x, y)
  {
    hide SigningKey, HexEncode;
    var s, t := StringToSign(p, date, Short(date), region, x), StringToSign(p, date, Short(date), region, y);
    var lead := Algorithm() + [LF] + date + [LF] + Scope(Short(date), region) + [LF];
    assert s[|lead|..] == HexEncode(p.sha(x)) && t[|lead|..] == HexEncode(p.sha(y));
    HexRoundTrip(p.sha(x));
    HexRoundTrip(p.sha(y));
    if p.sha(x) == p.sha(y) {
      assert x in {x, y} && y in {x, y};
    }
  }

  lemma SignParses(p: Primitives, c: Creds, region: Bytes, r: Req)
    requires TrimLaw(p.text) && Clean(c.id) && Clean(region) && Clean(Short(DateOr(r.headers)))
    ensures var payload := SignedPayload(p, r);
            var date := DateOr(r.headers);
            var sig := Signature(p, c, date, Short(date), region, SignerRequest(p, r, payload));
            && HexDecode(HexEncode(sig)) == Ok(sig)
            && Parsed(p.text, Sign(p, c, region, r))
               == Ok(Parts(c.id, Short(date), region, Reread(Present(r.headers, Covered())), HexEncode(sig)))
  {
    hide TrimLaw, Parsed, SignerRequest, Signature, HexEncode, HexDecode, Formatted, Get, Present, Covered, Lower, Short, Payload;
    var names, date := Present(r.headers, Covered()), DateOr(r.headers);
    var payload := SignedPayload(p, r);
    var sig := Signature(p, c, date, Short(date), region, SignerRequest(p, r, payload));
    HexRoundTrip(sig);
    CoveredAreTokens();
    PresentNames(r.headers, Covered());
    assert forall i | 0 <= i < |names| :: names[i] in names && Token(names[i]);
    ParseOfFormat(p.text, c, Short(date), region, names, HexEncode(sig));
  }

  lemma AttachedKeeps(p: Primitives, r: Req, value: Bytes)
    ensures Payload(p, Attached(r, value)) == Payload(p, r) && Date(Attached(r, value).headers) == Date(r.headers)
    ensures Get(Attached(r, value).headers, Ascii("authorization")) == Ok(value)
  {
    hide Get, Lower, HexDecode, HexEncode;
    OwnHeader(r.headers, value);
    OtherHeader(r.headers, value, "x-amz-date");
    OtherHeader(r.headers, value, "date");
    OtherHeader(r.headers, value, "x-amz-content-sha256");
  }

  /**
   * What `verify` answers to what `sign` wrote, case by case. The access key, region and
   * date are free of the syntax's own separators. A dishonest payload hash or a missing
   * date is reported; with a covered header the signature is accepted; without one it is
   * refused, unless the two canonical requests collide.
   */
  lemma VerdictOnSigned(p: Primitives, c: Creds, region: Bytes, r: Req)
    requires TrimLaw(p.text) && Clean(c.id) && Clean(region) && Clean(Short(DateOr(r.headers)))
    ensures var signed := Attached(r, Sign(p, c, region, r));
            Verify(p, c, signed) ==
            if Payload(p, r).Err? then Err(Payload(p, r).error)
            else if Date(r.headers).Err? then Err(Malformed("x-amz-date"))
            else if Present(r.headers, Covered()) != [] then Ok(())
            else
              var (mine, theirs) := (SignerRequest(p, r, Payload(p, r).value),
                                     CanonicalRequest(p, signed, [[]], Payload(p, r).value));
              if Meet(p, c, DateOr(r.headers), region, mine, theirs) then Ok(()) else Err(BadSignature)
  {
    hide TrimLaw, Parsed, CanonicalRequest, SignerRequest, Signature, HexEncode, HexDecode, Get, Present, Covered, Sign, Payload, Date, Meet;
    var value := Sign(p, c, region, r);
    AttachedKeeps(p, r, value);
    SignParses(p, c, region, r);
    if Payload(p, r).Ok? && Date(r.headers).Ok? {
      if Present(r.headers, Covered()) != [] {
        SameCanonical(p, r, value, Payload(p, r).value);
      } else {
        OtherCanonical(p, r, value, Payload(p, r).value);
        SameSignatureIff(p, c, DateOr(r.headers), region, SignerRequest(p, r, Payload(p, r).value),
                         CanonicalRequest(p, Attached(r, value), [[]], Payload(p, r).value));
      }
    }
  }

  /** What `sign` produced, `verify` accepts: for an honest payload hash, a named date and a covered header. */
  lemma VerifyAcceptsSign(p: Primitives, c: Creds, region: Bytes, r: Req)
    requires TrimLaw(p.text) && Payload(p, r).Ok? && Date(r.headers).Ok? && Present(r.headers, Covered()) != []
    requires Clean(c.id) && Clean(region) && Clean(Short(Date(r.headers).value))
    ensures Verify(p, c, Attached(r, Sign(p, c, region, r))) == Ok(())
  {
    hide TrimLaw, Verify, Sign, Payload, Present, Covered, Meet;
    VerdictOnSigned(p, c, region, r);
  }

  // ---- The laws can be met

  function Plain(b: Bytes): Bytes {
    if b != [] && b[0] == SPACE then Plain(b[1..]) else b
  }

  lemma {:induction false} PlainCuts(b: Bytes)
    ensures forall x | x in Plain(b) :: x in b
  {
    if b != [] && b[0] == SPACE {
      PlainCuts(b[1..]);
    }
  }

  /** The laws asked of `str::trim` and `from_utf8_lossy` are met by some operations. */
  lemma LawsCanBeMet() returns (t: Text)
    ensures TrimLaw(t) && CutLaw(t) && Q.LossyLaw(t)
  {
    forall s, x | x in Plain(s) ensures x in s { PlainCuts(s); }
    t := Text(Plain, b => if Utf8.Valid(b) then b else []);
    forall x ensures Plain([SPACE] + x) == Plain(x) {
      assert ([SPACE] + x)[1..] == x;
    }
    assert Utf8.Valid([]);
  }
}
