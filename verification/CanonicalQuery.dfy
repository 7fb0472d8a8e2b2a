/** The canonical query string of AWS Signature Version 4 (crates/nas-gateway/src/sigv4.rs:104-119, 185-215). */
module CanonicalQuery {
  import opened Wrappers
  import opened Bytes
  import opened Encoding
  import opened Http
  import AddrOrder
  import Utf8

  const AMP: byte := 0x26
  const EQUALS: byte := 0x3D
  const SLASH: byte := 0x2F

  /** What `from_utf8_lossy` promises: valid text, and valid text unchanged. */
  ghost predicate LossyLaw(t: Text) {
    forall b :: Utf8.Valid(t.lossy(b)) && (Utf8.Valid(b) ==> t.lossy(b) == b)
  }

  // ---- Percent-encoding

  predicate Unreserved(b: byte) {
    0x41 <= b <= 0x5A || 0x61 <= b <= 0x7A || 0x30 <= b <= 0x39 || b == 0x2D || b == 0x5F || b == 0x2E || b == 0x7E
  }

  function UpperHex(n: nat): byte
    requires n < 16
  {
    if n < 10 then 0x30 + n else 0x41 + n - 10
  }

  function EncodeByte(b: byte, slash: bool): Bytes {
    if Unreserved(b) || (b == SLASH && !slash) then [b] else [PERCENT, UpperHex(b / 16), UpperHex(b % 16)]
  }

  function UriEncoded(s: Bytes, slash: bool): Bytes {
    if s == [] then [] else EncodeByte(s[0], slash) + UriEncoded(s[1..], slash)
  }

  lemma {:induction false} UriEncodedAppend(a: Bytes, b: Bytes, slash: bool)
    ensures UriEncoded(a + b, slash) == UriEncoded(a, slash) + UriEncoded(b, slash)
  {
    hide EncodeByte;
    if a == [] {
      assert a + b == b;
    } else {
      UriEncodedAppend(a[1..], b, slash);
      assert (a + b)[1..] == a[1..] + b;
    }
  }

  function HexDigit(n: nat): char
    requires n < 16
  {
    "0123456789ABCDEF"[n]
  }

  /** Letters, digits and four marks stay as they are, and a slash if it may; every other octet becomes its two digits. */
  lemma EncodedOctet(b: byte, slash: bool)
    ensures var c := b as char;
            var plain := 'A' <= c <= 'Z' || 'a' <= c <= 'z' || '0' <= c <= '9' || c in "-_.~" || (c == '/' && !slash);
            UriEncoded([b], slash) == if plain then [b] else Ascii(['%', HexDigit(b / 16), HexDigit(b % 16)])
  {
    hide HexDigit, UpperHex;
    var one: Bytes := [b];
    assert one[1..] == [] && UriEncoded(one, slash) == EncodeByte(b, slash);
    DigitsAgree(b / 16);
    DigitsAgree(b % 16);
    assert PERCENT == Octet('%');
  }

  lemma DigitsAgree(n: nat)
    requires n < 16
    ensures UpperHex(n) == Octet(HexDigit(n))
  {
  }

  /** `uri_encode`. */
  method UriEncode(s: Bytes, slash: bool) returns (out: Bytes)
    ensures out == UriEncoded(s, slash)
  {
    out := [];
    for i := 0 to |s|
      invariant out == UriEncoded(s[..i], slash)
    {
      assert s[..i + 1] == s[..i] + [s[i]];
      UriEncodedAppend(s[..i], [s[i]], slash);
      assert UriEncoded([s[i]], slash) == EncodeByte(s[i], slash) + [];
      if Unreserved(s[i]) {
        out := out + [s[i]];
      } else if s[i] == SLASH && !slash {
        out := out + [SLASH];
      } else {
        out := out + [PERCENT, UpperHex(s[i] / 16), UpperHex(s[i] % 16)];
      }
    }
    assert s[..|s|] == s;
  }

  /** The octets an encoded component is made of. */
  predicate Plain(s: Bytes) {
    forall b | b in s :: Unreserved(b) || b == PERCENT
  }

  lemma {:induction false} EncodedIsPlain(s: Bytes)
    ensures Plain(UriEncoded(s, true))
  {
    if s != [] {
      EncodedIsPlain(s[1..]);
      assert Plain(EncodeByte(s[0], true));
    }
  }

  lemma DecodeByte(b: byte, slash: bool, rest: Bytes)
    ensures PercentDecoded(EncodeByte(b, slash) + rest) == [b] + PercentDecoded(rest)
  {
    var x := EncodeByte(b, slash) + rest;
    assert x[|EncodeByte(b, slash)|..] == rest;
    if |EncodeByte(b, slash)| == 3 {
      assert x[1] == UpperHex(b / 16) && x[2] == UpperHex(b % 16);
      assert HexByte(x[1], x[2]) == Ok(b);
    }
  }

  /** Decoding undoes encoding, for every octet string. */
  lemma {:induction false} DecodeOfEncode(s: Bytes, slash: bool)
    ensures PercentDecoded(UriEncoded(s, slash)) == s
  {
    hide EncodeByte;
    if s != [] {
      DecodeByte(s[0], slash, UriEncoded(s[1..], slash));
      DecodeOfEncode(s[1..], slash);
    }
  }

  // ---- Components and parameters

  function Spaced(s: Bytes): Bytes {
    seq(|s|, i requires 0 <= i < |s| => if s[i] == PLUS then SPACE else s[i])
  }

  /** Decode a component, then encode it again. */
  function Normal(t: Text, s: Bytes): Bytes {
    UriEncoded(t.lossy(PercentDecoded(Spaced(s))), true)
  }

  lemma SpacedPlain(n: Bytes)
    requires Plain(n)
    ensures Spaced(n) == n
  {
    forall i | 0 <= i < |n| ensures n[i] != PLUS {
      assert n[i] in n;
    }
  }

  lemma NormalIsNormal(t: Text, s: Bytes)
    requires LossyLaw(t)
    ensures Normal(t, Normal(t, s)) == Normal(t, s) && Plain(Normal(t, s))
  {
    var u := t.lossy(PercentDecoded(Spaced(s)));
    hide UriEncoded, PercentDecoded, Spaced, Plain, Utf8.Valid;
    EncodedIsPlain(u);
    DecodeOfEncode(u, true);
    SpacedPlain(UriEncoded(u, true));
  }

  type Param = (Bytes, Bytes)

  function ParamOf(t: Text, piece: Bytes): Param {
    match SplitOnce(piece, EQUALS)
    case Ok(kv) => (Normal(t, kv.0), Normal(t, kv.1))
    case Err(_) => (Normal(t, piece), [])
  }

  /** The non-empty pieces between ampersands. */
  function Pieces(query: Bytes): seq<Bytes> {
    NonEmpty(Split(query, AMP))
  }

  function NonEmpty(pieces: seq<Bytes>): seq<Bytes> {
    if pieces == [] then [] else
      if pieces[0] == [] then NonEmpty(pieces[1..]) else [pieces[0]] + NonEmpty(pieces[1..])
  }

  function Params(t: Text, pieces: seq<Bytes>): (r: seq<Param>)
    ensures |r| == |pieces|
  {
    if pieces == [] then [] else [ParamOf(t, pieces[0])] + Params(t, pieces[1..])
  }

  // ---- Sorting

  /** Name first, then value. */
  predicate Before(p: Param, q: Param) {
    AddrOrder.Less(p.0, q.0) || (p.0 == q.0 && (p.1 == q.1 || AddrOrder.Less(p.1, q.1)))
  }

  lemma BeforeTotal(p: Param, q: Param)
    ensures Before(p, q) || Before(q, p)
    ensures Before(p, q) && Before(q, p) ==> p == q
  {
    AddrOrder.LessTotal(p.0, q.0);
    AddrOrder.LessTotal(p.1, q.1);
  }

  lemma BeforeTransitive(p: Param, q: Param, r: Param)
    requires Before(p, q) && Before(q, r)
    ensures Before(p, r)
  {
    if AddrOrder.Less(p.0, q.0) && AddrOrder.Less(q.0, r.0) {
      AddrOrder.LessTransitive(p.0, q.0, r.0);
    }
    if AddrOrder.Less(p.1, q.1) && AddrOrder.Less(q.1, r.1) {
      AddrOrder.LessTransitive(p.1, q.1, r.1);
    }
  }

  predicate Sorted(s: seq<Param>) {
    forall i, j | 0 <= i < j < |s| :: Before(s[i], s[j])
  }

  function InsertParam(p: Param, s: seq<Param>): seq<Param> {
    if s == [] || Before(p, s[0]) then [p] + s else [s[0]] + InsertParam(p, s[1..])
  }

  lemma {:induction false} InsertSorts(p: Param, s: seq<Param>)
    requires Sorted(s)
    ensures Sorted(InsertParam(p, s)) && multiset(InsertParam(p, s)) == multiset(s) + multiset{p}
  {
    if s == [] {
    } else if Before(p, s[0]) {
      forall j | 1 <= j < |s| ensures Before(p, s[j]) { BeforeTransitive(p, s[0], s[j]); }
    } else {
      InsertSorts(p, s[1..]);
      BeforeTotal(p, s[0]);
      var r := InsertParam(p, s[1..]);
      assert s == [s[0]] + s[1..];
      forall q | q in r ensures Before(s[0], q) {
        assert q in multiset(r);
        assert q in s[1..] || q == p;
      }
    }
  }

  function SortParams(s: seq<Param>): (r: seq<Param>)
    ensures Sorted(r) && multiset(r) == multiset(s)
  {
    if s == [] then [] else
      InsertSorts(s[0], SortParams(s[1..]));
      assert s == [s[0]] + s[1..];
      InsertParam(s[0], SortParams(s[1..]))
  }

  lemma TailBag<T>(s: seq<T>)
    requires s != []
    ensures multiset(s[1..]) == multiset(s) - multiset{s[0]}
  {
    assert s == [s[0]] + s[1..];
  }

  lemma FirstIsLeast(s: seq<Param>, p: Param)
    requires Sorted(s) && p in s
    ensures s[0] == p || Before(s[0], p)
  {
    hide Before;
    var i :| 0 <= i < |s| && s[i] == p;
  }

  /** A bag of parameters has one sorted order. */
  lemma {:induction false} SortedUnique(s: seq<Param>, r: seq<Param>)
    requires Sorted(s) && Sorted(r) && multiset(s) == multiset(r)
    ensures s == r
  {
    hide Before;
    if s == [] {
      assert |multiset(r)| == 0;
    } else {
      assert s[0] in multiset(r) && |multiset(s)| == |multiset(r)|;
      assert r[0] in multiset(s);
      FirstIsLeast(s, r[0]);
      FirstIsLeast(r, s[0]);
      BeforeTotal(s[0], r[0]);
      TailBag(s);
      TailBag(r);
      SortedUnique(s[1..], r[1..]);
      assert s == [s[0]] + s[1..] && r == [r[0]] + r[1..];
    }
  }

  // ---- The canonical form

  function Render(p: Param): Bytes {
    p.0 + [EQUALS] + p.1
  }

  function Rendered(ps: seq<Param>): Bytes {
    if ps == [] then [] else if |ps| == 1 then Render(ps[0]) else Render(ps[0]) + [AMP] + Rendered(ps[1..])
  }

  /** `canonical_query`. */
  function Canonical(t: Text, query: Bytes): Bytes {
    Rendered(SortParams(Params(t, Pieces(query))))
  }

  lemma {:induction false} ParamsOfBag(t: Text, a: seq<Bytes>, b: seq<Bytes>)
    requires multiset(a) == multiset(b)
    ensures multiset(Params(t, a)) == multiset(Params(t, b))
  {
    hide ParamOf, Params;
    if a == [] {
      assert |multiset(b)| == 0;
    } else {
      assert a == [a[0]] + a[1..];
      assert a[0] in multiset(b);
      var i :| 0 <= i < |b| && b[i] == a[0];
      var x, y := b[..i], b[i + 1..];
      assert b == x + ([a[0]] + y);
      Without(x, a[0], y);
      TailBag(a);
      ParamsOfBag(t, a[1..], x + y);
      ParamsWith(t, x, a[0], y);
      ParamsWith(t, [], a[0], a[1..]);
      assert [] + a[1..] == a[1..] && [] + ([a[0]] + a[1..]) == a;
    }
  }

  lemma ParamsWith(t: Text, x: seq<Bytes>, p: Bytes, y: seq<Bytes>)
    ensures multiset(Params(t, x + ([p] + y))) == multiset(Params(t, x + y)) + multiset{ParamOf(t, p)}
  {
    hide ParamOf;
    ParamsAppend(t, x, [p] + y);
    ParamsAppend(t, x, y);
    assert ([p] + y)[1..] == y;
    Without(Params(t, x), ParamOf(t, p), Params(t, y));
  }

  lemma Without<T>(x: seq<T>, p: T, y: seq<T>)
    ensures multiset(x + ([p] + y)) - multiset{p} == multiset(x + y)
    ensures multiset(x + ([p] + y)) == multiset(x + y) + multiset{p}
  {
  }

  lemma {:induction false} ParamsAppend(t: Text, x: seq<Bytes>, y: seq<Bytes>)
    ensures Params(t, x + y) == Params(t, x) + Params(t, y)
  {
    hide ParamOf;
    if x == [] {
      assert x + y == y;
    } else {
      ParamsAppend(t, x[1..], y);
      assert (x + y)[1..] == x[1..] + y;
    }
  }

  /** Any reordering of the parameters, and any empty pieces, give the same canonical form. */
  lemma OrderDoesNotMatter(t: Text, q: Bytes, r: Bytes)
    requires multiset(Pieces(q)) == multiset(Pieces(r))
    ensures Canonical(t, q) == Canonical(t, r)
  {
    ParamsOfBag(t, Pieces(q), Pieces(r));
    SortedUnique(SortParams(Params(t, Pieces(q))), SortParams(Params(t, Pieces(r))));
  }

  // ---- Reading a canonical form again

  lemma PrependAppend(x: byte, sep: byte, l: seq<Bytes>, r: seq<Bytes>)
    requires l != []
    ensures Prepend(x, sep, l + r) == Prepend(x, sep, l) + r
  {
    assert (l + r)[1..] == l[1..] + r;
  }

  lemma FirstPiece(sep: byte, b: Bytes)
    ensures Prepend(sep, sep, Split(b, sep)) == Split([], sep) + Split(b, sep)
  {
  }

  lemma {:induction false} SplitAt(a: Bytes, sep: byte, b: Bytes)
    ensures Split(a + [sep] + b, sep) == Split(a, sep) + Split(b, sep)
  {
    hide Prepend;
    var x := a + [sep] + b;
    if a == [] {
      assert x[1..] == b;
      FirstPiece(sep, b);
    } else {
      SplitAt(a[1..], sep, b);
      assert x[1..] == a[1..] + [sep] + b;
      PrependAppend(a[0], sep, Split(a[1..], sep), Split(b, sep));
    }
  }

  lemma {:induction false} SplitNone(a: Bytes, sep: byte)
    requires sep !in a
    ensures Split(a, sep) == [a]
  {
    if a != [] {
      SplitNone(a[1..], sep);
      assert a == [a[0]] + a[1..];
    }
  }

  lemma {:induction false} SplitOnceAt(a: Bytes, sep: byte, b: Bytes)
    requires sep !in a
    ensures SplitOnce(a + [sep] + b, sep) == Ok((a, b))
  {
    var x := a + [sep] + b;
    if a == [] {
      assert x[1..] == b;
    } else {
      SplitOnceAt(a[1..], sep, b);
      assert x[1..] == a[1..] + [sep] + b && a == [a[0]] + a[1..];
    }
  }

  /** A parameter already in normal form. */
  ghost predicate Canon(t: Text, p: Param) {
    Plain(p.0) && Plain(p.1) && Normal(t, p.0) == p.0 && Normal(t, p.1) == p.1
  }

  lemma RenderedParam(t: Text, p: Param)
    requires Canon(t, p)
    ensures AMP !in Render(p) && Render(p) != [] && ParamOf(t, Render(p)) == p
  {
    SplitOnceAt(p.0, EQUALS, p.1);
  }

  lemma {:induction false} RenderedPieces(t: Text, ps: seq<Param>)
    requires forall i | 0 <= i < |ps| :: Canon(t, ps[i])
    ensures Params(t, Pieces(Rendered(ps))) == ps
  {
    hide Canon, Render, ParamOf, Split;
    if ps == [] {
      SplitNone([], AMP);
      var one: seq<Bytes> := [[]];
      assert one[1..] == [] && NonEmpty(one) == NonEmpty([]);
    } else {
      RenderedParam(t, ps[0]);
      SplitNone(Render(ps[0]), AMP);
      assert ps == [ps[0]] + ps[1..];
      if |ps| > 1 {
        RenderedPieces(t, ps[1..]);
        SplitAt(Render(ps[0]), AMP, Rendered(ps[1..]));
        var s := Split(Rendered(ps), AMP);
        assert s[0] == Render(ps[0]) && s[1..] == Split(Rendered(ps[1..]), AMP);
        assert Pieces(Rendered(ps))[1..] == Pieces(Rendered(ps[1..]));
      } else {
        assert NonEmpty([Render(ps[0])]) == [Render(ps[0])];
      }
    }
  }

  lemma ParamOfIsCanon(t: Text, piece: Bytes)
    requires LossyLaw(t)
    ensures Canon(t, ParamOf(t, piece))
  {
    hide Normal, LossyLaw;
    match SplitOnce(piece, EQUALS) {
      case Ok(kv) => NormalIsNormal(t, kv.0); NormalIsNormal(t, kv.1);
      case Err(_) => NormalIsNormal(t, piece); NormalOfNothing(t);
    }
  }

  lemma NormalOfNothing(t: Text)
    requires LossyLaw(t)
    ensures Normal(t, []) == [] && Plain([])
  {
    assert Spaced([]) == [] && PercentDecoded([]) == [] && Utf8.Valid([]);
  }

  lemma {:induction false} ParamsAreCanon(t: Text, pieces: seq<Bytes>)
    requires LossyLaw(t)
    ensures forall p | p in Params(t, pieces) :: Canon(t, p)
  {
    hide Canon, LossyLaw, ParamOf;
    if pieces != [] {
      ParamsAreCanon(t, pieces[1..]);
      ParamOfIsCanon(t, pieces[0]);
    }
  }

  /** Canonicalising twice is canonicalising once. */
  lemma CanonicalIdempotent(t: Text, query: Bytes)
    requires LossyLaw(t)
    ensures Canonical(t, Canonical(t, query)) == Canonical(t, query)
  {
    hide Canon, LossyLaw, ParamOf, Pieces, Rendered;
    var ps := Params(t, Pieces(query));
    var sorted := SortParams(ps);
    ParamsAreCanon(t, Pieces(query));
    forall i | 0 <= i < |sorted| ensures Canon(t, sorted[i]) {
      assert sorted[i] in multiset(sorted);
      assert sorted[i] in ps;
    }
    RenderedPieces(t, sorted);
    SortedUnique(SortParams(sorted), sorted);
  }

  // ---- What a query means

  /** Text as a form writes it: a plus for a blank, an escape for whatever is reserved. */
  function FormEncoded(s: Bytes): Bytes {
    if s == [] then [] else (if s[0] == SPACE then [PLUS] else EncodeByte(s[0], true)) + FormEncoded(s[1..])
  }

  lemma SpacedAppend(a: Bytes, b: Bytes)
    ensures Spaced(a + b) == Spaced(a) + Spaced(b)
  {
  }

  lemma {:induction false} FormDecodes(s: Bytes)
    ensures PercentDecoded(Spaced(FormEncoded(s))) == s
    ensures AMP !in FormEncoded(s) && EQUALS !in FormEncoded(s)
  {
    if s != [] {
      FormDecodes(s[1..]);
      var first, rest := if s[0] == SPACE then [PLUS] else EncodeByte(s[0], true), FormEncoded(s[1..]);
      SpacedAppend(first, rest);
      if s[0] == SPACE {
        assert Spaced(first) == [SPACE];
        var x := [SPACE] + Spaced(rest);
        assert x[1..] == Spaced(rest);
      } else {
        assert Plain(first);
        SpacedPlain(first);
        DecodeByte(s[0], true, Spaced(rest));
      }
    }
  }

  /** Parameters as a form writes them. */
  function FormWritten(ps: seq<Param>): Bytes {
    if ps == [] then [] else
      var first := FormEncoded(ps[0].0) + [EQUALS] + FormEncoded(ps[0].1);
      if |ps| == 1 then first else first + [AMP] + FormWritten(ps[1..])
  }

  /** Parameters, names and values percent-encoded. */
  function Encodeds(ps: seq<Param>): (r: seq<Param>)
    ensures |r| == |ps| && forall i | 0 <= i < |ps| :: r[i] == (UriEncoded(ps[i].0, true), UriEncoded(ps[i].1, true))
  {
    seq(|ps|, i requires 0 <= i < |ps| => (UriEncoded(ps[i].0, true), UriEncoded(ps[i].1, true)))
  }

  lemma FormParam(t: Text, p: Param)
    requires LossyLaw(t) && Utf8.Valid(p.0) && Utf8.Valid(p.1)
    ensures var piece := FormEncoded(p.0) + [EQUALS] + FormEncoded(p.1);
            && AMP !in piece && piece != []
            && ParamOf(t, piece) == (UriEncoded(p.0, true), UriEncoded(p.1, true))
  {
    hide FormEncoded, UriEncoded, PercentDecoded, Spaced, Utf8.Valid;
    FormDecodes(p.0);
    FormDecodes(p.1);
    SplitOnceAt(FormEncoded(p.0), EQUALS, FormEncoded(p.1));
  }

  lemma {:induction false} FormPieces(t: Text, ps: seq<Param>)
    requires LossyLaw(t) && forall i | 0 <= i < |ps| :: Utf8.Valid(ps[i].0) && Utf8.Valid(ps[i].1)
    ensures Params(t, Pieces(FormWritten(ps))) == Encodeds(ps)
  {
    hide LossyLaw, ParamOf, Split, FormEncoded, UriEncoded, Utf8.Valid;
    if ps == [] {
      SplitNone([], AMP);
      var one: seq<Bytes> := [[]];
      assert one[1..] == [] && NonEmpty(one) == NonEmpty([]);
    } else {
      var first := FormEncoded(ps[0].0) + [EQUALS] + FormEncoded(ps[0].1);
      FormParam(t, ps[0]);
      SplitNone(first, AMP);
      if |ps| > 1 {
        FormPieces(t, ps[1..]);
        SplitAt(first, AMP, FormWritten(ps[1..]));
        var s := Split(FormWritten(ps), AMP);
        assert s == [first] + Split(FormWritten(ps[1..]), AMP);
        assert s[1..] == Split(FormWritten(ps[1..]), AMP);
        assert Pieces(FormWritten(ps)) == [first] + Pieces(FormWritten(ps[1..]));
        assert Pieces(FormWritten(ps))[1..] == Pieces(FormWritten(ps[1..]));
        assert Encodeds(ps) == [Encodeds(ps)[0]] + Encodeds(ps[1..]);
      } else {
        var one: seq<Bytes> := [first];
        assert one[1..] == [] && NonEmpty(one) == [first] + NonEmpty([]);
        assert Params(t, one) == [ParamOf(t, first)] + Params(t, []);
      }
    }
  }

  /**
   * What a canonical query is: of the parameters a form wrote, every name and value
   * percent-encoded, in order of names and then of values.
   */
  lemma CanonicalOfForm(t: Text, ps: seq<Param>)
    requires LossyLaw(t) && forall i | 0 <= i < |ps| :: Utf8.Valid(ps[i].0) && Utf8.Valid(ps[i].1)
    ensures var sorted := SortParams(Encodeds(ps));
            && Canonical(t, FormWritten(ps)) == Rendered(sorted) && multiset(sorted) == multiset(Encodeds(ps))
            && forall i, j | 0 <= i < j < |sorted| ::
                 || AddrOrder.Less(sorted[i].0, sorted[j].0)
                 || (sorted[i].0 == sorted[j].0 && (sorted[i].1 == sorted[j].1 || AddrOrder.Less(sorted[i].1, sorted[j].1)))
  {
    hide Pieces, Params, Rendered, FormWritten, Utf8.Valid, LossyLaw;
    FormPieces(t, ps);
    var sorted := SortParams(Encodeds(ps));
    assert forall i, j | 0 <= i < j < |sorted| :: Before(sorted[i], sorted[j]);
  }
}
