/** Lease deltas and checkpoints (crates/nas-lease/src/record.rs). */
module LeaseRecord {
  import opened Wrappers
  import opened Bytes
  import opened Encoding
  import opened AddrOrder
  import Merkle
  import S = Signing

  datatype LeaseError =
    | DecodeFailed(e: DecodeError)
    | BadWidth(field: string, want: nat, got: nat)
    | FieldCount(want: nat, got: nat)
    | RaggedAddrs(bytes: nat)
    | GenesisMismatch(seqno: u64)
    | BadSignature
    | NonCanonical(field: string)
    | CountMismatch(declared: u64, actual: u64)

  type Outcome<T> = Result<T, LeaseError>

  const ADDR_LEN: nat := 32

  // ---- Address lists

  function Packed(addrs: seq<Addr>): (b: Bytes)
    ensures |b| == ADDR_LEN * |addrs|
  {
    if addrs == [] then [] else addrs[0] + Packed(addrs[1..])
  }

  lemma {:induction false} PackedAppend(addrs: seq<Addr>, a: Addr)
    ensures Packed(addrs + [a]) == Packed(addrs) + a
  {
    if addrs == [] {
      assert Packed([a]) == a + Packed([]);
    } else {
      PackedAppend(addrs[1..], a);
      assert (addrs + [a])[1..] == addrs[1..] + [a];
    }
  }

  /** `pack`. */
  method Pack(addrs: seq<Addr>) returns (out: Bytes)
    ensures out == Packed(addrs)
  {
    out := [];
    for i := 0 to |addrs|
      invariant out == Packed(addrs[..i])
    {
      assert addrs[..i + 1] == addrs[..i] + [addrs[i]];
      PackedAppend(addrs[..i], addrs[i]);
      out := out + addrs[i];
    }
    assert addrs[..|addrs|] == addrs;
  }

  /** 32-octet chunks. */
  function Chunks(b: Bytes): (r: seq<Addr>)
    requires |b| % ADDR_LEN == 0
    ensures Packed(r) == b
  {
    if b == [] then [] else
      var rest := Chunks(b[ADDR_LEN..]);
      assert ([b[..ADDR_LEN]] + rest)[1..] == rest;
      [b[..ADDR_LEN]] + rest
  }

  lemma {:induction false} ChunksOfPacked(addrs: seq<Addr>)
    ensures |Packed(addrs)| % ADDR_LEN == 0 && Chunks(Packed(addrs)) == addrs
  {
    if addrs != [] {
      ChunksOfPacked(addrs[1..]);
      var b := Packed(addrs);
      assert b[..ADDR_LEN] == addrs[0] && b[ADDR_LEN..] == Packed(addrs[1..]);
      assert addrs == [addrs[0]] + addrs[1..];
    }
  }

  lemma PackedInjective(a: seq<Addr>, b: seq<Addr>)
    requires Packed(a) == Packed(b)
    ensures a == b
  {
    ChunksOfPacked(a);
    ChunksOfPacked(b);
  }

  /** `check_canonical` compares neighbours only. */
  predicate NeighboursAscend(addrs: seq<Addr>) {
    forall i | 0 <= i < |addrs| - 1 :: Less(addrs[i], addrs[i + 1])
  }

  lemma {:induction false} NeighboursSuffice(addrs: seq<Addr>)
    ensures NeighboursAscend(addrs) <==> Ascending(addrs)
  {
    if |addrs| >= 2 {
      var t := addrs[1..];
      NeighboursSuffice(t);
      if NeighboursAscend(addrs) {
        assert NeighboursAscend(t) by {
          assert forall i | 0 <= i < |t| - 1 :: Less(addrs[i + 1], addrs[i + 1 + 1]) && t[i] == addrs[i + 1];
        }
        forall j | 1 <= j < |addrs| ensures Less(addrs[0], addrs[j]) {
          assert Less(addrs[0], addrs[0 + 1]);
          if j > 1 {
            assert Less(t[0], t[j - 1]);
            LessTransitive(addrs[0], addrs[1], addrs[j]);
          }
        }
        forall i, j | 0 <= i < j < |addrs| ensures Less(addrs[i], addrs[j]) {
          if i > 0 { assert Less(t[i - 1], t[j - 1]); }
        }
      }
    }
  }

  function CheckCanonical(field: string, addrs: seq<Addr>): Outcome<()> {
    if NeighboursAscend(addrs) then Ok(()) else Err(NonCanonical(field))
  }

  function Unpacked(field: string, b: Bytes): Outcome<seq<Addr>> {
    if |b| % ADDR_LEN != 0 then Err(RaggedAddrs(|b|)) else
      var _ :- CheckCanonical(field, Chunks(b));
      Ok(Chunks(b))
  }

  /** `unpack`: copy chunks, then require the one canonical form. */
  method Unpack(field: string, b: Bytes) returns (r: Outcome<seq<Addr>>)
    ensures r == Unpacked(field, b)
  {
    if |b| % ADDR_LEN != 0 { return Err(RaggedAddrs(|b|)); }
    var out: seq<Addr> := [];
    var i := 0;
    while i < |b|
      invariant 0 <= i <= |b| && i % ADDR_LEN == 0 && Packed(out) == b[..i]
    {
      PackedAppend(out, b[i..i + ADDR_LEN]);
      assert b[..i + ADDR_LEN] == b[..i] + b[i..i + ADDR_LEN];
      out := out + [b[i..i + ADDR_LEN]];
      i := i + ADDR_LEN;
    }
    assert b[..|b|] == b;
    ChunksOfPacked(out);
    var k := 0;
    while k + 1 < |out|
      invariant 0 <= k <= |out|
      invariant forall j | 0 <= j < k && j + 1 < |out| :: Less(out[j], out[j + 1])
    {
      if !Less(out[k], out[k + 1]) { return Err(NonCanonical(field)); }
      k := k + 1;
    }
    return Ok(out);
  }

  lemma UnpackedCanonical(field: string, b: Bytes, addrs: seq<Addr>)
    ensures Unpacked(field, b) == Ok(addrs) <==> Ascending(addrs) && Packed(addrs) == b
  {
    NeighboursSuffice(addrs);
    ChunksOfPacked(addrs);
    if |b| % ADDR_LEN == 0 {
      NeighboursSuffice(Chunks(b));
    }
  }

  // ---- Deltas

  function CheckGenesis(seqno: u64, prev: Digest): Outcome<()> {
    if (seqno == 0) != (prev == ZeroDigest()) then Err(GenesisMismatch(seqno)) else Ok(())
  }

  /** A delta whose lists a u32 prefix can express; encoding a larger one aborts. */
  type Delta = d: DeltaRecord | Fits(Packed(d.add)) && Fits(Packed(d.remove))
    witness DeltaRecord([], 0, 0, [], [], ZeroDigest(), [])

  datatype DeltaRecord = DeltaRecord(
    holderPk: Bytes, epoch: u64, seqno: u64, add: seq<Addr>, remove: seq<Addr>, prev: Digest, sig: Bytes)

  function DeltaBodyFields(d: Delta): (f: seq<Bytes>)
    ensures |f| == 5 && AllFit(f)
  {
    [LE(d.epoch, 8), LE(d.seqno, 8), Packed(d.add), Packed(d.remove), d.prev]
  }

  function DeltaBody(d: Delta): Bytes {
    Wire(DeltaBodyFields(d))
  }

  function VerifyDelta(c: S.Crypto, d: Delta): Outcome<()> {
    var _ :- CheckGenesis(d.seqno, d.prev);
    var _ :- CheckCanonical("add", d.add);
    var _ :- CheckCanonical("remove", d.remove);
    if c.Verify(d.holderPk, S.Lease, DeltaBody(d), d.sig).Verified? then Ok(()) else Err(BadSignature)
  }

  function ChainInput(bodyAndSig: Bytes): Bytes {
    Ascii("nas-tools/lease-chain/v1") + LE(|bodyAndSig|, 8) + bodyAndSig
  }

  function DeltaChainInput(d: Delta): Bytes {
    ChainInput(DeltaBody(d) + d.sig)
  }

  function DeltaChainHash(hash: HashFn, d: Delta): Digest {
    hash(DeltaChainInput(d))
  }

  /** Equal in every field but the holder key, which the chain hash does not cover. */
  predicate SameStatement(d: Delta, e: Delta) {
    d.(holderPk := []) == e.(holderPk := [])
  }

  lemma DeltaBodyInjective(d: Delta, e: Delta)
    requires DeltaBodyFields(d) == DeltaBodyFields(e)
    ensures SameStatement(d, e.(sig := d.sig))
  {
    var f, g := DeltaBodyFields(d), DeltaBodyFields(e);
    assert f[0] == g[0] && f[1] == g[1] && f[2] == g[2] && f[3] == g[3] && f[4] == g[4];
    LE64(d.epoch, f[0]);
    LE64(e.epoch, f[0]);
    LE64(d.seqno, f[1]);
    LE64(e.seqno, f[1]);
    PackedInjective(d.add, e.add);
    PackedInjective(d.remove, e.remove);
  }

  lemma ChainInputInjective(d: Delta, e: Delta)
    requires DeltaChainInput(d) == DeltaChainInput(e)
    ensures SameStatement(d, e)
  {
    var x, y := DeltaChainInput(d), DeltaChainInput(e);
    var k := |Ascii("nas-tools/lease-chain/v1")| + 8;
    assert x[k..] == DeltaBody(d) + d.sig && y[k..] == DeltaBody(e) + e.sig;
    WirePrefixUnique(DeltaBodyFields(d), d.sig, DeltaBodyFields(e), e.sig);
    DeltaBodyInjective(d, e);
  }

  function DeltaFields(d: Delta): seq<Bytes> {
    [d.holderPk, LE(d.epoch, 8), LE(d.seqno, 8), Packed(d.add), Packed(d.remove), d.prev, d.sig]
  }

  function Lift<T>(r: Result<T, DecodeError>): Outcome<T> {
    match r case Ok(v) => Ok(v) case Err(e) => Err(DecodeFailed(e))
  }

  function EncodeDelta(d: Delta): Outcome<Bytes> {
    Lift(Encode(DeltaFields(d)))
  }

  function Width(field: string, b: Bytes, want: nat): (r: Outcome<()>)
    ensures r.Ok? <==> |b| == want
  {
    if |b| != want then Err(BadWidth(field, want, |b|)) else Ok(())
  }

  function Word(field: string, b: Bytes): (r: Outcome<u64>)
    ensures r.Ok? <==> |b| == 8
    ensures r.Ok? ==> LE(r.value, 8) == b
  {
    var _ :- Width(field, b, 8);
    LE64(0, b);
    Ok(FromLE(b))
  }

  function DecodeDelta(bytes: Bytes): Outcome<Delta> {
    var f :- Lift(Decode(bytes));
    if |f| != 7 then Err(FieldCount(7, |f|)) else
      var _ :- Width("holder_pk", f[0], S.VK_LEN);
      var _ :- Width("sig", f[6], S.SIG_LEN);
      var seqno :- Word("seq", f[2]);
      var _ :- Width("prev", f[5], 32);
      var _ :- CheckGenesis(seqno, f[5]);
      var epoch :- Word("epoch", f[1]);
      var add :- Unpacked("add", f[3]);
      var remove :- Unpacked("remove", f[4]);
      Ok(DeltaRecord(f[0], epoch, seqno, add, remove, f[5], f[6]))
  }

  predicate WireDelta(d: Delta) {
    && |d.holderPk| == S.VK_LEN && |d.sig| == S.SIG_LEN
    && CheckGenesis(d.seqno, d.prev).Ok?
    && Ascending(d.add) && Ascending(d.remove)
  }

  /** The delta codec is canonical in both directions, sorted address lists included. */
  lemma DeltaCanonical(bytes: Bytes, d: Delta)
    ensures DecodeDelta(bytes) == Ok(d) <==> WireDelta(d) && EncodeDelta(d) == Ok(bytes)
  {
    hide Decode, Encode, LE, FromLE, Packed, Unpacked, Ascending, ZeroDigest;
    FieldsCanonical(bytes, DeltaFields(d));
    if DecodeDelta(bytes) == Ok(d) {
      var f := Decode(bytes).value;
      UnpackedCanonical("add", f[3], d.add);
      UnpackedCanonical("remove", f[4], d.remove);
      assert f == DeltaFields(d);
    }
    if WireDelta(d) && EncodeDelta(d) == Ok(bytes) {
      UnpackedCanonical("add", Packed(d.add), d.add);
      UnpackedCanonical("remove", Packed(d.remove), d.remove);
      LE64(d.epoch, LE(d.epoch, 8));
      LE64(d.seqno, LE(d.seqno, 8));
    }
  }

  // ---- Checkpoints

  datatype Checkpoint = Checkpoint(
    holderPk: Bytes, epoch: u64, seqno: u64, root: Digest, count: u64, prev: Digest, sig: Bytes)

  function CheckpointBodyFields(k: Checkpoint): (f: seq<Bytes>)
    ensures |f| == 5 && AllFit(f)
  {
    [LE(k.epoch, 8), LE(k.seqno, 8), k.root, LE(k.count, 8), k.prev]
  }

  function CheckpointBody(k: Checkpoint): Bytes {
    Wire(CheckpointBodyFields(k))
  }

  lemma CheckpointBodyInjective(k: Checkpoint, l: Checkpoint)
    requires CheckpointBodyFields(k) == CheckpointBodyFields(l)
    ensures k.(holderPk := [], sig := []) == l.(holderPk := [], sig := [])
  {
    var f, g := CheckpointBodyFields(k), CheckpointBodyFields(l);
    assert f[0] == g[0] && f[1] == g[1] && f[2] == g[2] && f[3] == g[3] && f[4] == g[4];
    LE64(k.epoch, f[0]);
    LE64(l.epoch, f[0]);
    LE64(k.seqno, f[1]);
    LE64(l.seqno, f[1]);
    LE64(k.count, f[3]);
    LE64(l.count, f[3]);
  }

  function VerifyCheckpoint(c: S.Crypto, k: Checkpoint): Outcome<()> {
    var _ :- CheckGenesis(k.seqno, k.prev);
    if c.Verify(k.holderPk, S.LeaseCheckpoint, CheckpointBody(k), k.sig).Verified? then Ok(())
    else Err(BadSignature)
  }

  /** `len() as u64`. */
  function As64(n: nat): u64 {
    n % (U64_MAX + 1)
  }

  /** `covers`: the count first, then the root. */
  function Covers(hash: HashFn, k: Checkpoint, fullSet: seq<Addr>): Outcome<()> {
    var s := Canonicalise(fullSet);
    if As64(|s|) != k.count then Err(CountMismatch(k.count, As64(|s|)))
    else if Merkle.RootSpec(hash, s) != k.root then Err(BadSignature)
    else Ok(())
  }

  function CheckpointFields(k: Checkpoint): seq<Bytes> {
    [k.holderPk, LE(k.epoch, 8), LE(k.seqno, 8), k.root, LE(k.count, 8), k.prev, k.sig]
  }

  function EncodeCheckpoint(k: Checkpoint): Outcome<Bytes> {
    Lift(Encode(CheckpointFields(k)))
  }

  function DecodeCheckpoint(bytes: Bytes): Outcome<Checkpoint> {
    var f :- Lift(Decode(bytes));
    if |f| != 7 then Err(FieldCount(7, |f|)) else
      var _ :- Width("holder_pk", f[0], S.VK_LEN);
      var _ :- Width("sig", f[6], S.SIG_LEN);
      var seqno :- Word("seq", f[2]);
      var _ :- Width("prev", f[5], 32);
      var _ :- CheckGenesis(seqno, f[5]);
      var epoch :- Word("epoch", f[1]);
      var _ :- Width("root", f[3], 32);
      var count :- Word("count", f[4]);
      Ok(Checkpoint(f[0], epoch, seqno, f[3], count, f[5], f[6]))
  }

  predicate WireCheckpoint(k: Checkpoint) {
    && |k.holderPk| == S.VK_LEN && |k.sig| == S.SIG_LEN && CheckGenesis(k.seqno, k.prev).Ok?
  }

  lemma CheckpointCanonical(bytes: Bytes, k: Checkpoint)
    ensures DecodeCheckpoint(bytes) == Ok(k) <==> WireCheckpoint(k) && EncodeCheckpoint(k) == Ok(bytes)
  {
    hide Decode, Encode, LE, FromLE, ZeroDigest;
    FieldsCanonical(bytes, CheckpointFields(k));
    if DecodeCheckpoint(bytes) == Ok(k) {
      assert Decode(bytes).value == CheckpointFields(k);
    }
    if WireCheckpoint(k) && EncodeCheckpoint(k) == Ok(bytes) {
      LE64(k.epoch, LE(k.epoch, 8));
      LE64(k.seqno, LE(k.seqno, 8));
      LE64(k.count, LE(k.count, 8));
    }
  }

  /**
   * Two address lists one checkpoint covers are the same set, or the two root
   * computations hashed colliding strings. (No list is longer than a u64 counts.)
   */
  lemma CoversBinding(hash: HashFn, k: Checkpoint, a: seq<Addr>, b: seq<Addr>)
    requires |Canonicalise(a)| <= U64_MAX && |Canonicalise(b)| <= U64_MAX
    requires Covers(hash, k, a).Ok? && Covers(hash, k, b).Ok?
    ensures Elements(a) == Elements(b)
            || Collides(hash, Merkle.RootQueries(hash, a) + Merkle.RootQueries(hash, b))
  {
    CanonicaliseIsOfTheSet(a, Canonicalise(a));
    CanonicaliseIsOfTheSet(b, Canonicalise(b));
    Merkle.RootBinding(hash, a, b);
  }
}
