/** Octets, digests, little-endian integers and what a hash collision is. */
module Bytes {

  type byte = x: int | 0 <= x < 256

  type Bytes = seq<byte>

  /** A 32-byte hash output, content address or key identifier. */
  type Digest = d: seq<byte> | |d| == 32 witness ZeroDigest()

  type HashFn = Bytes -> Digest

  function ZeroDigest(): (z: seq<byte>)
    ensures |z| == 32
  {
    seq(32, _ => 0)
  }

  const U32_MAX: nat := 0xFFFF_FFFF
  const U64_MAX: nat := 0xFFFF_FFFF_FFFF_FFFF

  type u32 = x: int | 0 <= x <= 0xFFFF_FFFF
  type u64 = x: int | 0 <= x <= 0xFFFF_FFFF_FFFF_FFFF

  /** `u64::saturating_add`. */
  function SatAdd(a: u64, b: u64): u64 {
    if a + b <= U64_MAX then a + b else U64_MAX
  }

  /** `Timestamp::saturating_since`: a clock that jumped backwards elapses nothing. */
  function SatSince(now: u64, earlier: u64): u64 {
    if now > earlier then now - earlier else 0
  }

  /** `span` seconds have passed since `from`. */
  predicate Waited(from: nat, span: nat, now: nat) {
    span == 0 || from + span <= now
  }

  /**
   * Two distinct members of `hashed` share a hash. Binding results speak of the
   * strings a computation really hashed: over all strings a collision of a 32-byte
   * hash exists by counting, and such a statement would say nothing.
   */
  ghost predicate Collides(hash: HashFn, hashed: set<Bytes>) {
    exists x, y :: x in hashed && y in hashed && x != y && hash(x) == hash(y)
  }

  lemma SameHash(hash: HashFn, hashed: set<Bytes>, x: Bytes, y: Bytes)
    requires x in hashed && y in hashed && hash(x) == hash(y)
    ensures x == y || Collides(hash, hashed)
  {
  }

  /** The `w` low-order octets of `n`, least significant first: `as uN` then `to_le_bytes`. */
  function LE(n: nat, w: nat): (b: Bytes)
    ensures |b| == w
  {
    if w == 0 then [] else [n % 256] + LE(n / 256, w - 1)
  }

  /** `from_le_bytes`. */
  function FromLE(b: Bytes): nat {
    if b == [] then 0 else b[0] + 256 * FromLE(b[1..])
  }

  function Pow256(w: nat): nat {
    if w == 0 then 1 else 256 * Pow256(w - 1)
  }

  lemma {:induction false} FromLEofLE(n: nat, w: nat)
    requires n < Pow256(w)
    ensures FromLE(LE(n, w)) == n
  {
    if w > 0 {
      FromLEofLE(n / 256, w - 1);
      assert LE(n, w)[1..] == LE(n / 256, w - 1);
    }
  }

  lemma {:induction false} LEofFromLE(b: Bytes)
    ensures FromLE(b) < Pow256(|b|) && LE(FromLE(b), |b|) == b
  {
    if b != [] {
      LEofFromLE(b[1..]);
      assert FromLE(b) / 256 == FromLE(b[1..]) && FromLE(b) % 256 == b[0];
    }
  }

  lemma FourOctets(n: nat, w: nat)
    ensures LE(n, w + 4) == [n % 256, n / 256 % 256, n / 256 / 256 % 256, n / 256 / 256 / 256 % 256] + LE(n / 256 / 256 / 256 / 256, w)
  {
    var a, b, c := n / 256, n / 256 / 256, n / 256 / 256 / 256;
    assert LE(c, w + 1) == [c % 256] + LE(c / 256, w);
    assert LE(b, w + 2) == [b % 256] + LE(c, w + 1);
    assert LE(a, w + 3) == [a % 256] + LE(b, w + 2);
  }

  lemma Shifts(n: nat)
    ensures n / 256 / 256 == n / 0x1_0000 && n / 256 / 256 / 256 == n / 0x100_0000 && n / 256 / 256 / 256 / 256 == n / 0x1_0000_0000
  {
  }

  /** The octets of a 32-bit and a 64-bit number, written out: the least significant comes first. */
  lemma LittleEndian(n: nat)
    ensures LE(n, 4) == [n % 256, n / 0x100 % 256, n / 0x1_0000 % 256, n / 0x100_0000 % 256]
    ensures LE(n, 8) == LE(n, 4) + LE(n / 0x1_0000_0000, 4)
  {
    hide LE;
    FourOctets(n, 0);
    FourOctets(n, 4);
    Shifts(n);
    assert LE(n / 0x1_0000_0000, 0) == [];
  }

  lemma Widths()
    ensures Pow256(4) == U32_MAX + 1 && Pow256(8) == U64_MAX + 1
  {
    assert Pow256(2) == 65536;
    assert Pow256(4) == 256 * (256 * Pow256(2));
    assert Pow256(6) == 256 * (256 * Pow256(4));
    assert Pow256(8) == 256 * (256 * Pow256(6));
  }

  /** Fixed-width integers are read back, and every octet string of that width is one. */
  lemma LE32(n: u32, b: Bytes)
    requires |b| == 4
    ensures FromLE(LE(n, 4)) == n && FromLE(b) <= U32_MAX && LE(FromLE(b), 4) == b
  {
    Widths();
    FromLEofLE(n, 4);
    LEofFromLE(b);
  }

  lemma LE64(n: u64, b: Bytes)
    requires |b| == 8
    ensures FromLE(LE(n, 8)) == n && FromLE(b) <= U64_MAX && LE(FromLE(b), 8) == b
  {
    Widths();
    FromLEofLE(n, 8);
    LEofFromLE(b);
  }

  function Octet(c: char): byte {
    c as int % 256
  }

  /** Octets of an ASCII literal. */
  function Ascii(s: string): (b: Bytes)
    ensures |b| == |s|
    ensures forall i | 0 <= i < |s| :: b[i] == Octet(s[i])
  {
    seq(|s|, i requires 0 <= i < |s| => Octet(s[i]))
  }
}
