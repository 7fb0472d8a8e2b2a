/** Signing contexts and message framing (crates/nas-crypto/src/context.rs, sign.rs). */
module Signing {
  import opened Bytes

  datatype SigContext =
    | Slot | Lease | LeaseCheckpoint | SlotCheckpoint | Roster | Cap | Witness | Retention
    | DeleteRequest | DeleteApproval | DeleteExecution | Wrap | MirrorPublish | SlotHandoff | Patch

  function Name(c: SigContext): string {
    match c
    case Slot => "nas-tools/sig/slot/v1"
    case Lease => "nas-tools/sig/lease/v1"
    case LeaseCheckpoint => "nas-tools/sig/checkpoint/v1"
    case SlotCheckpoint => "nas-tools/sig/slot-checkpoint/v1"
    case Roster => "nas-tools/sig/roster/v1"
    case Cap => "nas-tools/sig/cap/v1"
    case Witness => "nas-tools/sig/witness/v2"
    case Retention => "nas-tools/sig/retention/v1"
    case DeleteRequest => "nas-tools/sig/delete-request/v1"
    case DeleteApproval => "nas-tools/sig/delete-approval/v1"
    case DeleteExecution => "nas-tools/sig/delete-execution/v1"
    case Wrap => "nas-tools/sig/wrap/v1"
    case MirrorPublish => "nas-tools/sig/mirror-publish/v1"
    case SlotHandoff => "nas-tools/sig/slot-handoff/v1"
    case Patch => "nas-tools/sig/patch/v1"
  }

  /** `SigContext::as_bytes`. */
  function ContextBytes(c: SigContext): (b: Bytes)
    ensures |b| >= 20
  {
    Ascii(Name(c))
  }

  /** `framed`: context, length of the context, message. */
  function Framed(c: SigContext, message: Bytes): Bytes {
    ContextBytes(c) + LE(|ContextBytes(c)|, 4) + message
  }

  /**
   * The context that a string beginning with context octets began with. The names
   * share their first fourteen octets and differ within the next eight.
   */
  function ContextAt(f: Bytes): SigContext
    requires |f| >= 22
  {
    if f[14] == Octet('s') then
      if f[18] == Octet('/') then Slot else if f[19] == Octet('c') then SlotCheckpoint else SlotHandoff
    else if f[14] == Octet('c') then
      if f[15] == Octet('h') then LeaseCheckpoint else Cap
    else if f[14] == Octet('r') then
      if f[15] == Octet('o') then Roster else Retention
    else if f[14] == Octet('w') then
      if f[15] == Octet('i') then Witness else Wrap
    else if f[14] == Octet('d') then
      if f[21] == Octet('r') then DeleteRequest
      else if f[21] == Octet('a') then DeleteApproval else DeleteExecution
    else if f[14] == Octet('l') then Lease
    else if f[14] == Octet('m') then MirrorPublish
    else Patch
  }

  /** No context is a prefix of another: whatever follows it, it is the one read back. */
  lemma ContextsPrefixFree(c: SigContext, rest: Bytes)
    requires |ContextBytes(c) + rest| >= 22
    ensures ContextAt(ContextBytes(c) + rest) == c
  {
    var f := ContextBytes(c) + rest;
    var n := Name(c);
    assert f[14] == Octet(n[14]) && f[15] == Octet(n[15]) && f[18] == Octet(n[18]) && f[19] == Octet(n[19]);
    assert |n| > 21 ==> f[21] == Octet(n[21]);
  }

  /** One signed octet string has one context and one message. */
  lemma FramedInjective(c: SigContext, m: Bytes, d: SigContext, n: Bytes)
    requires Framed(c, m) == Framed(d, n)
    ensures c == d && m == n
  {
    hide ContextBytes, ContextAt, LE;
    var (x, y) := (LE(|ContextBytes(c)|, 4) + m, LE(|ContextBytes(d)|, 4) + n);
    assert Framed(c, m) == ContextBytes(c) + x && Framed(d, n) == ContextBytes(d) + y;
    ContextsPrefixFree(c, x);
    ContextsPrefixFree(d, y);
    assert x == y by {
      var k := |ContextBytes(c)|;
      assert (ContextBytes(c) + x)[k..] == x && (ContextBytes(d) + y)[k..] == y;
    }
    assert x[4..] == m && y[4..] == n;
  }

  const VK_LEN: nat := 1952
  const SIG_LEN: nat := 3309

  datatype Verdict =
    | Verified
    | BadKeyLength(got: nat)
    | BadSignatureLength(got: nat)
    | Backend

  /**
   * The primitives: BLAKE3 and the ML-DSA-65 verifier (key, signed octets, signature),
   * as arbitrary functions.
   */
  datatype Crypto = Crypto(hash: HashFn, backend: (Bytes, Bytes, Bytes) -> bool) {
    /** `key_id`. */
    function KeyId(vk: Bytes): Digest {
      hash(vk)
    }

    /** `verify`: the lengths are checked before the backend sees anything. */
    function Verify(vk: Bytes, c: SigContext, message: Bytes, sig: Bytes): Verdict {
      if |vk| != VK_LEN then BadKeyLength(|vk|)
      else if |sig| != SIG_LEN then BadSignatureLength(|sig|)
      else if backend(vk, Framed(c, message), sig) then Verified
      else Backend
    }
  }

  /** An unforgeable verifier: it accepts exactly the (key, signed octets) pairs someone signed. */
  function Ideal(hash: HashFn, signed: set<(Bytes, Bytes)>): Crypto {
    Crypto(hash, (vk, m, sig) => (vk, m) in signed)
  }
}
