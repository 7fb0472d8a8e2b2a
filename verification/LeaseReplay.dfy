/** Replaying a holder's signed delta chain (crates/nas-lease/src/set.rs). */
module LeaseReplay {
  import opened Wrappers
  import opened Bytes
  import opened Encoding
  import opened AddrOrder
  import opened LeaseRecord
  import Merkle
  import S = Signing

  datatype ApplyError =
    | Lease(e: LeaseError)
    | NotContiguous(expected: u64, got: u64)
    | BrokenLink(seqno: u64)
    | MixedHolders(seqno: u64)
    | CheckpointMismatch(seqno: u64)

  /** The set after a delta: additions first, so an address both added and removed is gone. */
  function Applied(s: set<Addr>, d: Delta): set<Addr> {
    s + Elements(d.add) - Elements(d.remove)
  }

  /** A holder's leased set, kept in order. */
  class LeaseSet {
    var addrs: seq<Addr>

    ghost predicate Valid()
      reads this
    {
      Ascending(addrs)
    }

    constructor ()
      ensures Valid() && addrs == []
    {
      addrs := [];
    }

    /** `apply`. */
    method Apply(d: Delta)
      requires Valid()
      modifies this
      ensures Valid() && Elements(addrs) == Applied(old(Elements(addrs)), d)
    {
      for i := 0 to |d.add|
        invariant Valid() && Elements(addrs) == old(Elements(addrs)) + Elements(d.add[..i])
      {
        addrs := Insert(d.add[i], addrs);
        assert d.add[..i + 1] == d.add[..i] + [d.add[i]];
        assert Elements(d.add[..i + 1]) == Elements(d.add[..i]) + {d.add[i]};
      }
      assert d.add[..|d.add|] == d.add;
      for i := 0 to |d.remove|
        invariant Valid() && Elements(addrs) == old(Elements(addrs)) + Elements(d.add) - Elements(d.remove[..i])
      {
        addrs := Remove(d.remove[i], addrs);
        assert d.remove[..i + 1] == d.remove[..i] + [d.remove[i]];
        assert Elements(d.remove[..i + 1]) == Elements(d.remove[..i]) + {d.remove[i]};
      }
      assert d.remove[..|d.remove|] == d.remove;
    }
  }

  /** Where a replay stands after some deltas. */
  datatype Progress = Progress(leased: set<Addr>, expected: u64, link: Digest, holder: Holder)

  datatype Holder = Unknown | Known(id: Digest)

  type Replayed = Result<Progress, ApplyError>

  /** A set as the ascending list `to_vec` gives. */
  ghost function ToVec(s: set<Addr>): (v: seq<Addr>)
    ensures Ascending(v) && Elements(v) == s
  {
    if s == {} then [] else
      var x :| x in s;
      Insert(x, ToVec(s - {x}))
  }

  /** First complaint a checkpoint at this delta has, if any. */
  ghost function CheckCheckpoints(c: S.Crypto, checkpoints: seq<Checkpoint>, seqno: u64, id: Digest, leased: set<Addr>)
    : Result<(), ApplyError>
  {
    if checkpoints == [] then Ok(()) else
      var k := checkpoints[0];
      if k.seqno == seqno && VerifyCheckpoint(c, k).Err? then Err(Lease(VerifyCheckpoint(c, k).error))
      else if k.seqno == seqno && c.KeyId(k.holderPk) != id then Err(MixedHolders(k.seqno))
      else if k.seqno == seqno && Covers(c.hash, k, ToVec(leased)).Err? then Err(CheckpointMismatch(k.seqno))
      else CheckCheckpoints(c, checkpoints[1..], seqno, id, leased)
  }

  ghost function StepDelta(c: S.Crypto, p: Progress, d: Delta, checkpoints: seq<Checkpoint>): Replayed {
    var id := c.KeyId(d.holderPk);
    if VerifyDelta(c, d).Err? then Err(Lease(VerifyDelta(c, d).error))
    else if p.holder.Known? && p.holder.id != id then Err(MixedHolders(d.seqno))
    else if d.seqno != p.expected then Err(NotContiguous(p.expected, d.seqno))
    else if d.prev != p.link then Err(BrokenLink(d.seqno))
    else
      var leased := Applied(p.leased, d);
      var checked := CheckCheckpoints(c, checkpoints, d.seqno, id, leased);
      if checked.Err? then Err(checked.error)
      else Ok(Progress(leased, SatAdd(d.seqno, 1), DeltaChainHash(c.hash, d), Known(id)))
  }

  const BEGIN: Progress := Progress({}, 0, ZeroDigest(), Unknown)

  /** Replay delta by delta; an error anywhere is the error of the whole. */
  ghost function ReplaySpec(c: S.Crypto, deltas: seq<Delta>, checkpoints: seq<Checkpoint>): Replayed {
    if deltas == [] then Ok(BEGIN) else
      var n := |deltas| - 1;
      var r := ReplaySpec(c, deltas[..n], checkpoints);
      if r.Err? then r else StepDelta(c, r.value, deltas[n], checkpoints)
  }

  lemma {:induction false} ErrorSticks(c: S.Crypto, deltas: seq<Delta>, n: nat, checkpoints: seq<Checkpoint>)
    requires n <= |deltas| && ReplaySpec(c, deltas[..n], checkpoints).Err?
    ensures ReplaySpec(c, deltas, checkpoints) == ReplaySpec(c, deltas[..n], checkpoints)
    decreases |deltas|
  {
    if n < |deltas| {
      var m := |deltas| - 1;
      assert deltas[..m][..n] == deltas[..n];
      ErrorSticks(c, deltas[..m], n, checkpoints);
    } else {
      assert deltas[..n] == deltas;
    }
  }

  method CheckAt(c: S.Crypto, checkpoints: seq<Checkpoint>, seqno: u64, id: Digest, set_: LeaseSet)
    returns (r: Result<(), ApplyError>)
    requires set_.Valid()
    ensures r == CheckCheckpoints(c, checkpoints, seqno, id, Elements(set_.addrs))
  {
    ghost var leased := Elements(set_.addrs);
    AscendingUnique(set_.addrs, ToVec(leased));
    for i := 0 to |checkpoints|
      invariant CheckCheckpoints(c, checkpoints, seqno, id, leased)
             == CheckCheckpoints(c, checkpoints[i..], seqno, id, leased)
    {
      var k := checkpoints[i];
      assert checkpoints[i..][0] == k && checkpoints[i..][1..] == checkpoints[i + 1..];
      if k.seqno == seqno {
        var v := VerifyCheckpoint(c, k);
        if v.Err? { return Err(Lease(v.error)); }
        if c.KeyId(k.holderPk) != id { return Err(MixedHolders(k.seqno)); }
        if Covers(c.hash, k, set_.addrs).Err? { return Err(CheckpointMismatch(k.seqno)); }
      }
    }
    return Ok(());
  }

  /** `replay`. */
  method Replay(c: S.Crypto, deltas: seq<Delta>, checkpoints: seq<Checkpoint>)
    returns (r: Result<LeaseSet, ApplyError>)
    ensures r.Ok? <==> ReplaySpec(c, deltas, checkpoints).Ok?
    ensures r.Ok? ==> r.value.Valid() && Elements(r.value.addrs) == ReplaySpec(c, deltas, checkpoints).value.leased
    ensures r.Err? ==> r.error == ReplaySpec(c, deltas, checkpoints).error
  {
    var set_ := new LeaseSet();
    var expected: u64 := 0;
    var link: Digest := ZeroDigest();
    var holder := Unknown;
    assert deltas[..0] == [] && Elements([]) == {};
    for i := 0 to |deltas|
      invariant set_.Valid()
      invariant ReplaySpec(c, deltas[..i], checkpoints)
             == Ok(Progress(Elements(set_.addrs), expected, link, holder))
    {
      var d := deltas[i];
      assert deltas[..i + 1][..i] == deltas[..i];
      ghost var next := ReplaySpec(c, deltas[..i + 1], checkpoints);
      if next.Err? {
        ErrorSticks(c, deltas, i + 1, checkpoints);
      }
      var v := VerifyDelta(c, d);
      if v.Err? { return Err(Lease(v.error)); }
      var id := c.KeyId(d.holderPk);
      match holder {
        case Unknown => holder := Known(id);
        case Known(h) => if h != id { return Err(MixedHolders(d.seqno)); }
      }
      if d.seqno != expected { return Err(NotContiguous(expected, d.seqno)); }
      if d.prev != link { return Err(BrokenLink(d.seqno)); }
      set_.Apply(d);
      var checked := CheckAt(c, checkpoints, d.seqno, id, set_);
      if checked.Err? { return Err(checked.error); }
      link := DeltaChainHash(c.hash, d);
      expected := SatAdd(d.seqno, 1);
    }
    assert deltas[..|deltas|] == deltas;
    return Ok(set_);
  }

  // ---- What an accepted history commits to

  /** What acceptance says about the last delta. */
  lemma LastStep(c: S.Crypto, deltas: seq<Delta>, checkpoints: seq<Checkpoint>, p: Progress)
    requires deltas != [] && ReplaySpec(c, deltas, checkpoints) == Ok(p)
    ensures var n := |deltas| - 1;
            var d, before := deltas[n], ReplaySpec(c, deltas[..n], checkpoints);
            && before.Ok? && StepDelta(c, before.value, d, checkpoints) == Ok(p)
            && d.seqno == before.value.expected && d.prev == before.value.link
            && p.leased == Applied(before.value.leased, d) && p.expected > 0
            && p.link == DeltaChainHash(c.hash, d)
            && CheckCheckpoints(c, checkpoints, d.seqno, c.KeyId(d.holderPk), p.leased).Ok?
  {
  }

  /** Replay is prefix-closed. */
  lemma {:induction false} PrefixesReplay(c: S.Crypto, deltas: seq<Delta>, checkpoints: seq<Checkpoint>, n: nat)
    requires n <= |deltas| && ReplaySpec(c, deltas, checkpoints).Ok?
    ensures ReplaySpec(c, deltas[..n], checkpoints).Ok?
  {
    if ReplaySpec(c, deltas[..n], checkpoints).Err? {
      ErrorSticks(c, deltas, n, checkpoints);
    }
  }

  /** Checkpoints only ever refuse: they never change the resulting set. */
  lemma {:induction false} CheckpointsOnlyRefuse(c: S.Crypto, deltas: seq<Delta>, checkpoints: seq<Checkpoint>)
    requires ReplaySpec(c, deltas, checkpoints).Ok?
    ensures ReplaySpec(c, deltas, []) == ReplaySpec(c, deltas, checkpoints)
  {
    if deltas != [] {
      var n := |deltas| - 1;
      CheckpointsOnlyRefuse(c, deltas[..n], checkpoints);
      var before := ReplaySpec(c, deltas[..n], []).value;
      assert StepDelta(c, before, deltas[n], []) == StepDelta(c, before, deltas[n], checkpoints);
    }
  }

  /** Every string hashed to link a chain is in `hashed`. */
  predicate AllHashed(deltas: seq<Delta>, hashed: set<Bytes>) {
    forall i | 0 <= i < |deltas| :: DeltaChainInput(deltas[i]) in hashed
  }

  /** The strings hashed to link a chain. */
  function ChainQueries(deltas: seq<Delta>): set<Bytes> {
    if deltas == [] then {} else ChainQueries(deltas[..|deltas| - 1]) + {DeltaChainInput(deltas[|deltas| - 1])}
  }

  lemma {:induction false} ChainQueriesHold(deltas: seq<Delta>)
    ensures AllHashed(deltas, ChainQueries(deltas))
  {
    if deltas != [] {
      var n := |deltas| - 1;
      ChainQueriesHold(deltas[..n]);
      forall i | 0 <= i < n ensures DeltaChainInput(deltas[i]) in ChainQueries(deltas) {
        assert deltas[..n][i] == deltas[i];
      }
    }
  }

  /** Delta by delta, equal in every signed field and in the signature. */
  predicate SameHistory(a: seq<Delta>, b: seq<Delta>) {
    |a| == |b| && forall i | 0 <= i < |a| :: SameStatement(a[i], b[i])
  }

  /** The set a sequence of deltas builds, whoever signed them. */
  function Leased(deltas: seq<Delta>): set<Addr> {
    if deltas == [] then {} else Applied(Leased(deltas[..|deltas| - 1]), deltas[|deltas| - 1])
  }

  /** Sequence number 0 only at the start, and every later delta linked to the one before it. */
  predicate Chained(hash: HashFn, deltas: seq<Delta>) {
    forall i | 0 <= i < |deltas| ::
      (i == 0 <==> deltas[i].seqno == 0) && (i > 0 ==> deltas[i].prev == DeltaChainHash(hash, deltas[i - 1]))
  }

  lemma ChainedStep(hash: HashFn, deltas: seq<Delta>)
    requires deltas != [] && Chained(hash, deltas[..|deltas| - 1])
    requires |deltas| == 1 <==> deltas[|deltas| - 1].seqno == 0
    requires |deltas| > 1 ==> deltas[|deltas| - 1].prev == DeltaChainHash(hash, deltas[|deltas| - 2])
    ensures Chained(hash, deltas)
  {
    var n := |deltas| - 1;
    forall i | 0 <= i < n
      ensures (i == 0 <==> deltas[i].seqno == 0) && (i > 0 ==> deltas[i].prev == DeltaChainHash(hash, deltas[i - 1]))
    {
      assert deltas[..n][i] == deltas[i];
      if i > 0 { assert deltas[..n][i - 1] == deltas[i - 1]; }
    }
  }

  /** An accepted history is chained, and its set is what its deltas build. */
  lemma {:induction false} AcceptedIsChained(c: S.Crypto, deltas: seq<Delta>, checkpoints: seq<Checkpoint>)
    requires ReplaySpec(c, deltas, checkpoints).Ok?
    ensures Chained(c.hash, deltas)
    ensures var p := ReplaySpec(c, deltas, checkpoints).value;
            && p.leased == Leased(deltas) && (deltas == [] <==> p.expected == 0)
            && (deltas != [] ==> p.link == DeltaChainHash(c.hash, deltas[|deltas| - 1]))
  {
    if deltas != [] {
      var n := |deltas| - 1;
      LastStep(c, deltas, checkpoints, ReplaySpec(c, deltas, checkpoints).value);
      AcceptedIsChained(c, deltas[..n], checkpoints);
      ChainedStep(c.hash, deltas);
    }
  }

  lemma HistoryStep(a: seq<Delta>, b: seq<Delta>)
    requires a != [] && b != [] && SameStatement(a[|a| - 1], b[|b| - 1])
    requires SameHistory(a[..|a| - 1], b[..|b| - 1])
    ensures SameHistory(a, b)
  {
    assert a == a[..|a| - 1] + [a[|a| - 1]] && b == b[..|b| - 1] + [b[|b| - 1]];
  }

  lemma SameHead(hash: HashFn, d: Delta, e: Delta, hashed: set<Bytes>)
    requires DeltaChainInput(d) in hashed && DeltaChainInput(e) in hashed
    requires DeltaChainHash(hash, d) == DeltaChainHash(hash, e)
    ensures Collides(hash, hashed) || SameStatement(d, e)
  {
    SameHash(hash, hashed, DeltaChainInput(d), DeltaChainInput(e));
    if !Collides(hash, hashed) {
      ChainInputInjective(d, e);
    }
  }

  lemma {:induction false} ChainedBinding(hash: HashFn, a: seq<Delta>, b: seq<Delta>, hashed: set<Bytes>)
    requires a != [] && b != [] && AllHashed(a, hashed) && AllHashed(b, hashed)
    requires Chained(hash, a) && Chained(hash, b)
    requires DeltaChainHash(hash, a[|a| - 1]) == DeltaChainHash(hash, b[|b| - 1])
    ensures Collides(hash, hashed) || (SameHistory(a, b) && Leased(a) == Leased(b))
  {
    var m, n := |a| - 1, |b| - 1;
    SameHead(hash, a[m], b[n], hashed);
    if !Collides(hash, hashed) {
      if m > 0 {
        ChainedBinding(hash, a[..m], b[..n], hashed);
      }
      HistoryStep(a, b);
    }
  }

  /**
   * The head hash determines the history: two accepted chains whose last records have
   * one chain hash are the same statements in the same order and lease the same set,
   * or two of the strings that link them collide.
   */
  lemma ChainBinding(c: S.Crypto, a: seq<Delta>, ka: seq<Checkpoint>, b: seq<Delta>, kb: seq<Checkpoint>)
    requires a != [] && b != [] && ReplaySpec(c, a, ka).Ok? && ReplaySpec(c, b, kb).Ok?
    requires DeltaChainHash(c.hash, a[|a| - 1]) == DeltaChainHash(c.hash, b[|b| - 1])
    ensures Collides(c.hash, ChainQueries(a + b))
            || (SameHistory(a, b) && ReplaySpec(c, a, ka).value.leased == ReplaySpec(c, b, kb).value.leased)
  {
    AcceptedIsChained(c, a, ka);
    AcceptedIsChained(c, b, kb);
    ChainQueriesHold(a + b);
    var hashed := ChainQueries(a + b);
    assert AllHashed(a, hashed) by {
      forall i | 0 <= i < |a| ensures DeltaChainInput(a[i]) in hashed { assert a[i] == (a + b)[i]; }
    }
    assert AllHashed(b, hashed) by {
      forall i | 0 <= i < |b| ensures DeltaChainInput(b[i]) in hashed { assert b[i] == (a + b)[|a| + i]; }
    }
    ChainedBinding(c.hash, a, b, hashed);
  }

  lemma {:induction false} CheckpointCovers(c: S.Crypto, checkpoints: seq<Checkpoint>, k: Checkpoint, seqno: u64, id: Digest,
                                            leased: set<Addr>)
    requires CheckCheckpoints(c, checkpoints, seqno, id, leased).Ok?
    requires k in checkpoints && k.seqno == seqno
    ensures VerifyCheckpoint(c, k).Ok? && c.KeyId(k.holderPk) == id && Covers(c.hash, k, ToVec(leased)).Ok?
  {
    if k != checkpoints[0] {
      CheckpointCovers(c, checkpoints[1..], k, seqno, id, leased);
    }
  }

  /**
   * Cold resync is sound. If a replay accepts a checkpoint that stands at delta `i`, any
   * address list that checkpoint covers is exactly the set after delta `i`, or the two
   * root computations hashed colliding strings.
   */
  lemma ColdResync(c: S.Crypto, deltas: seq<Delta>, checkpoints: seq<Checkpoint>, k: Checkpoint, i: nat,
                   addrs: seq<Addr>, p: Progress)
    requires ReplaySpec(c, deltas, checkpoints).Ok?
    requires i < |deltas| && k in checkpoints && k.seqno == deltas[i].seqno
    requires ReplaySpec(c, deltas[..i + 1], []) == Ok(p)
    requires Covers(c.hash, k, addrs).Ok?
    requires |Canonicalise(addrs)| <= U64_MAX && |p.leased| <= U64_MAX
    ensures Elements(addrs) == p.leased
            || Collides(c.hash, Merkle.RootQueries(c.hash, addrs) + Merkle.RootQueries(c.hash, ToVec(p.leased)))
  {
    var upTo := deltas[..i + 1];
    PrefixesReplay(c, deltas, checkpoints, i + 1);
    CheckpointsOnlyRefuse(c, upTo, checkpoints);
    LastStep(c, upTo, checkpoints, p);
    CheckpointCovers(c, checkpoints, k, k.seqno, c.KeyId(deltas[i].holderPk), p.leased);
    var v := ToVec(p.leased);
    CanonicaliseIsOfTheSet(v, v);
    AscendingSize(v);
    CoversBinding(c.hash, k, addrs, v);
  }

  lemma {:induction false} AscendingSize(v: seq<Addr>)
    requires Ascending(v)
    ensures |v| == |Elements(v)|
  {
    if v != [] {
      TailElements(v);
      AscendingSize(v[1..]);
    }
  }

  // ---- Exactly which histories are accepted

  /** Sequence numbers count up from 0 and stay at the largest u64. */
  function Numbered(i: nat): u64 {
    if i <= U64_MAX then i else U64_MAX
  }

  /** A record's place in a chain: the genesis is numbered 0 and links to nothing. */
  predicate Placed(seqno: u64, prev: Digest) {
    seqno == 0 <==> prev == ZeroDigest()
  }

  /** Delta `i` is signed by the one holder, well formed, in its place and linked to the one before. */
  predicate GoodDelta(c: S.Crypto, deltas: seq<Delta>, i: nat)
    requires i < |deltas|
  {
    var d := deltas[i];
    && c.Verify(d.holderPk, S.Lease, DeltaBody(d), d.sig).Verified?
    && Ascending(d.add) && Ascending(d.remove) && Placed(d.seqno, d.prev)
    && c.KeyId(d.holderPk) == c.KeyId(deltas[0].holderPk)
    && d.seqno == Numbered(i)
    && d.prev == if i == 0 then ZeroDigest() else c.hash(DeltaChainInput(deltas[i - 1]))
  }

  /** Checkpoint `k` is signed by holder `id` and commits to exactly this set. */
  ghost predicate GoodCheckpoint(c: S.Crypto, k: Checkpoint, id: Digest, leased: set<Addr>) {
    && c.Verify(k.holderPk, S.LeaseCheckpoint, CheckpointBody(k), k.sig).Verified?
    && Placed(k.seqno, k.prev) && c.KeyId(k.holderPk) == id
    && k.count == As64(|leased|) && k.root == Merkle.RootSpec(c.hash, ToVec(leased))
  }

  ghost predicate GoodAt(c: S.Crypto, deltas: seq<Delta>, checkpoints: seq<Checkpoint>, i: nat)
    requires i < |deltas|
  {
    && GoodDelta(c, deltas, i)
    && forall k | k in checkpoints && k.seqno == deltas[i].seqno ::
         GoodCheckpoint(c, k, c.KeyId(deltas[i].holderPk), Leased(deltas[..i + 1]))
  }

  lemma CoversIff(hash: HashFn, k: Checkpoint, leased: set<Addr>)
    ensures Covers(hash, k, ToVec(leased)).Ok? <==> k.count == As64(|leased|) && k.root == Merkle.RootSpec(hash, ToVec(leased))
  {
    hide Merkle.Tree, Merkle.Leaves;
    var v := ToVec(leased);
    CanonicaliseIsOfTheSet(v, v);
    AscendingSize(v);
  }

  lemma CheckpointIff(c: S.Crypto, k: Checkpoint, id: Digest, leased: set<Addr>)
    ensures VerifyCheckpoint(c, k).Ok? && c.KeyId(k.holderPk) == id && Covers(c.hash, k, ToVec(leased)).Ok? <==>
            GoodCheckpoint(c, k, id, leased)
  {
    hide Covers, CheckpointBody, Merkle.RootSpec;
    CoversIff(c.hash, k, leased);
  }

  lemma {:induction false} CheckpointsIff(c: S.Crypto, checkpoints: seq<Checkpoint>, seqno: u64, id: Digest, leased: set<Addr>)
    ensures CheckCheckpoints(c, checkpoints, seqno, id, leased).Ok? <==>
            forall k | k in checkpoints && k.seqno == seqno :: GoodCheckpoint(c, k, id, leased)
  {
    hide Covers, VerifyCheckpoint, GoodCheckpoint;
    if checkpoints != [] {
      CheckpointsIff(c, checkpoints[1..], seqno, id, leased);
      CheckpointIff(c, checkpoints[0], id, leased);
      assert forall k :: k in checkpoints <==> k == checkpoints[0] || k in checkpoints[1..];
    }
  }

  lemma DeltaIff(c: S.Crypto, d: Delta)
    ensures VerifyDelta(c, d).Ok? <==>
            && c.Verify(d.holderPk, S.Lease, DeltaBody(d), d.sig).Verified?
            && Ascending(d.add) && Ascending(d.remove) && Placed(d.seqno, d.prev)
  {
    hide DeltaBody, ZeroDigest, NeighboursAscend, Ascending;
    NeighboursSuffice(d.add);
    NeighboursSuffice(d.remove);
  }

  /** Where an accepted replay stands, said of its deltas. */
  predicate Stands(c: S.Crypto, deltas: seq<Delta>, p: Progress) {
    && p.leased == Leased(deltas) && p.expected == Numbered(|deltas|)
    && p.holder == (if deltas == [] then Unknown else Known(c.KeyId(deltas[0].holderPk)))
    && p.link == if deltas == [] then ZeroDigest() else c.hash(DeltaChainInput(deltas[|deltas| - 1]))
  }

  lemma StepIff(c: S.Crypto, deltas: seq<Delta>, checkpoints: seq<Checkpoint>, p: Progress)
    requires deltas != [] && Stands(c, deltas[..|deltas| - 1], p)
    ensures var next := StepDelta(c, p, deltas[|deltas| - 1], checkpoints);
            && (next.Ok? <==> GoodAt(c, deltas, checkpoints, |deltas| - 1))
            && (next.Ok? ==> Stands(c, deltas, next.value))
  {
    hide VerifyDelta, DeltaBody, DeltaChainInput, GoodCheckpoint, CheckCheckpoints, ZeroDigest, Placed, Ascending;
    var n := |deltas| - 1;
    var d := deltas[n];
    assert deltas[..n + 1] == deltas;
    DeltaIff(c, d);
    CheckpointsIff(c, checkpoints, d.seqno, c.KeyId(d.holderPk), Leased(deltas));
  }

  lemma GoodPrefix(c: S.Crypto, deltas: seq<Delta>, checkpoints: seq<Checkpoint>, i: nat)
    requires i < |deltas| - 1
    ensures GoodAt(c, deltas[..|deltas| - 1], checkpoints, i) <==> GoodAt(c, deltas, checkpoints, i)
  {
    hide DeltaBody, DeltaChainInput, GoodCheckpoint, ZeroDigest, Placed, Ascending, Leased;
    var n := |deltas| - 1;
    assert deltas[..n][..i + 1] == deltas[..i + 1];
    assert forall j | 0 <= j < n :: deltas[..n][j] == deltas[j];
  }

  /**
   * Exactly which histories `replay` accepts: those in which every delta is signed by the
   * one holder, well formed, numbered in turn and linked, and every checkpoint that stands
   * at one is that holder's and commits to the set its deltas build.
   */
  lemma {:induction false} AcceptedIff(c: S.Crypto, deltas: seq<Delta>, checkpoints: seq<Checkpoint>)
    ensures ReplaySpec(c, deltas, checkpoints).Ok? <==> forall i | 0 <= i < |deltas| :: GoodAt(c, deltas, checkpoints, i)
    ensures ReplaySpec(c, deltas, checkpoints).Ok? ==> Stands(c, deltas, ReplaySpec(c, deltas, checkpoints).value)
  {
    hide StepDelta, GoodAt;
    if deltas != [] {
      var n := |deltas| - 1;
      AcceptedIff(c, deltas[..n], checkpoints);
      forall i | 0 <= i < n ensures GoodAt(c, deltas[..n], checkpoints, i) <==> GoodAt(c, deltas, checkpoints, i) {
        GoodPrefix(c, deltas, checkpoints, i);
      }
      if ReplaySpec(c, deltas[..n], checkpoints).Ok? {
        StepIff(c, deltas, checkpoints, ReplaySpec(c, deltas[..n], checkpoints).value);
      }
    } else {
      assert Leased(deltas) == {};
    }
  }

  /** What the deltas build: the addresses some delta added that neither it nor a later one removed. */
  lemma {:induction false} LeasedIff(deltas: seq<Delta>, a: Addr)
    ensures a in Leased(deltas) <==>
            exists i :: 0 <= i < |deltas| && a in deltas[i].add && forall j | i <= j < |deltas| :: a !in deltas[j].remove
  {
    if deltas != [] {
      var n := |deltas| - 1;
      var before, d := deltas[..n], deltas[n];
      LeasedIff(before, a);
      assert forall j | 0 <= j < n :: before[j] == deltas[j];
      if a in Leased(deltas) {
        if a in d.add {
          assert forall j | n <= j < |deltas| :: a !in deltas[j].remove;
        } else {
          var i :| 0 <= i < n && a in before[i].add && forall j | i <= j < n :: a !in before[j].remove;
          assert a in deltas[i].add && forall j | i <= j < |deltas| :: a !in deltas[j].remove;
        }
      }
      if i :| 0 <= i < |deltas| && a in deltas[i].add && forall j | i <= j < |deltas| :: a !in deltas[j].remove {
        assert a !in deltas[n].remove;
        if i < n {
          assert a in before[i].add && forall j | i <= j < n :: a !in before[j].remove;
        }
      }
    }
  }

  /** Why the delta after an accepted history was refused, the first reason that holds. */
  ghost predicate Explains(c: S.Crypto, deltas: seq<Delta>, i: nat, checkpoints: seq<Checkpoint>, e: ApplyError)
    requires i < |deltas|
  {
    var d := deltas[i];
    if !Placed(d.seqno, d.prev) then e == Lease(GenesisMismatch(d.seqno))
    else if !Ascending(d.add) then e == Lease(NonCanonical("add"))
    else if !Ascending(d.remove) then e == Lease(NonCanonical("remove"))
    else if !c.Verify(d.holderPk, S.Lease, DeltaBody(d), d.sig).Verified? then e == Lease(BadSignature)
    else if c.KeyId(d.holderPk) != c.KeyId(deltas[0].holderPk) then e == MixedHolders(d.seqno)
    else if d.seqno != Numbered(i) then e == NotContiguous(Numbered(i), d.seqno)
    else if d.prev != (if i == 0 then ZeroDigest() else c.hash(DeltaChainInput(deltas[i - 1]))) then e == BrokenLink(d.seqno)
    else exists k :: k in checkpoints && k.seqno == d.seqno
           && !GoodCheckpoint(c, k, c.KeyId(d.holderPk), Leased(deltas[..i + 1])) && Faults(c, k, c.KeyId(d.holderPk), e)
  }

  /** Why a checkpoint was refused, the first reason that holds. */
  predicate Faults(c: S.Crypto, k: Checkpoint, id: Digest, e: ApplyError) {
    if !Placed(k.seqno, k.prev) then e == Lease(GenesisMismatch(k.seqno))
    else if !c.Verify(k.holderPk, S.LeaseCheckpoint, CheckpointBody(k), k.sig).Verified? then e == Lease(BadSignature)
    else if c.KeyId(k.holderPk) != id then e == MixedHolders(k.seqno)
    else e == CheckpointMismatch(k.seqno)
  }

  lemma {:induction false} CheckpointRefused(c: S.Crypto, checkpoints: seq<Checkpoint>, seqno: u64, id: Digest, leased: set<Addr>)
    returns (k: Checkpoint)
    requires CheckCheckpoints(c, checkpoints, seqno, id, leased).Err?
    ensures k in checkpoints && k.seqno == seqno && !GoodCheckpoint(c, k, id, leased)
    ensures Faults(c, k, id, CheckCheckpoints(c, checkpoints, seqno, id, leased).error)
  {
    hide Covers, CheckpointBody, GoodCheckpoint, ZeroDigest;
    k := checkpoints[0];
    CheckpointIff(c, k, id, leased);
    if k.seqno != seqno || GoodCheckpoint(c, k, id, leased) {
      k := CheckpointRefused(c, checkpoints[1..], seqno, id, leased);
    }
  }

  /** A refused history has a longest accepted part, and the error is about the delta after it. */
  lemma {:induction false} RefusedAt(c: S.Crypto, deltas: seq<Delta>, checkpoints: seq<Checkpoint>) returns (i: nat)
    requires ReplaySpec(c, deltas, checkpoints).Err?
    ensures i < |deltas| && ReplaySpec(c, deltas[..i], checkpoints).Ok?
    ensures Explains(c, deltas, i, checkpoints, ReplaySpec(c, deltas, checkpoints).error)
  {
    var n := |deltas| - 1;
    if ReplaySpec(c, deltas[..n], checkpoints).Err? {
      i := RefusedAt(c, deltas[..n], checkpoints);
      assert deltas[..n][..i] == deltas[..i] && deltas[..n][..i + 1] == deltas[..i + 1];
      assert forall j | 0 <= j < n :: deltas[..n][j] == deltas[j];
    } else {
      i := n;
      ExplainsLast(c, deltas, checkpoints);
    }
  }

  lemma ExplainsLast(c: S.Crypto, deltas: seq<Delta>, checkpoints: seq<Checkpoint>)
    requires deltas != [] && ReplaySpec(c, deltas, checkpoints).Err? && ReplaySpec(c, deltas[..|deltas| - 1], checkpoints).Ok?
    ensures Explains(c, deltas, |deltas| - 1, checkpoints, ReplaySpec(c, deltas, checkpoints).error)
  {
    hide DeltaBody, DeltaChainInput, GoodCheckpoint, CheckCheckpoints, ZeroDigest, Ascending, NeighboursAscend;
    var n := |deltas| - 1;
    var d := deltas[n];
    AcceptedIff(c, deltas[..n], checkpoints);
    assert deltas[..n + 1] == deltas;
    NeighboursSuffice(d.add);
    NeighboursSuffice(d.remove);
    if CheckCheckpoints(c, checkpoints, d.seqno, c.KeyId(d.holderPk), Leased(deltas)).Err? {
      var _ := CheckpointRefused(c, checkpoints, d.seqno, c.KeyId(d.holderPk), Leased(deltas));
    }
  }
}
