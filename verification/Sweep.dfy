/** The sweep decision (crates/nas-lease/src/sweep.rs). */
module Sweep {
  import opened Bytes
  import opened AddrOrder

  datatype GcPolicy = GcPolicy(grace: u64, leaseExpiry: u64, notice: u64, maxLeasedBytes: u64)

  datatype BlobInfo = BlobInfo(addr: Addr, size: u64, uploadedAt: u64)

  datatype Status = Active | Expiring | Expired

  datatype Holder = Holder(id: Digest, leased: seq<Addr>, lastSeen: u64) {
    /** `Holder::status`: past expiry a lease still protects, until the notice has run too. */
    function StatusAt(now: u64, p: GcPolicy): Status {
      var idle := SatSince(now, lastSeen);
      if idle <= p.leaseExpiry then Active
      else if idle <= SatAdd(p.leaseExpiry, p.notice) then Expiring
      else Expired
    }

    /** `Holder::leased_bytes`: a saturating sum over the blobs still held. */
    function LeasedBytes(index: map<Addr, BlobInfo>): u64 {
      SatTotal(leased, index)
    }
  }

  function SizeOf(a: Addr, index: map<Addr, BlobInfo>): u64 {
    if a in index then index[a].size else 0
  }

  function SatTotal(addrs: seq<Addr>, index: map<Addr, BlobInfo>): u64 {
    if addrs == [] then 0 else
      var n := |addrs| - 1;
      SatAdd(SatTotal(addrs[..n], index), SizeOf(addrs[n], index))
  }

  /** The sum no machine word bounds. */
  ghost function TrueTotal(addrs: seq<Addr>, index: map<Addr, BlobInfo>): nat {
    if addrs == [] then 0 else
      var n := |addrs| - 1;
      TrueTotal(addrs[..n], index) + if addrs[n] in index then index[addrs[n]].size else 0
  }

  lemma {:induction false} SatTotalIsClamped(addrs: seq<Addr>, index: map<Addr, BlobInfo>)
    ensures SatTotal(addrs, index) == if TrueTotal(addrs, index) <= U64_MAX then TrueTotal(addrs, index) else U64_MAX
  {
    if addrs != [] {
      SatTotalIsClamped(addrs[..|addrs| - 1], index);
    }
  }

  /**
   * Exactly when the quota test can be trusted: it flags a holder whose true total
   * exceeds the ceiling unless the ceiling is the largest u64 and the total is larger
   * still, which saturation hides.
   */
  lemma QuotaExact(h: Holder, index: map<Addr, BlobInfo>, p: GcPolicy)
    ensures (h.LeasedBytes(index) > p.maxLeasedBytes <==> TrueTotal(h.leased, index) > p.maxLeasedBytes)
            <==> !(p.maxLeasedBytes == U64_MAX && TrueTotal(h.leased, index) > U64_MAX)
  {
    SatTotalIsClamped(h.leased, index);
  }

  datatype Keep = RetentionFloor | YoungBlob | Leased | LeasedByExpiring

  datatype Fate = Kept(why: Keep) | Deleted

  predicate HasLessee(holders: set<Holder>, a: Addr, st: Status, now: u64, p: GcPolicy) {
    exists h :: h in holders && a in h.leased && h.StatusAt(now, p) == st
  }

  /** The guard cascade, strongest reason first. */
  function FateOf(b: BlobInfo, holders: set<Holder>, floor: set<Addr>, p: GcPolicy, now: u64): Fate {
    if b.addr in floor then Kept(RetentionFloor)
    else if SatSince(now, b.uploadedAt) < p.grace then Kept(YoungBlob)
    else if HasLessee(holders, b.addr, Active, now, p) then Kept(Leased)
    else if HasLessee(holders, b.addr, Expiring, now, p) then Kept(LeasedByExpiring)
    else Deleted
  }

  /** Only a lapsed lease, or none, stands between this blob and the sweep. */
  predicate AtRisk(f: Fate) {
    f == Deleted || f == Kept(LeasedByExpiring)
  }

  datatype SweepPlan = SweepPlan(
    delete: seq<Addr>, keep: seq<(Addr, Keep)>, warnings: map<Digest, seq<Addr>>, overQuota: map<Digest, u64>)

  function HolderSet(holders: seq<Holder>): set<Holder> {
    set h | h in holders
  }

  function Index(blobs: seq<BlobInfo>): map<Addr, BlobInfo> {
    if blobs == [] then map[] else
      var n := |blobs| - 1;
      Index(blobs[..n])[blobs[n].addr := blobs[n]]
  }

  function OverQuota(holders: seq<Holder>, index: map<Addr, BlobInfo>, p: GcPolicy): map<Digest, u64> {
    if holders == [] then map[] else
      var n := |holders| - 1;
      var rest := OverQuota(holders[..n], index, p);
      var bytes := holders[n].LeasedBytes(index);
      if bytes > p.maxLeasedBytes then rest[holders[n].id := bytes] else rest
  }

  /** One more address on the warning list of each of the holders that leases it. */
  function Warn(w: map<Digest, seq<Addr>>, holders: seq<Holder>, a: Addr): map<Digest, seq<Addr>> {
    if holders == [] then w else
      var n := |holders| - 1;
      var v := Warn(w, holders[..n], a);
      if a in holders[n].leased then
        v[holders[n].id := (if holders[n].id in v then v[holders[n].id] else []) + [a]]
      else v
  }

  /** The whole plan: blobs in their order, each sent where its fate sends it. */
  function PlanSpec(blobs: seq<BlobInfo>, holders: seq<Holder>, floor: set<Addr>, p: GcPolicy, now: u64,
                    quota: map<Digest, u64>): SweepPlan
  {
    if blobs == [] then SweepPlan([], [], map[], quota) else
      var n := |blobs| - 1;
      var rest := PlanSpec(blobs[..n], holders, floor, p, now, quota);
      Place(rest, blobs[n].addr, FateOf(blobs[n], HolderSet(holders), floor, p, now), holders)
  }

  function Place(plan: SweepPlan, a: Addr, f: Fate, holders: seq<Holder>): SweepPlan {
    var placed := if f.Deleted? then plan.(delete := plan.delete + [a]) else plan.(keep := plan.keep + [(a, f.why)]);
    if AtRisk(f) then placed.(warnings := Warn(plan.warnings, holders, a)) else placed
  }

  /** `plan_sweep`. */
  method PlanSweep(blobs: seq<BlobInfo>, holders: seq<Holder>, floor: set<Addr>, p: GcPolicy, now: u64)
    returns (plan: SweepPlan)
    ensures plan == PlanSpec(blobs, holders, floor, p, now, OverQuota(holders, Index(blobs), p))
  {
    hide Warn, HasLessee, SatTotal, HolderSet, Index;
    var index := BuildIndex(blobs);
    plan := SweepPlan([], [], map[], map[]);
    for i := 0 to |holders|
      invariant plan == SweepPlan([], [], map[], OverQuota(holders[..i], index, p))
    {
      assert holders[..i + 1][..i] == holders[..i];
      var bytes := holders[i].LeasedBytes(index);
      if bytes > p.maxLeasedBytes {
        plan := plan.(overQuota := plan.overQuota[holders[i].id := bytes]);
      }
    }
    assert holders[..|holders|] == holders;
    ghost var quota := OverQuota(holders, index, p);
    var status := seq(|holders|, i requires 0 <= i < |holders| => holders[i].StatusAt(now, p));
    for i := 0 to |blobs|
      invariant plan == PlanSpec(blobs[..i], holders, floor, p, now, quota)
    {
      var b := blobs[i];
      assert blobs[..i + 1][..i] == blobs[..i];
      if b.addr in floor {
        plan := plan.(keep := plan.keep + [(b.addr, RetentionFloor)]);
        continue;
      }
      if SatSince(now, b.uploadedAt) < p.grace {
        plan := plan.(keep := plan.keep + [(b.addr, YoungBlob)]);
        continue;
      }
      var active, expiring := ScanLessees(holders, status, b.addr, p, now);
      if active {
        plan := plan.(keep := plan.keep + [(b.addr, Leased)]);
        continue;
      }
      if expiring {
        plan := plan.(keep := plan.keep + [(b.addr, LeasedByExpiring)]);
      } else {
        plan := plan.(delete := plan.delete + [b.addr]);
      }
      var warnings := WarnLessees(plan.warnings, holders, b.addr);
      plan := plan.(warnings := warnings);
    }
    assert blobs[..|blobs|] == blobs;
  }

  method BuildIndex(blobs: seq<BlobInfo>) returns (index: map<Addr, BlobInfo>)
    ensures index == Index(blobs)
  {
    index := map[];
    for i := 0 to |blobs|
      invariant index == Index(blobs[..i])
    {
      assert blobs[..i + 1][..i] == blobs[..i];
      index := index[blobs[i].addr := blobs[i]];
    }
    assert blobs[..|blobs|] == blobs;
  }

  method ScanLessees(holders: seq<Holder>, status: seq<Status>, a: Addr, p: GcPolicy, now: u64)
    returns (active: bool, expiring: bool)
    requires |status| == |holders|
    requires forall i | 0 <= i < |holders| :: status[i] == holders[i].StatusAt(now, p)
    ensures active == HasLessee(HolderSet(holders), a, Active, now, p)
    ensures expiring == HasLessee(HolderSet(holders), a, Expiring, now, p)
  {
    active, expiring := false, false;
    for i := 0 to |holders|
      invariant active == HasLessee(HolderSet(holders[..i]), a, Active, now, p)
      invariant expiring == HasLessee(HolderSet(holders[..i]), a, Expiring, now, p)
    {
      assert HolderSet(holders[..i + 1]) == HolderSet(holders[..i]) + {holders[i]} by {
        assert holders[..i + 1] == holders[..i] + [holders[i]];
      }
      if a in holders[i].leased {
        match status[i]
        case Active => active := true;
        case Expiring => expiring := true;
        case Expired =>
      }
    }
    assert holders[..|holders|] == holders;
  }

  method WarnLessees(w: map<Digest, seq<Addr>>, holders: seq<Holder>, a: Addr) returns (v: map<Digest, seq<Addr>>)
    ensures v == Warn(w, holders, a)
  {
    v := w;
    for i := 0 to |holders|
      invariant v == Warn(w, holders[..i], a)
    {
      assert holders[..i + 1][..i] == holders[..i];
      if a in holders[i].leased {
        v := v[holders[i].id := (if holders[i].id in v then v[holders[i].id] else []) + [a]];
      }
    }
    assert holders[..|holders|] == holders;
  }

  // ---- What a plan says

  /** `a` is on the list handed to holder `id`. */
  predicate Warned(plan: SweepPlan, id: Digest, a: Addr) {
    id in plan.warnings && a in plan.warnings[id]
  }

  predicate Leases(holders: seq<Holder>, id: Digest, a: Addr) {
    exists h :: h in holders && h.id == id && a in h.leased
  }

  lemma {:induction false} WarnMeaning(w: map<Digest, seq<Addr>>, holders: seq<Holder>, a: Addr, id: Digest, x: Addr)
    ensures var v := Warn(w, holders, a);
            (id in v && x in v[id]) <==> (id in w && x in w[id]) || (x == a && Leases(holders, id, a))
  {
    if holders != [] {
      var n := |holders| - 1;
      WarnMeaning(w, holders[..n], a, id, x);
      assert forall h :: h in holders <==> h in holders[..n] || h == holders[n];
    }
  }

  /** A listed blob whose fate under this plan is `f`. */
  predicate Fated(blobs: seq<BlobInfo>, holders: seq<Holder>, floor: set<Addr>, p: GcPolicy, now: u64, a: Addr, f: Fate) {
    exists b :: b in blobs && b.addr == a && FateOf(b, HolderSet(holders), floor, p, now) == f
  }

  lemma FatedStep(blobs: seq<BlobInfo>, holders: seq<Holder>, floor: set<Addr>, p: GcPolicy, now: u64, a: Addr, f: Fate)
    requires blobs != []
    ensures var n := |blobs| - 1;
            Fated(blobs, holders, floor, p, now, a, f) <==>
            || Fated(blobs[..n], holders, floor, p, now, a, f)
            || (blobs[n].addr == a && FateOf(blobs[n], HolderSet(holders), floor, p, now) == f)
  {
    hide FateOf, HolderSet;
    assert forall b :: b in blobs <==> b in blobs[..|blobs| - 1] || b == blobs[|blobs| - 1];
  }

  /**
   * The plan is exactly the cascade: an address is deleted, kept for a reason, or listed
   * to a holder if and only if some listed blob with that address has that fate.
   */
  lemma {:induction false} PlanMeaning(blobs: seq<BlobInfo>, holders: seq<Holder>, floor: set<Addr>, p: GcPolicy, now: u64,
                                       quota: map<Digest, u64>, a: Addr, why: Keep, id: Digest)
    ensures var plan := PlanSpec(blobs, holders, floor, p, now, quota);
            && (a in plan.delete <==> Fated(blobs, holders, floor, p, now, a, Deleted))
            && ((a, why) in plan.keep <==> Fated(blobs, holders, floor, p, now, a, Kept(why)))
            && (Warned(plan, id, a) <==>
                && Leases(holders, id, a)
                && (Fated(blobs, holders, floor, p, now, a, Deleted)
                    || Fated(blobs, holders, floor, p, now, a, Kept(LeasedByExpiring))))
            && |plan.delete| + |plan.keep| == |blobs|
  {
    if blobs == [] {
      assert forall f :: !Fated(blobs, holders, floor, p, now, a, f);
    } else {
      hide FateOf, Warn, HolderSet, Leases, Fated;
      var n := |blobs| - 1;
      PlanMeaning(blobs[..n], holders, floor, p, now, quota, a, why, id);
      WarnMeaning(PlanSpec(blobs[..n], holders, floor, p, now, quota).warnings, holders, blobs[n].addr, id, a);
      FatedStep(blobs, holders, floor, p, now, a, Deleted);
      FatedStep(blobs, holders, floor, p, now, a, Kept(why));
      FatedStep(blobs, holders, floor, p, now, a, Kept(LeasedByExpiring));
    }
  }

  lemma {:induction false} OverQuotaIds(holders: seq<Holder>, index: map<Addr, BlobInfo>, p: GcPolicy, id: Digest)
    requires id in OverQuota(holders, index, p)
    ensures exists j :: 0 <= j < |holders| && holders[j].id == id
  {
    hide SatTotal;
    var n := |holders| - 1;
    if holders[n].id != id {
      OverQuotaIds(holders[..n], index, p, id);
      var j :| 0 <= j < n && holders[..n][j].id == id;
      assert holders[j].id == id;
    }
  }

  /** With distinct ids, the quota report names exactly the holders over the ceiling. */
  lemma {:induction false} OverQuotaMeaning(holders: seq<Holder>, index: map<Addr, BlobInfo>, p: GcPolicy, i: nat)
    requires forall j, k | 0 <= j < k < |holders| :: holders[j].id != holders[k].id
    requires i < |holders|
    ensures var (over, h) := (OverQuota(holders, index, p), holders[i]);
            && (h.id in over <==> h.LeasedBytes(index) > p.maxLeasedBytes)
            && (h.id in over ==> over[h.id] == h.LeasedBytes(index))
  {
    hide SatTotal;
    var n := |holders| - 1;
    if i < n {
      OverQuotaMeaning(holders[..n], index, p, i);
    } else if holders[n].id in OverQuota(holders[..n], index, p) {
      OverQuotaIds(holders[..n], index, p, holders[n].id);
    }
  }

  /** The index finds, under an address, the last listed blob with that address. */
  lemma {:induction false} IndexMeaning(blobs: seq<BlobInfo>, a: Addr)
    ensures a in Index(blobs) <==> exists b :: b in blobs && b.addr == a
    ensures a in Index(blobs) ==>
            exists i :: 0 <= i < |blobs| && Index(blobs)[a] == blobs[i] && blobs[i].addr == a
                        && forall j | i < j < |blobs| :: blobs[j].addr != a
  {
    if blobs != [] {
      var n := |blobs| - 1;
      IndexMeaning(blobs[..n], a);
      assert forall b :: b in blobs <==> b in blobs[..n] || b == blobs[n];
      if blobs[n].addr != a && a in Index(blobs) {
        var i :| 0 <= i < n && Index(blobs[..n])[a] == blobs[..n][i] && blobs[..n][i].addr == a
                 && forall j | i < j < n :: blobs[..n][j].addr != a;
        assert forall j | i < j < n :: blobs[..n][j] == blobs[j];
        assert Index(blobs)[a] == blobs[i] && forall j | i < j < |blobs| :: blobs[j].addr != a;
      }
    }
  }

  /** The addresses of some blobs, in their order. */
  ghost function AddrsOf(blobs: seq<BlobInfo>, which: BlobInfo -> bool): seq<Addr> {
    if blobs == [] then [] else
      var n := |blobs| - 1;
      AddrsOf(blobs[..n], which) + if which(blobs[n]) then [blobs[n].addr] else []
  }

  /** No two holders share an id. */
  predicate Apart(holders: seq<Holder>) {
    forall i, j | 0 <= i < j < |holders| :: holders[i].id != holders[j].id
  }

  function ListFor(w: map<Digest, seq<Addr>>, id: Digest): seq<Addr> {
    if id in w then w[id] else []
  }

  lemma {:induction false} WarnApart(w: map<Digest, seq<Addr>>, holders: seq<Holder>, a: Addr, h: Holder)
    requires Apart(holders) && (h in holders || forall k | k in holders :: k.id != h.id)
    ensures ListFor(Warn(w, holders, a), h.id) == ListFor(w, h.id) + if h in holders && a in h.leased then [a] else []
  {
    if holders != [] {
      var n := |holders| - 1;
      assert forall k :: k in holders <==> k in holders[..n] || k == holders[n];
      forall i | 0 <= i < n ensures holders[i].id != holders[n].id {
      }
      WarnApart(w, holders[..n], a, h);
    }
  }

  /**
   * The plan's lists, in order and without repeats of its own: the deleted addresses are
   * those of the blobs fated so, and with distinct ids each holder's list is those of the
   * blobs at risk that it leases.
   */
  lemma {:induction false} PlanInOrder(blobs: seq<BlobInfo>, holders: seq<Holder>, floor: set<Addr>, p: GcPolicy, now: u64,
                                       quota: map<Digest, u64>, h: Holder)
    requires Apart(holders) && h in holders
    ensures var plan := PlanSpec(blobs, holders, floor, p, now, quota);
            && plan.delete == AddrsOf(blobs, b => FateOf(b, HolderSet(holders), floor, p, now) == Deleted)
            && ListFor(plan.warnings, h.id)
               == AddrsOf(blobs, b => AtRisk(FateOf(b, HolderSet(holders), floor, p, now)) && b.addr in h.leased)
            && plan.overQuota == quota
  {
    hide FateOf, Warn, HolderSet;
    if blobs != [] {
      var n := |blobs| - 1;
      PlanInOrder(blobs[..n], holders, floor, p, now, quota, h);
      WarnApart(PlanSpec(blobs[..n], holders, floor, p, now, quota).warnings, holders, blobs[n].addr, h);
    }
  }

  /** The quota report of a plan names a holder exactly when the blobs it leases weigh more than the ceiling. */
  lemma QuotaReport(blobs: seq<BlobInfo>, holders: seq<Holder>, floor: set<Addr>, p: GcPolicy, now: u64, i: nat)
    requires Apart(holders) && i < |holders| && p.maxLeasedBytes < U64_MAX
    ensures var plan := PlanSpec(blobs, holders, floor, p, now, OverQuota(holders, Index(blobs), p));
            holders[i].id in plan.overQuota <==> TrueTotal(holders[i].leased, Index(blobs)) > p.maxLeasedBytes
  {
    hide FateOf, Warn, HolderSet, SatTotal, Index, TrueTotal;
    PlanInOrder(blobs, holders, floor, p, now, OverQuota(holders, Index(blobs), p), holders[i]);
    OverQuotaMeaning(holders, Index(blobs), p, i);
    QuotaExact(holders[i], Index(blobs), p);
  }

  // ---- Time

  /** Once deleted, always deleted: the decision only hardens as the clock advances. */
  lemma DeletionHardens(b: BlobInfo, holders: set<Holder>, floor: set<Addr>, p: GcPolicy, now: u64, later: u64)
    requires now <= later && FateOf(b, holders, floor, p, now) == Deleted
    ensures FateOf(b, holders, floor, p, later) == Deleted
  {
    forall h | h in holders && b.addr in h.leased ensures h.StatusAt(later, p) == Expired {
      assert h.StatusAt(now, p) == Expired;
    }
  }

  /** More protection: every lease is still there or larger, and seen as late or later. */
  ghost predicate Stronger(holders: set<Holder>, more: set<Holder>) {
    forall h | h in holders :: exists k :: k in more && k.lastSeen >= h.lastSeen && Elements(h.leased) <= Elements(k.leased)
  }

  /** A larger floor, more or larger leases, renewals and fresh uploads only ever shrink the sweep. */
  lemma ProtectionShrinks(b: BlobInfo, touched: u64, holders: set<Holder>, more: set<Holder>, floor: set<Addr>, higher: set<Addr>,
                          p: GcPolicy, now: u64)
    requires Stronger(holders, more) && floor <= higher && b.uploadedAt <= touched
    requires FateOf(b.(uploadedAt := touched), more, higher, p, now) == Deleted
    ensures FateOf(b, holders, floor, p, now) == Deleted
  {
    forall h | h in holders && b.addr in h.leased ensures h.StatusAt(now, p) == Expired {
      var k :| k in more && k.lastSeen >= h.lastSeen && Elements(h.leased) <= Elements(k.leased);
      assert b.addr in Elements(h.leased);
      assert k.StatusAt(now, p) == Expired;
    }
  }

  /** Every holder leasing `a` has run out its notice. */
  predicate AllLapsed(holders: set<Holder>, a: Addr, p: GcPolicy, now: u64) {
    forall h | h in holders && a in h.leased :: h.lastSeen + p.leaseExpiry + p.notice < now
  }

  /** What a sweep may delete, said without the cascade. */
  lemma DeletedIff(b: BlobInfo, holders: set<Holder>, floor: set<Addr>, p: GcPolicy, now: u64)
    ensures FateOf(b, holders, floor, p, now) == Deleted <==>
            && b.addr !in floor && Waited(b.uploadedAt, p.grace, now) && AllLapsed(holders, b.addr, p, now)
  {
    if !AllLapsed(holders, b.addr, p, now) {
      var h :| h in holders && b.addr in h.leased && now <= h.lastSeen + p.leaseExpiry + p.notice;
      assert h.StatusAt(now, p) != Expired;
    }
  }

  /** The strongest reason is the one reported, and `AtRisk` is exactly what no live protection covers. */
  lemma ReasonIff(b: BlobInfo, holders: set<Holder>, floor: set<Addr>, p: GcPolicy, now: u64)
    ensures var f := FateOf(b, holders, floor, p, now);
            var young := !Waited(b.uploadedAt, p.grace, now);
            var live := exists h :: h in holders && b.addr in h.leased && now <= h.lastSeen + p.leaseExpiry;
            && (f == Kept(RetentionFloor) <==> b.addr in floor)
            && (f == Kept(YoungBlob) <==> b.addr !in floor && young)
            && (f == Kept(Leased) <==> b.addr !in floor && !young && live)
            && (AtRisk(f) <==> b.addr !in floor && !young && !live)
  {
    forall h: Holder ensures h.StatusAt(now, p) == Active <==> now <= h.lastSeen + p.leaseExpiry {
    }
  }

  /** Some listed blob at `a` is past its grace. */
  predicate PastGrace(blobs: seq<BlobInfo>, a: Addr, p: GcPolicy, now: u64) {
    exists b :: b in blobs && b.addr == a && Waited(b.uploadedAt, p.grace, now)
  }

  /** Every holder leasing `a` has been idle past the expiry. */
  predicate AllIdle(holders: set<Holder>, a: Addr, p: GcPolicy, now: u64) {
    forall h | h in holders && a in h.leased :: h.lastSeen + p.leaseExpiry < now
  }

  lemma AtRiskIff(b: BlobInfo, holders: set<Holder>, floor: set<Addr>, p: GcPolicy, now: u64)
    ensures AtRisk(FateOf(b, holders, floor, p, now)) <==>
            b.addr !in floor && Waited(b.uploadedAt, p.grace, now) && AllIdle(holders, b.addr, p, now)
  {
    ReasonIff(b, holders, floor, p, now);
  }

  /** Who is on whose list, with the cascade gone: every lessee of a blob that no floor, grace or live lease covers. */
  lemma WarnedIff(blobs: seq<BlobInfo>, holders: seq<Holder>, floor: set<Addr>, p: GcPolicy, now: u64,
                  quota: map<Digest, u64>, id: Digest, a: Addr)
    ensures Warned(PlanSpec(blobs, holders, floor, p, now, quota), id, a) <==>
            && Leases(holders, id, a) && a !in floor
            && PastGrace(blobs, a, p, now) && AllIdle(HolderSet(holders), a, p, now)
  {
    hide PlanSpec, FateOf, AllIdle, Leases, HolderSet;
    PlanMeaning(blobs, holders, floor, p, now, quota, a, Leased, id);
    forall b | b in blobs
      ensures AtRisk(FateOf(b, HolderSet(holders), floor, p, now)) <==>
              b.addr !in floor && Waited(b.uploadedAt, p.grace, now) && AllIdle(HolderSet(holders), b.addr, p, now)
    {
      AtRiskIff(b, HolderSet(holders), floor, p, now);
    }
  }

  /** What is on the deletion list, with the cascade gone. */
  lemma TakenIff(blobs: seq<BlobInfo>, holders: seq<Holder>, floor: set<Addr>, p: GcPolicy, now: u64,
                 quota: map<Digest, u64>, a: Addr)
    ensures a in PlanSpec(blobs, holders, floor, p, now, quota).delete <==>
            a !in floor && PastGrace(blobs, a, p, now) && AllLapsed(HolderSet(holders), a, p, now)
  {
    hide PlanSpec, FateOf, AllLapsed, HolderSet;
    PlanMeaning(blobs, holders, floor, p, now, quota, a, Leased, a);
    forall b | b in blobs
      ensures FateOf(b, HolderSet(holders), floor, p, now) == Deleted <==>
              b.addr !in floor && Waited(b.uploadedAt, p.grace, now) && AllLapsed(HolderSet(holders), b.addr, p, now)
    {
      DeletedIff(b, HolderSet(holders), floor, p, now);
    }
  }

  /**
   * A warning is a promise: an address on any holder's list now is on the deletion list of
   * every later plan over the same state, once all its lessees have lapsed.
   */
  lemma WarnedIsTaken(blobs: seq<BlobInfo>, holders: seq<Holder>, floor: set<Addr>, p: GcPolicy, now: u64, later: u64,
                      quota: map<Digest, u64>, id: Digest, a: Addr)
    requires now <= later && Warned(PlanSpec(blobs, holders, floor, p, now, quota), id, a)
    requires AllLapsed(HolderSet(holders), a, p, later)
    ensures a in PlanSpec(blobs, holders, floor, p, later, quota).delete
  {
    hide PlanSpec, AllLapsed, HolderSet;
    WarnedIff(blobs, holders, floor, p, now, quota, id, a);
    TakenIff(blobs, holders, floor, p, later, quota, a);
    var b :| b in blobs && b.addr == a && Waited(b.uploadedAt, p.grace, now);
    assert Waited(b.uploadedAt, p.grace, later);
  }

  /**
   * Nothing goes unannounced. If a leased address is on the deletion list at `now`, then at
   * every instant of the notice window after its latest lessee was last seen, once the blob
   * is past its grace, the plan keeps it as expiring and has it on every lessee's list.
   */
  lemma TakenWasWarned(blobs: seq<BlobInfo>, holders: seq<Holder>, floor: set<Addr>, p: GcPolicy, now: u64, at: u64,
                       quota: map<Digest, u64>, a: Addr, latest: Holder)
    requires a in PlanSpec(blobs, holders, floor, p, now, quota).delete && PastGrace(blobs, a, p, at)
    requires latest in holders && a in latest.leased
    requires forall h | h in holders && a in h.leased :: h.lastSeen <= latest.lastSeen
    requires latest.lastSeen + p.leaseExpiry < at <= latest.lastSeen + p.leaseExpiry + p.notice
    ensures var plan := PlanSpec(blobs, holders, floor, p, at, quota);
            && at < now && a !in plan.delete && (a, LeasedByExpiring) in plan.keep
            && forall id | Leases(holders, id, a) :: Warned(plan, id, a)
  {
    hide PlanSpec, FateOf;
    TakenIff(blobs, holders, floor, p, now, quota, a);
    TakenIff(blobs, holders, floor, p, at, quota, a);
    assert latest in HolderSet(holders);
    forall id | Leases(holders, id, a) ensures Warned(PlanSpec(blobs, holders, floor, p, at, quota), id, a) {
      WarnedIff(blobs, holders, floor, p, at, quota, id, a);
    }
    PlanMeaning(blobs, holders, floor, p, at, quota, a, LeasedByExpiring, latest.id);
    assert Leases(holders, latest.id, a);
  }
}
