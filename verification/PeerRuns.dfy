/**
 * Whole runs of a peer: uploads, leases, retention, the deletion trail and sweeps in any
 * order, under arbitrary clock readings (crates/nas-peer/src/peer.rs around plan_sweep).
 */
module PeerRuns {
  import opened Wrappers
  import opened Bytes
  import opened AddrOrder
  import opened Sweep
  import D = DeletionRuns
  import DeletionReach
  import R = DeleteRecord
  import S = Signing
  import L = LeaseReplay

  datatype Site = Site(deletion: D.Deployment, gc: GcPolicy)

  datatype Lease = Lease(leased: set<Addr>, lastSeen: u64)

  datatype Peer = Peer(
    trail: D.State, blobs: map<Addr, BlobInfo>, leases: map<Digest, Lease>, retention: set<Addr>)
  {
    /** `holders`, in the shape the planner wants. */
    ghost function Holders(): set<Holder> {
      set id | id in leases :: Holder(id, L.ToVec(leases[id].leased), leases[id].lastSeen)
    }
  }

  datatype Event =
    | Trail(ev: D.Event)
    | Upload(addr: Addr, size: u64, now: u64)
    | Prove(addr: Addr, now: u64)
    | TakeLease(holder: Digest, addrs: seq<Addr>, now: u64)
    | ReleaseLease(holder: Digest, addrs: seq<Addr>, now: u64)
    | ExtendRetention(addrs: seq<Addr>)
    | PublishRetention(addrs: seq<Addr>)
    | Forget(addrs: seq<Addr>, proof: R.Execution)
    /** The caller of `sweep` brings holders and policy; the floor is the peer's own. */
    | RunSweep(holders: set<Holder>, policy: GcPolicy, now: u64)

  function Held(s: Peer, id: Digest): set<Addr> {
    if id in s.leases then s.leases[id].leased else {}
  }

  /** `take_lease` is all or nothing: every blob held, and the holder within its ceiling. */
  ghost predicate TakeAccepted(site: Site, s: Peer, id: Digest, addrs: seq<Addr>) {
    && (forall a | a in addrs :: a in s.blobs)
    && SatTotal(L.ToVec(Held(s, id) + Elements(addrs)), s.blobs) <= site.gc.maxLeasedBytes
  }

  /** `forget_retention` wants a proof that verifies and whose request was executed. */
  ghost predicate ForgetAccepted(site: Site, s: Peer, proof: R.Execution) {
    && R.VerifyExecutionSpec(S.Ideal(site.deletion.hash, s.trail.signed), proof).Ok?
    && s.trail.Recorded(proof.requestHash)
  }

  /** A sweep with these holders and this policy would delete `a`. */
  ghost predicate Swept(s: Peer, holders: set<Holder>, policy: GcPolicy, a: Addr, now: u64) {
    a in s.blobs && FateOf(s.blobs[a], holders, s.retention, policy, now) == Deleted
  }

  /** `sweep_warnings` told holder `id` of `a`: by the peer's own holders and policy, only a lapsed lease covers it. */
  ghost predicate Listed(site: Site, s: Peer, id: Digest, a: Addr, now: u64) {
    a in s.blobs && a in Held(s, id) && AtRisk(FateOf(s.blobs[a], s.Holders(), s.retention, site.gc, now))
  }

  /** One event. A refused one changes nothing. */
  ghost function Step(site: Site, s: Peer, ev: Event): Peer {
    match ev
    case Trail(e) => s.(trail := D.Step(site.deletion, s.trail, e))
    case Upload(a, size, now) =>
      // A put of bytes already held only moves the stamp.
      s.(blobs := s.blobs[a := BlobInfo(a, if a in s.blobs then s.blobs[a].size else size, now)])
    case Prove(a, now) =>
      if a in s.blobs then s.(blobs := s.blobs[a := s.blobs[a].(uploadedAt := now)]) else s
    case TakeLease(id, addrs, now) =>
      if TakeAccepted(site, s, id, addrs)
      then s.(leases := s.leases[id := Lease(Held(s, id) + Elements(addrs), now)]) else s
    case ReleaseLease(id, addrs, now) =>
      if id in s.leases
      then s.(leases := s.leases[id := Lease(s.leases[id].leased - Elements(addrs), now)]) else s
    case ExtendRetention(addrs) => s.(retention := s.retention + Elements(addrs))
    case PublishRetention(addrs) =>
      if s.retention <= Elements(addrs) then s.(retention := Elements(addrs)) else s
    case Forget(addrs, proof) =>
      if ForgetAccepted(site, s, proof) then s.(retention := s.retention - Elements(addrs)) else s
    case RunSweep(holders, policy, now) =>
      s.(blobs := map a | a in s.blobs && !Swept(s, holders, policy, a, now) :: s.blobs[a])
  }

  ghost function Run(site: Site, events: seq<Event>): Peer {
    if events == [] then Peer(D.Start(site.deletion), map[], map[], {}) else
      var n := |events| - 1;
      Step(site, Run(site, events[..n]), events[n])
  }

  // ---- What happened, read off the events alone

  /** When a client last handed over, or was proven, the bytes of `a`. */
  ghost function LastOffer(site: Site, events: seq<Event>, a: Addr): Option<u64> {
    if events == [] then None else
      var n := |events| - 1;
      var ev := events[n];
      if (ev.Upload? || (ev.Prove? && a in Run(site, events[..n]).blobs)) && ev.addr == a then Some(ev.now)
      else LastOffer(site, events[..n], a)
  }

  /** Holder `id` took a lease on `a` and has not released it since. */
  ghost predicate StillLeased(site: Site, events: seq<Event>, id: Digest, a: Addr) {
    events != [] &&
    var n := |events| - 1;
    var ev := events[n];
    if ev.TakeLease? && ev.holder == id && a in ev.addrs && TakeAccepted(site, Run(site, events[..n]), id, ev.addrs)
    then true
    else if ev.ReleaseLease? && ev.holder == id && a in ev.addrs then false
    else StillLeased(site, events[..n], id, a)
  }

  /** When holder `id` last published a lease record the peer took. */
  ghost function LastContact(site: Site, events: seq<Event>, id: Digest): Option<u64> {
    if events == [] then None else
      var n := |events| - 1;
      var ev, before := events[n], Run(site, events[..n]);
      if (ev.TakeLease? && ev.holder == id && TakeAccepted(site, before, id, ev.addrs))
         || (ev.ReleaseLease? && ev.holder == id && id in before.leases) then Some(ev.now)
      else LastContact(site, events[..n], id)
  }

  lemma {:induction false} BlobsFollowOffers(site: Site, events: seq<Event>, a: Addr)
    requires a in Run(site, events).blobs
    ensures LastOffer(site, events, a) == Some(Run(site, events).blobs[a].uploadedAt)
            && Run(site, events).blobs[a].addr == a
  {
    hide TakeAccepted, ForgetAccepted, Swept, D.Step, L.ToVec;
    var n := |events| - 1;
    if a in Run(site, events[..n]).blobs {
      BlobsFollowOffers(site, events[..n], a);
    }
  }

  lemma {:induction false} LeasesFollowTakes(site: Site, events: seq<Event>, id: Digest, a: Addr)
    ensures StillLeased(site, events, id, a) <==> a in Held(Run(site, events), id)
    ensures LastContact(site, events, id)
            == if id in Run(site, events).leases then Some(Run(site, events).leases[id].lastSeen) else None
  {
    hide TakeAccepted, ForgetAccepted, Swept, D.Step, L.ToVec;
    if events != [] {
      LeasesFollowTakes(site, events[..|events| - 1], id, a);
    }
  }

  /**
   * Sweep safety over every run: whatever came before, a sweep deletes nothing on the
   * retention floor and nothing offered less than `grace` ago (a deduplicated upload and
   * an answered proof count), whichever holders the caller passes. If these include the
   * peer's own, it deletes nothing leased by a holder idle at most `lease_expiry + notice`.
   */
  lemma SweepSafe(site: Site, events: seq<Event>, holders: set<Holder>, policy: GcPolicy, a: Addr, now: u64)
    requires Swept(Run(site, events), holders, policy, a, now)
    ensures a !in Run(site, events).retention
    ensures LastOffer(site, events, a).Some? && Waited(LastOffer(site, events, a).value, policy.grace, now)
    ensures Run(site, events).Holders() <= holders ==>
              forall id | StillLeased(site, events, id, a) ::
                && LastContact(site, events, id).Some?
                && LastContact(site, events, id).value + policy.leaseExpiry + policy.notice < now
  {
    var s := Run(site, events);
    BlobsFollowOffers(site, events, a);
    DeletedIff(s.blobs[a], holders, s.retention, policy, now);
    if s.Holders() <= holders {
      forall id | StillLeased(site, events, id, a)
        ensures LastContact(site, events, id).Some?
                && LastContact(site, events, id).value + policy.leaseExpiry + policy.notice < now
      {
        LeasesFollowTakes(site, events, id, a);
        var h := Holder(id, L.ToVec(s.leases[id].leased), s.leases[id].lastSeen);
        assert h in s.Holders() && a in Elements(h.leased);
      }
    }
  }

  /**
   * Sweep completeness: a held blob that nothing protects, by the same history, is deleted
   * by a sweep over the peer's own holders. With SweepSafe this pins that sweep down over
   * every run.
   */
  lemma SweepComplete(site: Site, events: seq<Event>, policy: GcPolicy, a: Addr, now: u64)
    requires a in Run(site, events).blobs && a !in Run(site, events).retention
    requires LastOffer(site, events, a).Some? && Waited(LastOffer(site, events, a).value, policy.grace, now)
    requires forall id | StillLeased(site, events, id, a) ::
               LastContact(site, events, id).Some? ==>
               LastContact(site, events, id).value + policy.leaseExpiry + policy.notice < now
    ensures var holders := Run(site, events).Holders();
            Swept(Run(site, events), holders, policy, a, now) && a !in Run(site, events + [RunSweep(holders, policy, now)]).blobs
  {
    var s := Run(site, events);
    BlobsFollowOffers(site, events, a);
    DeletedIff(s.blobs[a], s.Holders(), s.retention, policy, now);
    forall h | h in s.Holders() && a in h.leased
      ensures h.lastSeen + policy.leaseExpiry + policy.notice < now
    {
      assert a in Elements(h.leased);
      LeasesFollowTakes(site, events, h.id, a);
    }
    assert (events + [RunSweep(s.Holders(), policy, now)])[..|events|] == events;
  }

  // ---- What the peer accepts, read off the events

  /** The size a held blob was first uploaded with, since it was last absent. */
  ghost function FirstSize(site: Site, events: seq<Event>, a: Addr): Option<u64> {
    if events == [] then None else
      var n := |events| - 1;
      if events[n].Upload? && events[n].addr == a && a !in Run(site, events[..n]).blobs then Some(events[n].size)
      else FirstSize(site, events[..n], a)
  }

  lemma {:induction false} SizesFollowUploads(site: Site, events: seq<Event>, a: Addr)
    requires a in Run(site, events).blobs
    ensures FirstSize(site, events, a) == Some(Run(site, events).blobs[a].size)
  {
    hide TakeAccepted, ForgetAccepted, Swept, D.Step, L.ToVec;
    var n := |events| - 1;
    if a in Run(site, events[..n]).blobs {
      SizesFollowUploads(site, events[..n], a);
    }
  }

  /** A lease is taken exactly when every blob it names is held and the holder stays within the ceiling. */
  lemma TakenLeaseIff(site: Site, events: seq<Event>, id: Digest, addrs: seq<Addr>, now: u64)
    requires site.gc.maxLeasedBytes < U64_MAX
    ensures var (s, t) := (Run(site, events), Run(site, events + [TakeLease(id, addrs, now)]));
            if && (forall a | a in addrs :: a in s.blobs)
               && TrueTotal(L.ToVec(Held(s, id) + Elements(addrs)), s.blobs) <= site.gc.maxLeasedBytes
            then Held(t, id) == Held(s, id) + Elements(addrs) && LastContact(site, events + [TakeLease(id, addrs, now)], id) == Some(now)
            else t == s
  {
    hide L.ToVec, ForgetAccepted, Swept, D.Step;
    var ev := TakeLease(id, addrs, now);
    Snoc(site, events, ev);
    SatTotalIsClamped(L.ToVec(Held(Run(site, events), id) + Elements(addrs)), Run(site, events).blobs);
    assert (events + [ev])[..|events|] == events;
  }

  /** `a` was put on the floor and not taken off since, by the events alone. */
  ghost predicate OnFloor(site: Site, events: seq<Event>, a: Addr) {
    events != [] &&
    var n := |events| - 1;
    var ev, before := events[n], events[..n];
    if ev.ExtendRetention? then a in ev.addrs || OnFloor(site, before, a)
    else if ev.PublishRetention? then
      if forall x | OnFloor(site, before, x) :: x in ev.addrs then a in ev.addrs else OnFloor(site, before, a)
    else if ev.Forget? && ForgetAccepted(site, Run(site, before), ev.proof) then a !in ev.addrs && OnFloor(site, before, a)
    else OnFloor(site, before, a)
  }

  /** The floor is what was put on it: a published set replaces it exactly when it drops nothing. */
  lemma {:induction false} FloorFollowsEvents(site: Site, events: seq<Event>)
    ensures forall a :: a in Run(site, events).retention <==> OnFloor(site, events, a)
  {
    hide TakeAccepted, ForgetAccepted, Swept, D.Step, L.ToVec;
    if events != [] {
      FloorFollowsEvents(site, events[..|events| - 1]);
    }
  }

  /** What a forget asks of its proof, in signatures made and executions recorded. */
  lemma ForgetIff(site: Site, events: seq<Event>, proof: R.Execution)
    ensures var trail := Run(site, events).trail;
            ForgetAccepted(site, Run(site, events), proof) <==>
            && |proof.executedBy| == S.VK_LEN && |proof.sig| == S.SIG_LEN
            && (proof.executedBy, S.Framed(S.DeleteExecution, proof.requestHash)) in trail.signed
            && (forall a | a in proof.approvals ::
                  && a.requestHash == proof.requestHash && |a.approverPk| == S.VK_LEN && |a.sig| == S.SIG_LEN
                  && (a.approverPk, S.Framed(S.DeleteApproval, proof.requestHash)) in trail.signed)
            && (exists i :: 0 <= i < |trail.executed| && trail.executed[i].execution.requestHash == proof.requestHash)
  {
    hide S.Framed, Run;
    var c := S.Ideal(site.deletion.hash, Run(site, events).trail.signed);
    R.CheckApprovalsMeaning(c, proof.approvals, proof.requestHash);
    forall a | a in proof.approvals
      ensures R.Binds(c, a, proof.requestHash) <==>
              && a.requestHash == proof.requestHash && |a.approverPk| == S.VK_LEN && |a.sig| == S.SIG_LEN
              && (a.approverPk, S.Framed(S.DeleteApproval, proof.requestHash)) in Run(site, events).trail.signed
    {
    }
  }

  // ---- The floor and the vote

  ghost predicate Lifts(site: Site, s: Peer, ev: Event, a: Addr) {
    ev.Forget? && a in ev.addrs && ForgetAccepted(site, s, ev.proof)
  }

  /** An address leaves the floor only through an accepted forget that names it. */
  lemma {:induction false} FloorNeedsForget(site: Site, before: seq<Event>, then_: seq<Event>, a: Addr) returns (k: nat)
    requires a in Run(site, before).retention && a !in Run(site, before + then_).retention
    ensures k < |then_| && Lifts(site, Run(site, before + then_[..k]), then_[k], a)
    decreases |then_|
  {
    hide TakeAccepted, ForgetAccepted, Swept, D.Step, L.ToVec;
    k := 0;
    assert then_ == [] ==> before + then_ == before;
    if then_ != [] {
      var n := |then_| - 1;
      assert (before + then_)[..|before| + n] == before + then_[..n];
      if a in Run(site, before + then_[..n]).retention {
        k := n;
      } else {
        k := FloorNeedsForget(site, before, then_[..n], a);
        assert then_[..n][..k] == then_[..k];
      }
    }
  }

  /** The deletion events of a run. */
  function Votes(events: seq<Event>): seq<D.Event> {
    if events == [] then [] else
      var n := |events| - 1;
      if events[n].Trail? then Votes(events[..n]) + [events[n].ev] else Votes(events[..n])
  }

  /** The trail of a peer is the run of its deletion events alone. */
  lemma {:induction false} TrailIsItsOwnRun(site: Site, events: seq<Event>)
    ensures Run(site, events).trail == D.Run(site.deletion, Votes(events))
  {
    hide TakeAccepted, ForgetAccepted, Swept, D.Step, L.ToVec;
    if events != [] {
      var n := |events| - 1;
      TrailIsItsOwnRun(site, events[..n]);
      if events[n].Trail? {
        var v := Votes(events);
        assert v[..|v| - 1] == Votes(events[..n]);
      }
    }
  }

  /** Execution `i` of the trail met its quorum, each approver cooled off. */
  ghost predicate Voted(site: Site, trail: D.State, i: nat) {
    i < |trail.executed| && D.Lawful(site.deletion, trail, i)
  }

  /**
   * From the vote to the sweep. If an address was ever on the retention floor and a later
   * sweep, with whatever holders and policy, deletes its blob, then in between a forget named it, and the deletion it cites
   * had been executed with the owed number of distinct authority devices, each after its
   * own cooling-off (or two strings hashed in the run collide).
   */
  lemma SweptFromFloorWasVoted(site: Site, before: seq<Event>, then_: seq<Event>, holders: set<Holder>, policy: GcPolicy,
                               a: Addr, now: u64) returns (k: nat, i: nat)
    requires a in Run(site, before).retention && Swept(Run(site, before + then_), holders, policy, a, now)
    ensures k < |then_| && then_[k].Forget? && a in then_[k].addrs
    ensures var trail := Run(site, before + then_[..k]).trail;
            Voted(site, trail, i) && trail.executed[i].execution.requestHash == then_[k].proof.requestHash
  {
    var s := Run(site, before + then_);
    DeletedIff(s.blobs[a], holders, s.retention, policy, now);
    BlobsFollowOffers(site, before + then_, a);
    k := FloorNeedsForget(site, before, then_, a);
    var upTo := before + then_[..k];
    TrailIsItsOwnRun(site, upTo);
    D.EveryRun(site.deletion, Votes(upTo));
    i :| 0 <= i < |Run(site, upTo).trail.executed|
         && Run(site, upTo).trail.executed[i].execution.requestHash == then_[k].proof.requestHash;
  }

  // ---- What a forget does not ask for

  /** Nothing in these events records an execution. */
  predicate NoExecution(events: seq<Event>) {
    forall i | 0 <= i < |events| :: !(events[i].Trail? && events[i].ev.Executes?)
  }

  lemma Snoc(site: Site, events: seq<Event>, ev: Event)
    ensures Run(site, events + [ev]) == Step(site, Run(site, events), ev)
    ensures Votes(events + [ev]) == if ev.Trail? then Votes(events) + [ev.ev] else Votes(events)
  {
    assert (events + [ev])[..|events|] == events;
  }

  lemma StepRecordsNothing(site: Site, s: Peer, ev: Event)
    requires !(ev.Trail? && ev.ev.Executes?)
    ensures Step(site, s, ev).trail.executed == s.trail.executed
  {
    hide TakeAccepted, ForgetAccepted, Swept, L.ToVec;
  }

  lemma {:induction false} RecordsNothing(site: Site, before: seq<Event>, then_: seq<Event>)
    requires NoExecution(then_)
    ensures Run(site, before + then_).trail.executed == Run(site, before).trail.executed
    decreases |then_|
  {
    hide Step;
    if then_ == [] {
      assert before + then_ == before;
    } else {
      var n := |then_| - 1;
      RecordsNothing(site, before, then_[..n]);
      Snoc(site, before + then_[..n], then_[n]);
      assert before + then_ == (before + then_[..n]) + [then_[n]];
      StepRecordsNothing(site, Run(site, before + then_[..n]), then_[n]);
    }
  }

  /**
   * A forget asks only that its proof verifies and names a recorded request: not that it is
   * the execution that was recorded, that it carries an approval, or that the addresses are
   * what was voted on. After any run that recorded any execution, of whatever scope, any
   * key whatever signs a proof without a single approval and lifts any addresses.
   */
  lemma AnyoneCanForget(site: Site, events: seq<Event>, i: nat, key: Bytes, sig: Bytes, addrs: seq<Addr>) returns (more: seq<Event>)
    requires i < |Run(site, events).trail.executed| && |key| == S.VK_LEN && |sig| == S.SIG_LEN
    ensures var h := Run(site, events).trail.executed[i].execution.requestHash;
            more == [Trail(D.Signs(key, S.DeleteExecution, h)), Forget(addrs, R.Execution(h, [], key, sig))]
    ensures Run(site, events + more).retention == Run(site, events).retention - Elements(addrs)
  {
    hide TakeAccepted, Swept, L.ToVec, S.Framed;
    var s := Run(site, events);
    var h := s.trail.executed[i].execution.requestHash;
    var signs, forget := Trail(D.Signs(key, S.DeleteExecution, h)), Forget(addrs, R.Execution(h, [], key, sig));
    more := [signs, forget];
    Snoc(site, events, signs);
    Snoc(site, events + [signs], forget);
    assert events + more == events + [signs] + [forget];
    var t := Run(site, events + [signs]);
    assert t.trail.executed == s.trail.executed && t.retention == s.retention;
    assert t.trail.Recorded(h);
  }

  /** An address can leave the floor, with nothing more executed, exactly when some execution was ever recorded. */
  lemma LiftableIff(site: Site, events: seq<Event>, a: Addr)
    requires a in Run(site, events).retention
    ensures (exists more :: NoExecution(more) && a !in Run(site, events + more).retention) <==>
            Run(site, events).trail.executed != []
  {
    hide Run;
    if more :| NoExecution(more) && a !in Run(site, events + more).retention {
      var k := FloorNeedsForget(site, events, more, a);
      assert Run(site, events + more[..k]).trail.executed != [];
      RecordsNothing(site, events, more[..k]);
    }
    if Run(site, events).trail.executed != [] {
      var key, sig := seq(S.VK_LEN, _ => 0), seq(S.SIG_LEN, _ => 0);
      var more := AnyoneCanForget(site, events, 0, key, sig, [a]);
      assert a in Elements([a]);
      assert NoExecution(more);
    }
  }

  // ---- The planner

  /** The peer's inventory, listed in any order. */
  ghost predicate Lists(s: Peer, blobs: seq<BlobInfo>) {
    && (forall b | b in blobs :: b.addr in s.blobs && s.blobs[b.addr] == b)
    && (forall x | x in s.blobs :: s.blobs[x].addr == x && s.blobs[x] in blobs)
  }

  /**
   * However the peer lists its blobs, and whichever holders and policy the caller brings,
   * the planner deletes exactly what `Swept` says; with the peer's own, in any order, it
   * warns of exactly what `Listed` says.
   */
  lemma PlanIsTheSweep(site: Site, s: Peer, blobs: seq<BlobInfo>, holders: seq<Holder>, policy: GcPolicy, now: u64,
                       id: Digest, a: Addr)
    requires Lists(s, blobs)
    ensures var plan := PlanSpec(blobs, holders, s.retention, policy, now, OverQuota(holders, Index(blobs), policy));
            && (a in plan.delete <==> Swept(s, HolderSet(holders), policy, a, now))
            && (HolderSet(holders) == s.Holders() && policy == site.gc ==>
                (Warned(plan, id, a) <==> Listed(site, s, id, a, now)))
  {
    hide FateOf, OverQuota, Index, PlanSpec;
    PlanMeaning(blobs, holders, s.retention, policy, now, OverQuota(holders, Index(blobs), policy), a, Leased, id);
    if HolderSet(holders) == s.Holders() {
      LeasesIsHeld(s, holders, id, a);
    }
  }

  lemma LeasesIsHeld(s: Peer, holders: seq<Holder>, id: Digest, a: Addr)
    requires HolderSet(holders) == s.Holders()
    ensures Leases(holders, id, a) <==> a in Held(s, id)
  {
    if Leases(holders, id, a) {
      var h :| h in holders && h.id == id && a in h.leased;
      assert h in s.Holders() && a in Elements(h.leased);
    }
    if a in Held(s, id) {
      var h := Holder(id, L.ToVec(s.leases[id].leased), s.leases[id].lastSeen);
      assert h in s.Holders() && a in Elements(h.leased);
      assert h in HolderSet(holders);
    }
  }
}
