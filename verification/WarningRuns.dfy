/**
 * Warn before sweep over whole runs of a peer: who was told of a blob before it went
 * (crates/nas-peer/src/peer.rs:1011-1037 around plan_sweep).
 */
module WarningRuns {
  import opened Wrappers
  import opened Bytes
  import opened AddrOrder
  import opened Sweep
  import opened PeerRuns
  import D = DeletionRuns
  import DeletionReach
  import R = DeleteRecord
  import S = Signing
  import L = LeaseReplay

  /** Who is told of what, read off the history: a lessee is told of a blob no floor, grace or live lease covers. */
  lemma ListedIff(site: Site, events: seq<Event>, id: Digest, a: Addr, now: u64)
    ensures Listed(site, Run(site, events), id, a, now) <==>
            && a in Run(site, events).blobs && a !in Run(site, events).retention && StillLeased(site, events, id, a)
            && LastOffer(site, events, a).Some? && Waited(LastOffer(site, events, a).value, site.gc.grace, now)
            && AllQuiet(site, events, a, now)
  {
    hide FateOf, Run, StillLeased, LastContact, AllIdle, AllQuiet;
    var s := Run(site, events);
    LeasesFollowTakes(site, events, id, a);
    if a in s.blobs {
      BlobsFollowOffers(site, events, a);
      AtRiskIff(s.blobs[a], s.Holders(), s.retention, site.gc, now);
      QuietIsIdle(site, events, a, now);
    }
  }

  /** Every holder still leasing `a` was last heard from longer than the expiry ago. */
  ghost predicate AllQuiet(site: Site, events: seq<Event>, a: Addr, now: u64) {
    forall who | StillLeased(site, events, who, a) ::
      && LastContact(site, events, who).Some?
      && LastContact(site, events, who).value + site.gc.leaseExpiry < now
  }

  lemma QuietIsIdle(site: Site, events: seq<Event>, a: Addr, now: u64)
    ensures AllQuiet(site, events, a, now) <==> AllIdle(Run(site, events).Holders(), a, site.gc, now)
  {
    hide Run, StillLeased, LastContact;
    var s := Run(site, events);
    if AllIdle(s.Holders(), a, site.gc, now) {
      forall who | StillLeased(site, events, who, a)
        ensures LastContact(site, events, who).Some?
                && LastContact(site, events, who).value + site.gc.leaseExpiry < now
      {
        LeasesFollowTakes(site, events, who, a);
        var h := Holder(who, L.ToVec(s.leases[who].leased), s.leases[who].lastSeen);
        assert h in s.Holders() && a in Elements(h.leased);
      }
    }
    if AllQuiet(site, events, a, now) {
      forall h | h in s.Holders() && a in h.leased ensures h.lastSeen + site.gc.leaseExpiry < now {
        assert a in Elements(h.leased) && a in Held(s, h.id);
        LeasesFollowTakes(site, events, h.id, a);
        assert StillLeased(site, events, h.id, a);
      }
    }
  }

  // ---- A clock that does not go back

  /** The peer's clock when it handled an event, where it looked at it. */
  function Clock(ev: Event): Option<u64> {
    match ev
    case Trail(e) => if e.Executes? then Some(e.now) else None
    case Upload(_, _, now) => Some(now)
    case Prove(_, now) => Some(now)
    case TakeLease(_, _, now) => Some(now)
    case ReleaseLease(_, _, now) => Some(now)
    case RunSweep(_, _, now) => Some(now)
    case ExtendRetention(_) => None
    case PublishRetention(_) => None
    case Forget(_, _) => None
  }

  /** Every event from the `n`th on was handled at `at` or later. */
  predicate NotBefore(events: seq<Event>, n: nat, at: u64) {
    forall i | n <= i < |events| && Clock(events[i]).Some? :: at <= Clock(events[i]).value
  }

  /** The clock can read `at` when `n` events have been handled. */
  predicate Reading(events: seq<Event>, n: nat, at: u64) {
    && n <= |events| && NotBefore(events, n, at)
    && forall i | 0 <= i < n && Clock(events[i]).Some? :: Clock(events[i]).value <= at
  }

  /** The clock readings of the run and of the sweep after it never go back. */
  predicate Forward(events: seq<Event>, now: u64) {
    && (forall i, j | 0 <= i < j < |events| && Clock(events[i]).Some? && Clock(events[j]).Some? ::
          Clock(events[i]).value <= Clock(events[j]).value)
    && (forall i | 0 <= i < |events| && Clock(events[i]).Some? :: Clock(events[i]).value <= now)
  }

  /** A holder last heard from before `at` has done nothing since. */
  lemma {:induction false} QuietHolder(site: Site, events: seq<Event>, n: nat, who: Digest, a: Addr, at: u64)
    requires n <= |events| && NotBefore(events, n, at)
    requires LastContact(site, events, who).Some? && LastContact(site, events, who).value < at
    ensures LastContact(site, events[..n], who) == LastContact(site, events, who)
    ensures StillLeased(site, events[..n], who, a) <==> StillLeased(site, events, who, a)
    decreases |events|
  {
    hide Run, TakeAccepted;
    if n < |events| {
      var m := |events| - 1;
      LeasesFollowTakes(site, events[..m], who, a);
      assert Clock(events[m]).Some? ==> at <= Clock(events[m]).value;
      assert LastContact(site, events[..m], who) == LastContact(site, events, who);
      QuietHolder(site, events[..m], n, who, a, at);
      assert events[..m][..n] == events[..n];
    } else {
      assert events[..n] == events;
    }
  }

  /** A blob last offered before `at` has been held since. */
  lemma {:induction false} QuietBlob(site: Site, events: seq<Event>, n: nat, a: Addr, at: u64)
    requires n <= |events| && NotBefore(events, n, at) && a in Run(site, events).blobs
    requires LastOffer(site, events, a).Some? && LastOffer(site, events, a).value < at
    ensures a in Run(site, events[..n]).blobs && LastOffer(site, events[..n], a) == LastOffer(site, events, a)
    decreases |events|
  {
    hide TakeAccepted, ForgetAccepted, Swept, D.Step, L.ToVec;
    if n < |events| {
      var m := |events| - 1;
      assert Clock(events[m]).Some? ==> at <= Clock(events[m]).value;
      QuietBlob(site, events[..m], n, a, at);
      assert events[..m][..n] == events[..n];
    } else {
      assert events[..n] == events;
    }
  }

  /** After `n` events a live lease covered `a` that has been released since. */
  ghost predicate Relieved(site: Site, events: seq<Event>, n: nat, a: Addr, at: u64)
    requires n <= |events|
  {
    exists who ::
      && StillLeased(site, events[..n], who, a) && !StillLeased(site, events, who, a)
      && LastContact(site, events[..n], who).Some?
      && at <= LastContact(site, events[..n], who).value + site.gc.leaseExpiry
  }

  lemma QuietThen(site: Site, events: seq<Event>, n: nat, a: Addr, at: u64)
    requires n <= |events| && NotBefore(events, n, at) && AllQuiet(site, events, a, at)
    ensures AllQuiet(site, events[..n], a, at) <==> !Relieved(site, events, n, a, at)
  {
    hide Run, StillLeased, LastContact;
    forall who | StillLeased(site, events[..n], who, a) ensures LastContact(site, events[..n], who).Some? {
      LeasesFollowTakes(site, events[..n], who, a);
    }
    forall who | StillLeased(site, events, who, a)
      ensures LastContact(site, events[..n], who) == LastContact(site, events, who)
    {
      QuietHolder(site, events, n, who, a, at);
    }
  }

  /** `latest` is when the lessees of `a` were last heard from. */
  ghost predicate LatestContact(site: Site, events: seq<Event>, a: Addr, latest: u64) {
    && (exists who :: StillLeased(site, events, who, a) && LastContact(site, events, who) == Some(latest))
    && (forall who | StillLeased(site, events, who, a) ::
          LastContact(site, events, who).Some? && LastContact(site, events, who).value <= latest)
  }

  /**
   * Warn before sweep, over runs. Take a leased blob that a sweep deletes, and any reading
   * of the clock in the notice window after its lessees were last heard from, the blob being
   * past its grace. That reading came before the sweep, and there the blob was on the list
   * of each lessee, unless it was on the retention floor or under a live lease that has been
   * released since.
   */
  lemma SweptWasListed(site: Site, events: seq<Event>, id: Digest, a: Addr, latest: u64, n: nat, at: u64, now: u64)
    requires Swept(Run(site, events), Run(site, events).Holders(), site.gc, a, now)
    requires StillLeased(site, events, id, a) && LatestContact(site, events, a, latest)
    requires Reading(events, n, at)
    requires latest + site.gc.leaseExpiry < at <= latest + site.gc.leaseExpiry + site.gc.notice
    requires LastOffer(site, events, a).Some? ==>
               LastOffer(site, events, a).value < at && Waited(LastOffer(site, events, a).value, site.gc.grace, at)
    ensures at < now
    ensures Listed(site, Run(site, events[..n]), id, a, at) <==>
            a !in Run(site, events[..n]).retention && !Relieved(site, events, n, a, at)
  {
    hide FateOf, Run, StillLeased, LastContact, LastOffer, Relieved;
    SweepSafe(site, events, Run(site, events).Holders(), site.gc, a, now);
    var last :| StillLeased(site, events, last, a) && LastContact(site, events, last) == Some(latest);
    QuietBlob(site, events, n, a, at);
    QuietThen(site, events, n, a, at);
    QuietHolder(site, events, n, id, a, at);
    ListedIff(site, events[..n], id, a, at);
  }

  /** Whatever the clock could read, there is a moment at which it did. */
  lemma {:induction false} MomentOf(events: seq<Event>, at: u64, now: u64) returns (n: nat)
    requires Forward(events, now) && at <= now
    ensures Reading(events, n, at)
  {
    n := 0;
    if events != [] {
      var m := |events| - 1;
      var last := Clock(events[m]);
      if last.Some? && last.value <= at {
        n := |events|;
      } else {
        n := MomentOf(events[..m], at, now);
        assert forall i | 0 <= i < m :: events[..m][i] == events[i];
      }
    }
  }

  // ---- Exactly when a lessee was ever told

  /** A reading before the sweep at `now`. */
  predicate Earlier(events: seq<Event>, n: nat, at: u64, now: u64) {
    Reading(events, n, at) && at <= now && (n == |events| ==> at < now)
  }

  /** The last reading there can be before the `n`th event is handled. */
  function Until(events: seq<Event>, n: nat, now: u64): u64
    decreases |events| - n
  {
    if n >= |events| then now
    else if Clock(events[n]).Some? then Clock(events[n]).value
    else Until(events, n + 1, now)
  }

  lemma {:induction false} UntilIsLast(events: seq<Event>, n: nat, now: u64)
    requires n <= |events| && Forward(events, now)
    ensures Reading(events, n, Until(events, n, now)) && Until(events, n, now) <= now
    ensures forall at: u64 | Reading(events, n, at) && at <= now :: at <= Until(events, n, now)
    decreases |events| - n
  {
    if n < |events| && Clock(events[n]).None? {
      UntilIsLast(events, n + 1, now);
      forall at: u64 | Reading(events, n, at) && at <= now ensures at <= Until(events, n, now) {
        assert Reading(events, n + 1, at);
      }
    }
  }

  /** Being on a list hardens as the clock advances. */
  lemma ListedHardens(site: Site, events: seq<Event>, id: Digest, a: Addr, at: u64, later: u64)
    requires at <= later && Listed(site, Run(site, events), id, a, at)
    ensures Listed(site, Run(site, events), id, a, later)
  {
    hide Run, StillLeased, LastContact, LastOffer, Listed;
    ListedIff(site, events, id, a, at);
    ListedIff(site, events, id, a, later);
    assert AllQuiet(site, events, a, later);
  }

  /**
   * Exactly when a holder had been told of a blob before a sweep at `now`, at any moment and
   * any reading of a clock that does not go back: when it was due on the list just as some
   * event was handled, or in the second before the sweep.
   */
  lemma ToldIff(site: Site, events: seq<Event>, id: Digest, a: Addr, now: u64)
    requires Forward(events, now)
    ensures (exists n: nat, at: u64 :: n <= |events| && Earlier(events, n, at, now) && Listed(site, Run(site, events[..n]), id, a, at)) <==>
            || (exists n :: 0 <= n < |events| && Listed(site, Run(site, events[..n]), id, a, Until(events, n, now)))
            || (now > 0 && Reading(events, |events|, now - 1) && Listed(site, Run(site, events), id, a, now - 1))
  {
    hide Run, Listed, Until, Reading, Forward;
    assert events[..|events|] == events;
    if n: nat, at: u64 :| n <= |events| && Earlier(events, n, at, now) && Listed(site, Run(site, events[..n]), id, a, at) {
      if n < |events| {
        UntilIsLast(events, n, now);
        ListedHardens(site, events[..n], id, a, at, Until(events, n, now));
      } else {
        ListedHardens(site, events, id, a, at, now - 1);
        AllRead(events, at, now - 1);
      }
    }
    if n :| 0 <= n < |events| && Listed(site, Run(site, events[..n]), id, a, Until(events, n, now)) {
      UntilIsLast(events, n, now);
      assert Earlier(events, n, Until(events, n, now), now);
    }
    if now > 0 && Reading(events, |events|, now - 1) && Listed(site, Run(site, events), id, a, now - 1) {
      assert Earlier(events, |events|, now - 1, now);
    }
  }

  lemma AllRead(events: seq<Event>, at: u64, later: u64)
    requires Reading(events, |events|, at) && at <= later
    ensures Reading(events, |events|, later)
  {
  }

  // ---- A blob that goes unannounced

  function Wrapped(votes: seq<D.Event>): (events: seq<Event>)
    ensures |events| == |votes| && forall i | 0 <= i < |votes| :: events[i] == Trail(votes[i])
  {
    seq(|votes|, i requires 0 <= i < |votes| => Trail(votes[i]))
  }

  lemma {:induction false} OnlyTheTrail(site: Site, before: seq<Event>, votes: seq<D.Event>)
    requires Votes(before) == []
    ensures Run(site, before + Wrapped(votes)) == Run(site, before).(trail := D.Run(site.deletion, votes))
  {
    hide D.Step, L.ToVec, TakeAccepted, ForgetAccepted, Swept;
    if votes == [] {
      assert before + Wrapped(votes) == before;
      TrailIsItsOwnRun(site, before);
    } else {
      var n := |votes| - 1;
      OnlyTheTrail(site, before, votes[..n]);
      var all := before + Wrapped(votes);
      assert all[..|all| - 1] == before + Wrapped(votes[..n]);
    }
  }

  lemma {:induction false} NothingHeld(addrs: seq<Addr>, index: map<Addr, BlobInfo>)
    requires forall i | 0 <= i < |addrs| :: SizeOf(addrs[i], index) == 0
    ensures SatTotal(addrs, index) == 0
  {
    if addrs != [] {
      NothingHeld(addrs[..|addrs| - 1], index);
    }
  }

  /** Kept, held and leased, in that order, all at time 0. */
  function Opening(id: Digest, a: Addr): seq<Event> {
    [ExtendRetention([a]), Upload(a, 0, 0), TakeLease(id, [a], 0)]
  }

  lemma AfterOpening(site: Site, id: Digest, a: Addr)
    ensures Run(site, Opening(id, a))
         == Peer(D.Start(site.deletion), map[a := BlobInfo(a, 0, 0)], map[id := Lease({a}, 0)], {a})
    ensures Votes(Opening(id, a)) == []
  {
    hide L.ToVec, ForgetAccepted, Swept, D.Step;
    var kept, put, lease := ExtendRetention([a]), Upload(a, 0, 0), TakeLease(id, [a], 0);
    assert Opening(id, a) == [] + [kept] + [put] + [lease] && Elements([a]) == {a};
    Snoc(site, [], kept);
    Snoc(site, [kept], put);
    Snoc(site, [kept] + [put], lease);
    var s := Run(site, [kept] + [put]);
    assert s == Peer(D.Start(site.deletion), map[a := BlobInfo(a, 0, 0)], map[], {a});
    var v := L.ToVec(Held(s, id) + Elements([a]));
    forall i | 0 <= i < |v| ensures SizeOf(v[i], s.blobs) == 0 {
      assert v[i] in Elements(v);
    }
    NothingHeld(v, s.blobs);
  }

  /** A deletion executed on its own, with the proof a forget wants. */
  lemma VotedOut(d: D.Deployment, r: R.Request, keys: seq<Bytes>, executor: Bytes, sig: Bytes)
    returns (votes: seq<D.Event>, proof: R.Execution)
    requires DeletionReach.Drivable(d, [r], keys)
    requires |executor| == S.VK_LEN && |sig| == S.SIG_LEN && d.policy.rolling.objects > 0
    ensures R.VerifyExecutionSpec(S.Ideal(d.hash, D.Run(d, votes).signed), proof).Ok?
    ensures D.Run(d, votes).Recorded(proof.requestHash)
  {
    hide R.VerifyExecutionSpec, R.RequestHash, R.WireRequest, S.Ideal;
    assert D.Run(d, []) == D.Start(d);
    assert D.Start(d).Grants() == [];
    DeletionReach.NextIsAble(d, D.Start(d), [r], 0, keys);
    assert R.WireRequest([r][0]);
    votes := DeletionReach.CanBeDriven(d, [], r, keys, executor, sig, 0);
    assert [] + votes == votes;
    DeletionReach.RecordedVerifies(d, votes);
    proof := D.Run(d, votes).executed[0].execution;
  }

  lemma AfterForget(site: Site, before: seq<Event>, proof: R.Execution, id: Digest, a: Addr, now: u64)
    requires var s := Run(site, before);
             && ForgetAccepted(site, s, proof) && s.retention == {a}
             && s.blobs == map[a := BlobInfo(a, 0, 0)] && s.leases == map[id := Lease({a}, 0)]
    requires site.gc.leaseExpiry + site.gc.notice < now && site.gc.grace <= now
    ensures var events := before + [Forget([a], proof)];
            StillLeased(site, events, id, a) && Swept(Run(site, events), Run(site, events).Holders(), site.gc, a, now)
  {
    hide ForgetAccepted, L.ToVec, FateOf;
    var events := before + [Forget([a], proof)];
    assert events[..|before|] == before && a in Elements([a]);
    var s := Run(site, events);
    LeasesFollowTakes(site, events, id, a);
    DeletedIff(s.blobs[a], s.Holders(), s.retention, site.gc, now);
  }

  lemma OnFloorThroughout(site: Site, id: Digest, a: Addr, votes: seq<D.Event>, n: nat, who: Digest, at: u64)
    requires n <= |Opening(id, a) + Wrapped(votes)|
    ensures !Listed(site, Run(site, (Opening(id, a) + Wrapped(votes))[..n]), who, a, at)
  {
    hide ForgetAccepted, TakeAccepted, Swept, D.Step, L.ToVec;
    var all := Opening(id, a) + Wrapped(votes);
    if n > 0 {
      var first, rest := all[..1], all[1..n];
      assert first + rest == all[..n];
      assert first[..0] == [] && first[0] == ExtendRetention([a]) && a in Elements([a]);
      assert a in Run(site, first).retention;
      assert forall k | 0 <= k < |rest| :: rest[k] == all[k + 1] && !rest[k].Forget?;
      if a !in Run(site, all[..n]).retention {
        var _ := FloorNeedsForget(site, first, rest, a);
      }
      if a in Run(site, all[..n]).blobs {
        BlobsFollowOffers(site, all[..n], a);
      }
    }
  }

  /**
   * Warn before sweep fails for a blob that was on the floor: every deployment whose leases
   * can lapse at all has a run in which a leased blob is kept until its lease has lapsed, is
   * then forgotten by a voted deletion, and may be swept at once, though at no earlier
   * moment and no clock reading was it on anybody's list.
   */
  lemma SweptUnannounced(site: Site, r: R.Request, keys: seq<Bytes>, executor: Bytes, sig: Bytes, id: Digest, a: Addr, now: u64)
    returns (events: seq<Event>)
    requires DeletionReach.Drivable(site.deletion, [r], keys)
    requires |executor| == S.VK_LEN && |sig| == S.SIG_LEN && site.deletion.policy.rolling.objects > 0
    requires site.gc.leaseExpiry + site.gc.notice < now && site.gc.grace <= now
    ensures StillLeased(site, events, id, a)
    ensures Swept(Run(site, events), Run(site, events).Holders(), site.gc, a, now)
    ensures forall n, who, at | 0 <= n < |events| :: !Listed(site, Run(site, events[..n]), who, a, at)
  {
    hide Run, StillLeased, Swept, Listed, Opening, Wrapped, DeletionReach.Drivable;
    var votes, proof := VotedOut(site.deletion, r, keys, executor, sig);
    var before := Opening(id, a) + Wrapped(votes);
    events := before + [Forget([a], proof)];
    AfterOpening(site, id, a);
    OnlyTheTrail(site, Opening(id, a), votes);
    AfterForget(site, before, proof, id, a, now);
    forall n, who, at | 0 <= n < |events| ensures !Listed(site, Run(site, events[..n]), who, a, at) {
      assert events[..n] == before[..n];
      OnFloorThroughout(site, id, a, votes, n, who, at);
    }
  }

  // ---- A lease released inside the notice window

  /** Held and leased by both from the start; then the first holder keeps in touch at `times`. */
  function Shared(x: Digest, b: Digest, a: Addr, times: seq<u64>): (events: seq<Event>)
    ensures |events| == 3 + |times|
  {
    [Upload(a, 0, 0), TakeLease(b, [a], 0), TakeLease(x, [a], 0)]
    + seq(|times|, i requires 0 <= i < |times| => TakeLease(x, [], times[i]))
  }

  /** When the first holder was last in touch. */
  function LastTime(times: seq<u64>): u64 {
    if times == [] then 0 else times[|times| - 1]
  }

  /** Each contact follows the one before it within the expiry. */
  predicate InTouch(times: seq<u64>, expiry: u64) {
    forall i | 0 <= i < |times| :: LastTime(times[..i]) <= times[i] <= LastTime(times[..i]) + expiry
  }

  lemma Covering(site: Site, s: Peer, x: Digest, a: Addr, who: Digest, at: u64)
    requires x in s.leases && a in s.leases[x].leased && at <= s.leases[x].lastSeen + site.gc.leaseExpiry
    requires a in s.blobs ==> s.blobs[a].addr == a
    ensures !Listed(site, s, who, a, at)
  {
    hide FateOf;
    if a in s.blobs {
      AtRiskIff(s.blobs[a], s.Holders(), s.retention, site.gc, at);
      var h := Holder(x, L.ToVec(s.leases[x].leased), s.leases[x].lastSeen);
      assert h in s.Holders() && a in Elements(h.leased);
    }
  }

  lemma EmptyHanded(site: Site, s: Peer, id: Digest, a: Addr, addrs: seq<Addr>)
    requires s.blobs == map[a := BlobInfo(a, 0, 0)] && Held(s, id) + Elements(addrs) <= {a} && Elements(addrs) <= {a}
    ensures TakeAccepted(site, s, id, addrs)
  {
    var v := L.ToVec(Held(s, id) + Elements(addrs));
    forall i | 0 <= i < |v| ensures SizeOf(v[i], s.blobs) == 0 {
      assert v[i] in Elements(v);
    }
    NothingHeld(v, s.blobs);
    assert forall x | x in addrs :: x in Elements(addrs);
  }

  lemma {:induction false} AfterShared(site: Site, x: Digest, b: Digest, a: Addr, times: seq<u64>)
    requires x != b
    ensures Run(site, Shared(x, b, a, times))
         == Peer(D.Start(site.deletion), map[a := BlobInfo(a, 0, 0)],
                 map[b := Lease({a}, 0), x := Lease({a}, LastTime(times))], {})
  {
    hide TakeAccepted, ForgetAccepted, Swept, L.ToVec, Step, Shared;
    if times == [] {
      AfterBoth(site, x, b, a);
    } else {
      var n := |times| - 1;
      var before := Shared(x, b, a, times[..n]);
      AfterShared(site, x, b, a, times[..n]);
      SharedGrows(x, b, a, times);
      Snoc(site, before, TakeLease(x, [], times[n]));
      var s := Run(site, before);
      assert Elements([]) == {} && Held(s, x) + Elements([]) == {a};
      Takes(site, s, x, a, [], times[n]);
      assert s.leases[x := Lease({a}, times[n])] == map[b := Lease({a}, 0), x := Lease({a}, times[n])];
    }
  }

  lemma SharedGrows(x: Digest, b: Digest, a: Addr, times: seq<u64>)
    requires times != []
    ensures var n := |times| - 1;
            Shared(x, b, a, times) == Shared(x, b, a, times[..n]) + [TakeLease(x, [], times[n])]
  {
  }

  /** Taking a lease on the one blob, or none, is accepted. */
  lemma Takes(site: Site, s: Peer, id: Digest, a: Addr, addrs: seq<Addr>, now: u64)
    requires s.blobs == map[a := BlobInfo(a, 0, 0)] && Held(s, id) <= {a} && Elements(addrs) <= {a}
    ensures Step(site, s, TakeLease(id, addrs, now)) == s.(leases := s.leases[id := Lease(Held(s, id) + Elements(addrs), now)])
  {
    EmptyHanded(site, s, id, a, addrs);
  }

  lemma AfterBoth(site: Site, x: Digest, b: Digest, a: Addr)
    requires x != b
    ensures Run(site, Shared(x, b, a, []))
         == Peer(D.Start(site.deletion), map[a := BlobInfo(a, 0, 0)], map[b := Lease({a}, 0), x := Lease({a}, 0)], {})
  {
    hide TakeAccepted, ForgetAccepted, Swept, L.ToVec;
    var put, first, second := Upload(a, 0, 0), TakeLease(b, [a], 0), TakeLease(x, [a], 0);
    assert Shared(x, b, a, []) == [] + [put] + [first] + [second];
    assert Elements([a]) == {a};
    Snoc(site, [], put);
    var s := Run(site, [] + [put]);
    assert s == Peer(D.Start(site.deletion), map[a := BlobInfo(a, 0, 0)], map[], {});
    Snoc(site, [] + [put], first);
    Takes(site, s, b, a, [a], 0);
    var t := Run(site, [] + [put] + [first]);
    Snoc(site, [] + [put] + [first], second);
    assert Held(s, b) + Elements([a]) == {a};
    assert t == s.(leases := s.leases[b := Lease({a}, 0)]);
    assert Held(t, x) + Elements([a]) == {a};
    Takes(site, t, x, a, [a], 0);
    assert t.leases[x := Lease({a}, 0)] == map[b := Lease({a}, 0), x := Lease({a}, 0)];
  }

  /** Up to the release, whenever the clock is read, a live lease covers the blob or nobody leases it yet. */
  lemma CoveredThroughout(site: Site, x: Digest, b: Digest, a: Addr, times: seq<u64>, now: u64, n: nat, who: Digest, at: u64)
    requires x != b && InTouch(times + [now], site.gc.leaseExpiry)
    requires n < 4 + |times| && Reading(Shared(x, b, a, times) + [ReleaseLease(x, [a], now)], n, at)
    ensures !Listed(site, Run(site, (Shared(x, b, a, times) + [ReleaseLease(x, [a], now)])[..n]), who, a, at)
  {
    hide TakeAccepted, ForgetAccepted, Swept, L.ToVec, FateOf;
    var all := Shared(x, b, a, times) + [ReleaseLease(x, [a], now)];
    assert all[1] == TakeLease(b, [a], 0) && all[2] == TakeLease(x, [a], 0);
    if n >= 3 {
      var j := n - 3;
      assert all[..n] == Shared(x, b, a, times[..j]);
      AfterShared(site, x, b, a, times[..j]);
      assert Clock(all[n]) == Some((times + [now])[j]);
      assert (times + [now])[..j] == times[..j];
      Covering(site, Run(site, all[..n]), x, a, who, at);
    } else {
      FirstSteps(site, x, b, a, n, who, at, all);
    }
  }

  lemma AfterPut(site: Site, a: Addr)
    ensures Run(site, [Upload(a, 0, 0)]) == Peer(D.Start(site.deletion), map[a := BlobInfo(a, 0, 0)], map[], {})
  {
    assert [Upload(a, 0, 0)] == [] + [Upload(a, 0, 0)];
    Snoc(site, [], Upload(a, 0, 0));
  }

  lemma FirstSteps(site: Site, x: Digest, b: Digest, a: Addr, n: nat, who: Digest, at: u64, all: seq<Event>)
    requires n < 3 <= |all| && all[0] == Upload(a, 0, 0) && all[1] == TakeLease(b, [a], 0) && all[2] == TakeLease(x, [a], 0)
    requires Reading(all, n, at)
    ensures !Listed(site, Run(site, all[..n]), who, a, at)
  {
    hide Step, L.ToVec, FateOf;
    AfterPut(site, a);
    if n > 0 {
      assert all[..1] == [Upload(a, 0, 0)] && Elements([a]) == {a};
      if n == 2 {
        var s := Run(site, all[..1]);
        assert all[..2] == all[..1] + [all[1]];
        Snoc(site, all[..1], all[1]);
        Takes(site, s, b, a, [a], 0);
        assert Held(s, b) + Elements([a]) == {a};
        assert Clock(all[2]) == Some(0);
        Covering(site, Run(site, all[..2]), b, a, who, at);
      }
    }
  }

  lemma AfterRelease(site: Site, x: Digest, b: Digest, a: Addr, times: seq<u64>, now: u64)
    requires x != b && site.gc.leaseExpiry + site.gc.notice < now && site.gc.grace <= now
    ensures var events := Shared(x, b, a, times) + [ReleaseLease(x, [a], now)];
            StillLeased(site, events, b, a) && Swept(Run(site, events), Run(site, events).Holders(), site.gc, a, now)
  {
    hide TakeAccepted, ForgetAccepted, L.ToVec, FateOf, Shared;
    var before, release := Shared(x, b, a, times), ReleaseLease(x, [a], now);
    AfterShared(site, x, b, a, times);
    Snoc(site, before, release);
    var s := Run(site, before + [release]);
    assert Elements([a]) == {a} && {a} - {a} == {};
    assert s.leases[x] == Lease({}, now) && s.leases[b] == Lease({a}, 0);
    assert s.leases == map[b := Lease({a}, 0), x := Lease({}, now)];
    LeasesFollowTakes(site, before + [release], b, a);
    DeletedIff(s.blobs[a], s.Holders(), s.retention, site.gc, now);
    forall h | h in s.Holders() && a in h.leased ensures h.lastSeen + site.gc.leaseExpiry + site.gc.notice < now {
      assert a in Elements(h.leased);
    }
  }

  lemma {:induction false} TouchesAscend(times: seq<u64>, expiry: u64, i: nat, j: nat)
    requires InTouch(times, expiry) && i < j < |times|
    ensures times[i] <= times[j]
  {
    assert LastTime(times[..j]) == times[j - 1] && LastTime(times[..j]) <= times[j];
    if i < j - 1 {
      TouchesAscend(times, expiry, i, j - 1);
    }
  }

  lemma SharedForward(x: Digest, b: Digest, a: Addr, times: seq<u64>, now: u64, expiry: u64)
    requires InTouch(times + [now], expiry)
    ensures Forward(Shared(x, b, a, times) + [ReleaseLease(x, [a], now)], now)
  {
    hide InTouch;
    var all, ts := Shared(x, b, a, times) + [ReleaseLease(x, [a], now)], times + [now];
    forall i | 0 <= i < |all| ensures Clock(all[i]) == Some(if i < 3 then 0 else ts[i - 3]) {
    }
    forall i, j | 0 <= i < j < |all| ensures Clock(all[i]).value <= Clock(all[j]).value {
      if i >= 3 {
        TouchesAscend(ts, expiry, i - 3, j - 3);
      }
    }
    assert Clock(all[|all| - 1]) == Some(now);
  }

  lemma SharedKinds(x: Digest, b: Digest, a: Addr, times: seq<u64>, now: u64)
    ensures var all := Shared(x, b, a, times) + [ReleaseLease(x, [a], now)];
            forall i | 0 <= i < |all| :: !all[i].ExtendRetention? && !all[i].PublishRetention?
  {
  }

  lemma {:induction false} NoFloor(site: Site, events: seq<Event>, n: nat)
    requires n <= |events| && forall i | 0 <= i < |events| :: !events[i].ExtendRetention? && !events[i].PublishRetention?
    ensures Run(site, events[..n]).retention == {}
  {
    hide TakeAccepted, ForgetAccepted, Swept, D.Step, L.ToVec;
    if n > 0 {
      NoFloor(site, events, n - 1);
      assert events[..n] == events[..n - 1] + [events[n - 1]];
      Snoc(site, events[..n - 1], events[n - 1]);
    }
  }

  /**
   * The other way to go unannounced: a leased blob that was never on the floor. While one
   * holder keeps in touch, another's lease lapses unnoticed; when the first releases it, the
   * blob may be swept at once, though at no earlier moment, by a clock that does not go
   * back, was it on anybody's list.
   */
  lemma ReleasedUnannounced(site: Site, x: Digest, b: Digest, a: Addr, times: seq<u64>, now: u64) returns (events: seq<Event>)
    requires x != b && InTouch(times + [now], site.gc.leaseExpiry)
    requires site.gc.leaseExpiry + site.gc.notice < now && site.gc.grace <= now
    ensures StillLeased(site, events, b, a) && Forward(events, now)
    ensures Swept(Run(site, events), Run(site, events).Holders(), site.gc, a, now)
    ensures forall n | 0 <= n <= |events| :: Run(site, events[..n]).retention == {}
    ensures forall n, who, at | 0 <= n < |events| && Reading(events, n, at) :: !Listed(site, Run(site, events[..n]), who, a, at)
  {
    hide Run, StillLeased, Swept, Listed, Shared, Reading, InTouch;
    events := Shared(x, b, a, times) + [ReleaseLease(x, [a], now)];
    AfterRelease(site, x, b, a, times, now);
    SharedForward(x, b, a, times, now, site.gc.leaseExpiry);
    SharedKinds(x, b, a, times, now);
    forall n | 0 <= n <= |events| ensures Run(site, events[..n]).retention == {} {
      NoFloor(site, events, n);
    }
    forall n, who, at | 0 <= n < |events| && Reading(events, n, at) ensures !Listed(site, Run(site, events[..n]), who, a, at) {
      CoveredThroughout(site, x, b, a, times, now, n, who, at);
    }
  }
}
