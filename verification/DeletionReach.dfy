/**
 * What runs of the deletion loop can reach: exactly when a request can be executed, how it
 * is driven there, and exactly which policies let an interval exceed the volume bound.
 */
module DeletionReach {
  import opened Wrappers
  import opened Bytes
  import opened Encoding
  import opened DeleteRecord
  import opened DeletePolicy
  import opened DeletionRuns
  import Utf8
  import S = Signing

  // ---- What can be executed

  /** Approvals of `h` by some devices; the ideal verifier looks only at who signed what. */
  function Bundle(h: Digest, devices: seq<Bytes>, sig: Bytes): (approvals: seq<Approval>)
    ensures |approvals| == |devices|
    ensures forall i | 0 <= i < |devices| :: approvals[i] == Approval(h, devices[i], sig)
  {
    seq(|devices|, i requires 0 <= i < |devices| => Approval(h, devices[i], sig))
  }

  lemma BundleKeys(h: Digest, devices: seq<Bytes>, sig: Bytes)
    ensures Keys(Bundle(h, devices, sig)) == Members(devices)
  {
    forall k | k in devices ensures k in Keys(Bundle(h, devices, sig)) {
      var i :| 0 <= i < |devices| && devices[i] == k;
      assert Bundle(h, devices, sig)[i] in Bundle(h, devices, sig);
    }
  }

  /** A key ready to be counted for the request filed under `h`. */
  predicate Ready(d: Deployment, s: State, h: Digest, k: Bytes)
    requires h in s.requests
  {
    && d.hash(k) in d.Authority() && d.hash(k) != d.hash(s.requests[h].requestedBy)
    && Signed(s, k, h) && |k| == S.VK_LEN
  }

  /** Key `k` has signed an execution of `h`. */
  predicate Willing(s: State, h: Digest, k: Bytes) {
    |k| == S.VK_LEN && (k, S.Framed(S.DeleteExecution, h)) in s.signed
  }

  lemma ReadyCounts(d: Deployment, s: State, h: Digest, a: Approval)
    requires Filed(d, s) && h in s.requests
    ensures Counts(S.Ideal(d.hash, s.signed), a, s.requests[h], d.Authority()) <==>
            Ready(d, s, h, a.approverPk) && a.requestHash == h && |a.sig| == S.SIG_LEN
  {
    hide S.Framed, RequestPreimage, VerifyRequest;
  }

  /** What the peer checks of an execution of `h` before counting, once the request is on file. */
  lemma AdmissibleIff(d: Deployment, s: State, e: Execution)
    requires Filed(d, s) && e.requestHash in s.requests
    ensures Admissible(S.Ideal(d.hash, s.signed), s.requests[e.requestHash], e, d.Authority()) <==>
            && d.Devices() != {} && Willing(s, e.requestHash, e.executedBy) && |e.sig| == S.SIG_LEN
            && forall a | a in e.approvals ::
                 Ready(d, s, e.requestHash, a.approverPk) && a.requestHash == e.requestHash && |a.sig| == S.SIG_LEN
  {
    hide S.Framed, VerifyRequest, RequestPreimage, Ready, Counts;
    assert d.Devices() != {} <==> d.Authority() != {} by { SomeAuthority(d); }
    forall a | a in e.approvals
      ensures Counts(S.Ideal(d.hash, s.signed), a, s.requests[e.requestHash], d.Authority()) <==>
              Ready(d, s, e.requestHash, a.approverPk) && a.requestHash == e.requestHash && |a.sig| == S.SIG_LEN
    {
      ReadyCounts(d, s, e.requestHash, a);
    }
  }

  lemma SomeAuthority(d: Deployment)
    ensures d.Devices() != {} <==> d.Authority() != {}
  {
    if d.Devices() != {} {
      var k :| k in d.Devices();
      assert d.hash(k) in d.Authority();
    }
  }

  /** What the peer records when it is handed an execution of a request on file. */
  lemma RecordedIff(d: Deployment, events: seq<Event>, e: Execution, now: u64)
    requires e.requestHash in Run(d, events).requests
    ensures var s, h := Run(d, events), e.requestHash;
            var owed, counted := d.policy.Required(s.requests[h].scope, Times(s.Grants()), now), |Ids(d.hash, Keys(e.approvals))|;
            Step(d, s, Executes(e, now)).executed ==
            if && d.Devices() != {} && Willing(s, h, e.executedBy) && |e.sig| == S.SIG_LEN
               && (forall a | a in e.approvals ::
                     Ready(d, s, h, a.approverPk) && a.requestHash == h && |a.sig| == S.SIG_LEN)
               && owed <= counted && |e.approvals| <= MAX_APPROVALS && !s.Recorded(h)
            then s.executed + [Executed(s.requests[h], e, now, counted)] else s.executed
  {
    hide S.Framed, VerifyRequest, RequestPreimage, Policy.Required, DecideSpec, Admissible, Counts, Ids, EncodeExecution, Willing, Signed;
    var s, h := Run(d, events), e.requestHash;
    var c, r := S.Ideal(d.hash, s.signed), s.requests[h];
    EveryRun(d, events);
    AdmissibleIff(d, s, e);
    KeysAndIds(c, e.approvals);
    var owed, counted := d.policy.Required(r.scope, Times(s.Grants()), now), |Approvers(c, e.approvals)|;
    DecideMeaning(c, r, e, Times(s.Grants()), d.policy, d.Authority(), now, owed, counted);
    if Judge(d, s, e, now).Execute? {
      DecideMeaning(c, r, e, Times(s.Grants()), d.policy, d.Authority(), now, Judge(d, s, e, now).required, Judge(d, s, e, now).distinct);
      forall i | 0 <= i < |e.approvals| ensures WireApproval(e.approvals[i]) {
        assert e.approvals[i] in e.approvals;
      }
      WillingWidth(s, h, e.executedBy);
      ExecutionEncodesIff(e);
    }
  }

  lemma WillingWidth(s: State, h: Digest, k: Bytes)
    requires Willing(s, h, k)
    ensures |k| == S.VK_LEN
  {
  }

  /** Every key ready to be counted for the request filed under `h`. */
  function ReadyKeys(d: Deployment, s: State, h: Digest): set<Bytes>
    requires h in s.requests
  {
    set x | x in s.signed && Ready(d, s, h, x.0) :: x.0
  }

  lemma ReadyIsSigned(d: Deployment, s: State, h: Digest, k: Bytes)
    requires h in s.requests
    ensures k in ReadyKeys(d, s, h) <==> Ready(d, s, h, k)
  {
    if Ready(d, s, h, k) {
      var x := (k, S.Framed(S.DeleteApproval, h));
      assert x in s.signed && x.0 == k;
    }
  }

  /** Handing over `e` gets an execution recorded. */
  predicate Records(d: Deployment, s: State, e: Execution, now: u64) {
    Step(d, s, Executes(e, now)).executed != s.executed
  }

  lemma {:induction false} ChooseApart(hash: HashFn, keys: set<Bytes>, n: nat) returns (chosen: seq<Bytes>)
    requires n <= |Ids(hash, keys)|
    ensures |chosen| == n == |Ids(hash, Members(chosen))| && Members(chosen) <= keys
  {
    chosen := [];
    if n > 0 {
      var rest := ChooseApart(hash, keys, n - 1);
      if Ids(hash, keys) <= Ids(hash, Members(rest)) {
        DigestSubsetSize(Ids(hash, keys), Ids(hash, Members(rest)));
      }
      var id :| id in Ids(hash, keys) && id !in Ids(hash, Members(rest));
      var k :| k in keys && hash(k) == id;
      chosen := rest + [k];
      assert Members(chosen) == Members(rest) + {k};
      assert Ids(hash, Members(chosen)) == Ids(hash, Members(rest)) + {id};
    }
  }

  lemma DigestSubsetSize(a: set<Digest>, b: set<Digest>)
    requires a <= b
    ensures |a| <= |b|
  {
    assert b == a + (b - a);
  }

  lemma {:induction false} KeysWithin(approvals: seq<Approval>)
    ensures |Keys(approvals)| <= |approvals|
  {
    if approvals != [] {
      var n := |approvals| - 1;
      KeysWithin(approvals[..n]);
      assert forall a :: a in approvals <==> a in approvals[..n] || a == approvals[n];
      assert Keys(approvals) == Keys(approvals[..n]) + {approvals[n].approverPk};
    }
  }

  /**
   * Exactly when a request on file can be executed, after any run and at any clock
   * reading: there is an authority, somebody signed the execution, nothing was recorded
   * for it yet, and what is owed is met by the ids of the keys ready to be counted and is
   * no more than a bundle can carry.
   */
  lemma ExecutableIff(d: Deployment, events: seq<Event>, h: Digest, now: u64)
    requires h in Run(d, events).requests
    ensures var s := Run(d, events);
            var owed := d.policy.Required(s.requests[h].scope, Times(s.Grants()), now);
            (exists e: Execution :: e.requestHash == h && Records(d, s, e, now)) <==>
            && d.Devices() != {} && (exists k :: Willing(s, h, k)) && !s.Recorded(h)
            && owed <= |Ids(d.hash, ReadyKeys(d, s, h))| && owed <= MAX_APPROVALS
  {
    hide Step, Run, Ready, Willing, Policy.Required, Ids, State.Recorded, ReadyKeys, State.Grants;
    var s := Run(d, events);
    var owed := d.policy.Required(s.requests[h].scope, Times(s.Grants()), now);
    if e: Execution :| e.requestHash == h && Records(d, s, e, now) {
      RecordedIff(d, events, e, now);
      OwedWithin(d, s, e, owed);
    }
    if && d.Devices() != {} && (exists k :: Willing(s, h, k)) && !s.Recorded(h)
       && owed <= |Ids(d.hash, ReadyKeys(d, s, h))| && owed <= MAX_APPROVALS
    {
      var executor :| Willing(s, h, executor);
      var sig := seq(S.SIG_LEN, _ => 0);
      var chosen := ChooseApart(d.hash, ReadyKeys(d, s, h), owed);
      var e := Execution(h, Bundle(h, chosen, sig), executor, sig);
      BundleKeys(h, chosen, sig);
      forall a | a in e.approvals ensures Ready(d, s, h, a.approverPk) {
        assert a.approverPk in Members(chosen);
        ReadyIsSigned(d, s, h, a.approverPk);
      }
      RecordedIff(d, events, e, now);
      assert Records(d, s, e, now);
    }
  }

  lemma OwedWithin(d: Deployment, s: State, e: Execution, owed: nat)
    requires e.requestHash in s.requests && |e.approvals| <= MAX_APPROVALS
    requires forall a | a in e.approvals :: Ready(d, s, e.requestHash, a.approverPk)
    requires owed <= |Ids(d.hash, Keys(e.approvals))|
    ensures owed <= |Ids(d.hash, ReadyKeys(d, s, e.requestHash))| && owed <= MAX_APPROVALS
  {
    hide Ready;
    var keys := Keys(e.approvals);
    forall a | a in e.approvals ensures a.approverPk in ReadyKeys(d, s, e.requestHash) {
      ReadyIsSigned(d, s, e.requestHash, a.approverPk);
    }
    DigestSubsetSize(Ids(d.hash, keys), Ids(d.hash, ReadyKeys(d, s, e.requestHash)));
    ImageSize(d.hash, keys);
    KeysWithin(e.approvals);
  }

  /** A policy can owe more than a bundle can carry: then nothing of that scope is ever executed. */
  lemma BeyondTheCap(d: Deployment, events: seq<Event>, i: nat)
    requires i < |Run(d, events).executed|
    ensures var s := Run(d, events);
            var x := s.executed[i];
            && d.policy.Required(x.request.scope, Times(s.Grants()[..i]), x.at) <= x.distinct <= MAX_APPROVALS
            && d.policy.Base(x.request.scope) <= MAX_APPROVALS
  {
    hide Run, Authorised, Collides, Filed, Stamped;
    EveryRun(d, events);
    var x := Run(d, events).executed[i];
    assert Lawful(d, Run(d, events), i);
    assert x in Run(d, events).executed;
    ImageSize(d.hash, Keys(x.execution.approvals));
    KeysWithin(x.execution.approvals);
  }

  lemma ExecutionStillVerifies(hash: HashFn, signed: set<(Bytes, Bytes)>, more: set<(Bytes, Bytes)>, e: Execution)
    requires signed <= more && VerifyExecutionSpec(S.Ideal(hash, signed), e).Ok?
    ensures VerifyExecutionSpec(S.Ideal(hash, more), e).Ok?
  {
    hide S.Framed;
    CheckApprovalsMeaning(S.Ideal(hash, signed), e.approvals, e.requestHash);
    CheckApprovalsMeaning(S.Ideal(hash, more), e.approvals, e.requestHash);
    forall a | a in e.approvals ensures Binds(S.Ideal(hash, more), a, e.requestHash) {
      assert Binds(S.Ideal(hash, signed), a, e.requestHash);
    }
  }

  predicate AllVerify(hash: HashFn, s: State) {
    forall x | x in s.executed :: VerifyExecutionSpec(S.Ideal(hash, s.signed), x.execution).Ok?
  }

  lemma StepVerifies(d: Deployment, s: State, ev: Event)
    requires AllVerify(d.hash, s)
    ensures AllVerify(d.hash, Step(d, s, ev))
  {
    hide VerifyExecutionSpec, EncodeExecution, VerifyRequest, DecodeRequest, S.Framed, RequestPreimage, MaySign, S.Ideal;
    var t := Step(d, s, ev);
    StepGrows(d, s, ev);
    forall x | x in t.executed ensures VerifyExecutionSpec(S.Ideal(d.hash, t.signed), x.execution).Ok? {
      if x in s.executed {
        ExecutionStillVerifies(d.hash, s.signed, t.signed, x.execution);
      }
    }
  }

  /** Every recorded execution still verifies, so it can be shown as proof for ever after. */
  lemma {:induction false} RecordedVerifies(d: Deployment, events: seq<Event>)
    ensures AllVerify(d.hash, Run(d, events))
  {
    hide Step, VerifyExecutionSpec;
    if events != [] {
      RecordedVerifies(d, events[..|events| - 1]);
      StepVerifies(d, Run(d, events[..|events| - 1]), events[|events| - 1]);
    }
  }

  // ---- Driving a request through

  /** A full-width authority device that is not the requester. */
  predicate MayApprove(d: Deployment, r: Request, k: Bytes) {
    k in d.Devices() && |k| == S.VK_LEN && d.hash(k) != d.hash(r.requestedBy)
  }

  /** A device that can still be brought to approve `r`: its stamp leaves room for its cooling-off. */
  predicate Able(d: Deployment, s: State, r: Request, k: Bytes) {
    MayApprove(d, r, k) && ((k, r) in s.seen ==> s.seen[(k, r)] + d.coolingOff(k) <= U64_MAX)
  }

  /** What gathering approvals of `r` leaves alone. */
  ghost predicate OnlyApproves(s: State, t: State, r: Request) {
    && t.requests == s.requests && t.executed == s.executed && s.signed <= t.signed
    && s.seen.Keys <= t.seen.Keys
    && (forall x | x in t.seen :: if x in s.seen then t.seen[x] == s.seen[x] else x.1 == r && t.seen[x] == 0)
  }

  lemma RunSnoc(d: Deployment, events: seq<Event>, ev: Event)
    ensures Run(d, events + [ev]) == Step(d, Run(d, events), ev)
  {
    assert (events + [ev])[..|events|] == events;
  }

  lemma ApproveOne(d: Deployment, events: seq<Event>, r: Request, k: Bytes) returns (more: seq<Event>)
    requires WireRequest(r) && Able(d, Run(d, events), r, k)
    ensures var s, t := Run(d, events), Run(d, events + more);
            OnlyApproves(s, t, r) && Signed(t, k, RequestHash(d.hash, r))
  {
    hide Run, DecodeRequest, EncodeRequest, RequestHash, RequestPreimage, S.Framed, WireRequest;
    var s := Run(d, events);
    RequestEncodes(r);
    var bytes := EncodeRequest(r).value;
    RequestCanonical(bytes, r);
    var arrive := Receives(k, bytes, 0);
    var t := Step(d, s, arrive);
    var approve := Approves(k, r, t.seen[(k, r)] + d.coolingOff(k));
    RunSnoc(d, events, arrive);
    RunSnoc(d, events + [arrive], approve);
    more := [arrive, approve];
    assert events + more == (events + [arrive]) + [approve];
  }

  lemma {:induction false} ApproveAll(d: Deployment, events: seq<Event>, r: Request, keys: seq<Bytes>) returns (more: seq<Event>)
    requires WireRequest(r) && forall k | k in keys :: Able(d, Run(d, events), r, k)
    ensures var s, t := Run(d, events), Run(d, events + more);
            OnlyApproves(s, t, r) && forall k | k in keys :: Signed(t, k, RequestHash(d.hash, r))
  {
    hide Run, RequestHash, S.Framed, WireRequest;
    more := [];
    assert events + more == events;
    if keys != [] {
      var n := |keys| - 1;
      var first := ApproveAll(d, events, r, keys[..n]);
      assert Able(d, Run(d, events), r, keys[n]);
      assert Able(d, Run(d, events + first), r, keys[n]);
      var second := ApproveOne(d, events + first, r, keys[n]);
      more := first + second;
      assert events + more == (events + first) + second;
      assert forall k | k in keys :: k in keys[..n] || k == keys[n];
      assert OnlyApproves(Run(d, events), Run(d, events + more), r);
    }
  }

  /** `Publishes` preceded by the requester's signature. */
  lemma FileOne(d: Deployment, events: seq<Event>, r: Request) returns (more: seq<Event>)
    requires WireRequest(r) && RequestHash(d.hash, r) !in Run(d, events).requests
    requires |Run(d, events).requests| < MAX_DELETE_REQUESTS
    ensures var s, t := Run(d, events), Run(d, events + more);
            && t.requests == s.requests[RequestHash(d.hash, r) := r]
            && t.executed == s.executed && t.seen == s.seen
  {
    hide Run, RequestHash, RequestPreimage, S.Framed, RequestBody;
    var signs := Signs(r.requestedBy, S.DeleteRequest, RequestBody(r));
    RunSnoc(d, events, signs);
    RunSnoc(d, events + [signs], Publishes(r));
    more := [signs, Publishes(r)];
    assert events + more == (events + [signs]) + [Publishes(r)];
  }

  lemma SignsExecution(d: Deployment, events: seq<Event>, executor: Bytes, h: Digest)
    requires |executor| == S.VK_LEN
    ensures var s, t := Run(d, events), Run(d, events + [Signs(executor, S.DeleteExecution, h)]);
            && Willing(t, h, executor) && s.signed <= t.signed
            && t.requests == s.requests && t.executed == s.executed && t.seen == s.seen
  {
    hide Run, S.Framed;
    RunSnoc(d, events, Signs(executor, S.DeleteExecution, h));
  }

  /** What has not been requested has not been executed. */
  lemma Unrecorded(d: Deployment, events: seq<Event>, h: Digest)
    requires h !in Run(d, events).requests
    ensures !Run(d, events).Recorded(h)
  {
    hide Run;
    EveryRun(d, events);
    var s := Run(d, events);
    forall i | 0 <= i < |s.executed| ensures s.executed[i].execution.requestHash != h {
      assert s.executed[i] in s.executed;
    }
  }

  lemma AbleStill(d: Deployment, s: State, t: State, r: Request, keys: seq<Bytes>)
    requires t.seen == s.seen && forall k | k in keys :: Able(d, s, r, k)
    ensures forall k | k in keys :: Able(d, t, r, k)
  {
    forall k | k in keys ensures Able(d, t, r, k) {
      assert Able(d, s, r, k);
    }
  }

  lemma AbleIsReady(d: Deployment, s: State, u: State, t: State, r: Request, k: Bytes)
    requires Able(d, s, r, k) && Signed(u, k, RequestHash(d.hash, r)) && u.signed <= t.signed
    requires RequestHash(d.hash, r) in t.requests && t.requests[RequestHash(d.hash, r)] == r
    ensures Ready(d, t, RequestHash(d.hash, r), k)
  {
    hide RequestHash, S.Framed;
  }

  lemma SameTrail(s: State, t: State, h: Digest)
    requires s.executed == t.executed
    ensures s.Grants() == t.Grants() && s.Recorded(h) == t.Recorded(h)
  {
  }

  lemma FileAndApprove(d: Deployment, events: seq<Event>, r: Request, keys: seq<Bytes>) returns (more: seq<Event>)
    requires WireRequest(r) && RequestHash(d.hash, r) !in Run(d, events).requests
    requires |Run(d, events).requests| < MAX_DELETE_REQUESTS
    requires forall k | k in keys :: Able(d, Run(d, events), r, k)
    ensures var s, t := Run(d, events), Run(d, events + more);
            && t.executed == s.executed && t.requests == s.requests[RequestHash(d.hash, r) := r]
            && (forall x | x in t.seen :: x in s.seen || x.1 == r)
            && (forall k | k in keys :: Signed(t, k, RequestHash(d.hash, r)))
  {
    hide Run, RequestHash, WireRequest, Able, Signed;
    var filing := FileOne(d, events, r);
    AbleStill(d, Run(d, events), Run(d, events + filing), r, keys);
    var approving := ApproveAll(d, events + filing, r, keys);
    more := filing + approving;
    assert events + more == events + filing + approving;
  }

  lemma ExecutesOnly(d: Deployment, s: State, e: Execution, now: u64)
    ensures var t := Step(d, s, Executes(e, now));
            t.requests == s.requests && t.seen == s.seen
  {
  }

  /**
   * The loop does not deadlock. After any run, however far the window has escalated, a new
   * request is executed once the devices owed are brought to approve it: there are events
   * that lead to exactly that execution being recorded, and to nothing else.
   */
  lemma CanBeDriven(d: Deployment, events: seq<Event>, r: Request, keys: seq<Bytes>, executor: Bytes, sig: Bytes, now: u64)
    returns (more: seq<Event>)
    requires WireRequest(r) && RequestHash(d.hash, r) !in Run(d, events).requests
    requires |Run(d, events).requests| < MAX_DELETE_REQUESTS
    requires d.Devices() != {} && |executor| == S.VK_LEN && |sig| == S.SIG_LEN
    requires |keys| <= MAX_APPROVALS && forall k | k in keys :: Able(d, Run(d, events), r, k)
    requires |Ids(d.hash, Members(keys))| >= d.policy.Required(r.scope, Times(Run(d, events).Grants()), now)
    ensures var s, t, h := Run(d, events), Run(d, events + more), RequestHash(d.hash, r);
            && t.executed == s.executed + [Executed(r, Execution(h, Bundle(h, keys, sig), executor, sig), now, |Ids(d.hash, Members(keys))|)]
            && t.requests == s.requests[h := r]
            && (forall x | x in t.seen :: x in s.seen || x.1 == r)
  {
    hide Run, RequestHash, WireRequest, Policy.Required, Able, Ids, Step, Ready, Willing, Signed, State.Recorded;
    var s, h := Run(d, events), RequestHash(d.hash, r);
    var filed := FileAndApprove(d, events, r, keys);
    var signs := Signs(executor, S.DeleteExecution, h);
    var e3 := events + filed + [signs];
    SignsExecution(d, events + filed, executor, h);
    var e := Execution(h, Bundle(h, keys, sig), executor, sig);
    SameTrail(s, Run(d, e3), h);
    Unrecorded(d, events, h);
    BundleKeys(h, keys, sig);
    forall a | a in e.approvals ensures Ready(d, Run(d, e3), h, a.approverPk) {
      AbleIsReady(d, s, Run(d, events + filed), Run(d, e3), r, a.approverPk);
    }
    RecordedIff(d, e3, e, now);
    RunSnoc(d, e3, Executes(e, now));
    ExecutesOnly(d, Run(d, e3), e, now);
    more := filed + [signs, Executes(e, now)];
    assert events + more == e3 + [Executes(e, now)];
  }

  // ---- The volume bound is sharp in runs

  /** Requests that hash apart, each owing no more than the ids behind `keys`, which may all approve it. */
  ghost predicate Drivable(d: Deployment, requests: seq<Request>, keys: seq<Bytes>) {
    && |requests| <= MAX_DELETE_REQUESTS && |keys| <= MAX_APPROVALS && d.Devices() != {}
    && (forall i, j | 0 <= i < j < |requests| :: RequestHash(d.hash, requests[i]) != RequestHash(d.hash, requests[j]))
    && (forall i | 0 <= i < |requests| ::
          WireRequest(requests[i]) && d.policy.Base(requests[i].scope) <= |Ids(d.hash, Members(keys))|)
    && (forall i, k | 0 <= i < |requests| && k in keys :: MayApprove(d, requests[i], k))
  }

  predicate Unseen(s: State, r: Request) {
    forall x | x in s.seen :: x.1 != r
  }

  /** At most `n` requests are filed, and none from the `n`th on has been seen or filed. */
  ghost predicate Driven(d: Deployment, s: State, requests: seq<Request>, n: nat) {
    && |s.requests| <= n
    && (forall j | n <= j < |requests| :: RequestHash(d.hash, requests[j]) !in s.requests && Unseen(s, requests[j]))
  }

  lemma NextIsAble(d: Deployment, s: State, requests: seq<Request>, n: nat, keys: seq<Bytes>)
    requires n < |requests| && Drivable(d, requests, keys) && Driven(d, s, requests, n)
    ensures forall k | k in keys :: Able(d, s, requests[n], k)
  {
    hide RequestHash, WireRequest, Ids, Members, MayApprove;
    forall k | k in keys ensures Able(d, s, requests[n], k) {
      assert MayApprove(d, requests[n], k);
      assert (k, requests[n]).1 == requests[n] && Unseen(s, requests[n]);
    }
  }

  lemma DrivenNext(d: Deployment, s: State, t: State, requests: seq<Request>, n: nat, keys: seq<Bytes>)
    requires n < |requests| && Drivable(d, requests, keys) && Driven(d, s, requests, n)
    requires t.requests == s.requests[RequestHash(d.hash, requests[n]) := requests[n]]
    requires forall x | x in t.seen :: x in s.seen || x.1 == requests[n]
    ensures Driven(d, t, requests, n + 1)
  {
    hide RequestHash, MayApprove, WireRequest, Ids, Members;
    var h := RequestHash(d.hash, requests[n]);
    assert t.requests.Keys == s.requests.Keys + {h} && |t.requests| == |t.requests.Keys|;
    forall j | n + 1 <= j < |requests| ensures RequestHash(d.hash, requests[j]) !in t.requests && Unseen(t, requests[j]) {
      assert h != RequestHash(d.hash, requests[j]) && Unseen(s, requests[j]);
    }
  }

  lemma DriveNext(d: Deployment, events: seq<Event>, requests: seq<Request>, n: nat, keys: seq<Bytes>,
                  executor: Bytes, sig: Bytes, now: u64) returns (more: seq<Event>)
    requires n < |requests| && Drivable(d, requests, keys) && Driven(d, Run(d, events), requests, n)
    requires |executor| == S.VK_LEN && |sig| == S.SIG_LEN
    requires !d.policy.Escalated(Times(Run(d, events).Grants()), now)
    ensures var s, t := Run(d, events), Run(d, events + more);
            Driven(d, t, requests, n + 1) && t.Grants() == s.Grants() + [Grant(now, |Ids(d.hash, Members(keys))|)]
  {
    hide Run, RequestHash, WireRequest, Ids, Members, Policy.Escalated, Able, MayApprove;
    NextIsAble(d, Run(d, events), requests, n, keys);
    more := CanBeDriven(d, events, requests[n], keys, executor, sig, now);
    DrivenNext(d, Run(d, events), Run(d, events + more), requests, n, keys);
  }

  lemma {:induction false} Burst(d: Deployment, requests: seq<Request>, n: nat, keys: seq<Bytes>,
                                 executor: Bytes, sig: Bytes, from: u64) returns (events: seq<Event>)
    requires n <= |requests| && n <= d.policy.rolling.objects && Drivable(d, requests, keys)
    requires |executor| == S.VK_LEN && |sig| == S.SIG_LEN
    ensures Driven(d, Run(d, events), requests, n)
    ensures Run(d, events).Grants() == seq(n, _ => Grant(from, |Ids(d.hash, Members(keys))|))
  {
    hide Drivable, Ids, Members, Step;
    events := [];
    if n == 0 {
      assert Run(d, events) == Start(d);
    } else {
      hide Run, Driven;
      var before := Burst(d, requests, n - 1, keys, executor, sig, from);
      var g := Grant(from, |Ids(d.hash, Members(keys))|);
      assert Times(Run(d, before).Grants()) == seq(n - 1, _ => from);
      InWindowConstant(n - 1, from, from, d.policy.rolling.window);
      var more := DriveNext(d, before, requests, n - 1, keys, executor, sig, from);
      events := before + more;
      assert seq(n - 1, _ => g) + [g] == seq(n, _ => g);
    }
  }

  /**
   * The bound on volume is sharp over runs. Whatever the deployment, take `objects` + 1
   * requests that hash apart and approvers who meet what these owe but not the escalation:
   * there is a run that executes them all within one second more than the window.
   */
  lemma LongerIntervalRun(d: Deployment, requests: seq<Request>, keys: seq<Bytes>, executor: Bytes, sig: Bytes, from: u64)
    returns (events: seq<Event>)
    requires Drivable(d, requests, keys) && |requests| == d.policy.rolling.objects + 1 > 1
    requires |Ids(d.hash, Members(keys))| < d.policy.rolling.escalateTo
    requires |executor| == S.VK_LEN && |sig| == S.SIG_LEN && from + d.policy.rolling.window <= U64_MAX
    ensures Small(Run(d, events).Grants(), from, d.policy.rolling.window + 1, d.policy.rolling.escalateTo)
            == d.policy.rolling.objects + 1
  {
    hide Run, Drivable, Ids, Driven;
    var n: nat, window: nat := d.policy.rolling.objects, d.policy.rolling.window;
    var g := Grant(from, |Ids(d.hash, Members(keys))|);
    var before := Burst(d, requests, n, keys, executor, sig, from);
    assert Times(Run(d, before).Grants()) == seq(n, _ => from);
    InWindowConstant(n, from, from + window, window);
    var more := DriveNext(d, before, requests, n, keys, executor, sig, from + window);
    events := before + more;
    SmallConstant(n, g, from, window + 1, d.policy.rolling.escalateTo);
    var history := Run(d, events).Grants();
    assert history[..n] == seq(n, _ => g);
  }

  // ---- Exactly which policies let an interval exceed the bound

  lemma {:induction false} SomeSmall(history: seq<Grant>, from: nat, span: nat, k: nat)
    requires Small(history, from, span, k) > 0
    ensures exists i :: 0 <= i < |history| && history[i].distinct < k
  {
    if forall i | 0 <= i < |history| :: history[i].distinct >= k {
      NoneSmall(history, from, span, k);
    }
  }

  lemma {:induction false} SmallWithin(history: seq<Grant>, from: nat, span: nat, k: nat)
    ensures Small(history, from, span, k) <= |history|
  {
    if history != [] {
      SmallWithin(history[..|history| - 1], from, span, k);
    }
  }

  /** The hashes executed, in a trail where none is executed twice. */
  function Done(executed: seq<Executed>): set<Digest> {
    set x | x in executed :: x.execution.requestHash
  }

  predicate Capped(s: State) {
    |s.executed| == |Done(s.executed)| && |s.requests| <= MAX_DELETE_REQUESTS
  }

  lemma StepCapped(d: Deployment, s: State, ev: Event)
    requires Capped(s)
    ensures Capped(Step(d, s, ev))
  {
    hide Step;
    var t := Step(d, s, ev);
    if t.executed != s.executed {
      OnlyExecutesExecutes(d, s, ev);
      OneExecuted(d, s, ev.execution, ev.now);
      DoneGrows(s.executed, t.executed[|s.executed|]);
    }
    RequestsCapped(d, s, ev);
  }

  lemma OnlyExecutesExecutes(d: Deployment, s: State, ev: Event)
    requires Step(d, s, ev).executed != s.executed
    ensures ev.Executes?
  {
    hide Judge, EncodeExecution, VerifyRequest, DecodeRequest, S.Framed, RequestPreimage, MaySign, S.Ideal;
  }

  lemma RequestsCapped(d: Deployment, s: State, ev: Event)
    requires |s.requests| <= MAX_DELETE_REQUESTS
    ensures |Step(d, s, ev).requests| <= MAX_DELETE_REQUESTS
  {
    hide Judge, EncodeExecution, VerifyRequest, DecodeRequest, S.Framed, RequestPreimage, MaySign, S.Ideal, RequestHash;
  }

  lemma OneExecuted(d: Deployment, s: State, e: Execution, now: u64)
    requires Records(d, s, e, now)
    ensures var t := Step(d, s, Executes(e, now));
            |t.executed| == |s.executed| + 1 && t.executed == s.executed + [t.executed[|s.executed|]]
            && t.executed[|s.executed|].execution == e && !s.Recorded(e.requestHash)
  {
    hide Judge, EncodeExecution;
  }

  lemma DoneGrows(executed: seq<Executed>, x: Executed)
    requires forall i | 0 <= i < |executed| :: executed[i].execution.requestHash != x.execution.requestHash
    ensures Done(executed + [x]) == Done(executed) + {x.execution.requestHash}
    ensures x.execution.requestHash !in Done(executed)
  {
  }

  /** The trail is capped, and holds at most one execution of each request. */
  lemma {:induction false} TrailIsCapped(d: Deployment, events: seq<Event>)
    ensures Capped(Run(d, events))
  {
    hide Step;
    if events != [] {
      TrailIsCapped(d, events[..|events| - 1]);
      StepCapped(d, Run(d, events[..|events| - 1]), events[|events| - 1]);
    }
  }

  lemma ExecutedWithin(d: Deployment, events: seq<Event>)
    ensures |Run(d, events).executed| <= MAX_DELETE_REQUESTS
  {
    hide Run, Filed, Stamped;
    var s := Run(d, events);
    EveryRun(d, events);
    TrailIsCapped(d, events);
    assert Done(s.executed) <= s.requests.Keys;
    DigestSubsetSize(Done(s.executed), s.requests.Keys);
  }

  /** Some run under policy `p` has more than `objects` small executions in an interval of `span` seconds. */
  ghost predicate RunExceeds(p: Policy, d: Deployment, events: seq<Event>, from: nat, span: nat) {
    d.policy == p && Small(Run(d, events).Grants(), from, span, p.rolling.escalateTo) > p.rolling.objects
  }

  /** A scope that few approvers carry, and whose approvals fit one bundle. */
  predicate Light(p: Policy, scope: Scope) {
    p.Base(scope) < p.rolling.escalateTo && p.Base(scope) <= MAX_APPROVALS
  }

  lemma ExceedingRunNeeds(p: Policy, d: Deployment, events: seq<Event>, from: nat, span: nat)
    requires RunExceeds(p, d, events, from, span)
    ensures span > p.rolling.window && 0 < p.rolling.objects < MAX_DELETE_REQUESTS && exists scope :: Light(p, scope)
  {
    hide Run;
    var s := Run(d, events);
    RunVolume(d, events, from);
    if span <= p.rolling.window {
      SmallWidens(s.Grants(), from, span, p.rolling.window, p.rolling.escalateTo);
    }
    ExecutedWithin(d, events);
    SmallWithin(s.Grants(), from, span, p.rolling.escalateTo);
    SomeSmall(s.Grants(), from, span, p.rolling.escalateTo);
    var i :| 0 <= i < |s.Grants()| && s.Grants()[i].distinct < p.rolling.escalateTo;
    BeyondTheCap(d, events, i);
    assert Light(p, s.executed[i].request.scope);
  }

  // ---- A deployment in which nothing collides

  /** A stand-in for a hash: the nonce of a request's preimage, the first octets of a key. */
  function Sample(x: Bytes): Digest {
    var tail := S.VK_LEN + S.SIG_LEN;
    if |x| >= tail + 32 then x[|x| - tail - 32..|x| - tail]
    else if |x| >= 32 then x[..32]
    else ZeroDigest()
  }

  function Numbered(i: nat, width: nat): (b: Bytes)
    requires width >= 2
    ensures |b| == width
  {
    LE(i, 2) + seq(width - 2, _ => 0)
  }

  lemma NumbersApart(i: nat, j: nat, width: nat)
    requires width >= 2 && i < 65536 && j < 65536 && Numbered(i, width) == Numbered(j, width)
    ensures i == j
  {
    assert Pow256(2) == 65536;
    FromLEofLE(i, 2);
    FromLEofLE(j, 2);
    assert Numbered(i, width)[..2] == LE(i, 2) && Numbered(j, width)[..2] == LE(j, 2);
  }

  function SampleScope(scope: Scope): Scope {
    match scope case Object(_) => Object([0x61]) case Prefix(_) => Prefix([0x61]) case Namespace => Namespace
  }

  function SampleRequest(scope: Scope, i: nat): (r: Request) {
    RequestRecord(SampleScope(scope), [], seq(S.VK_LEN, _ => 255), Numbered(i, 32), seq(S.SIG_LEN, _ => 0))
  }

  function SampleRequests(scope: Scope, n: nat): (rs: seq<Request>)
    ensures |rs| == n && forall i | 0 <= i < n :: rs[i] == SampleRequest(scope, i)
  {
    seq(n, i requires 0 <= i < n => SampleRequest(scope, i))
  }

  function SampleKeys(n: nat): (ks: seq<Bytes>)
    ensures |ks| == n && forall i | 0 <= i < n :: ks[i] == Numbered(i, S.VK_LEN)
  {
    seq(n, i requires 0 <= i < n => Numbered(i, S.VK_LEN))
  }

  lemma SampleHash(scope: Scope, i: nat)
    ensures RequestHash(Sample, SampleRequest(scope, i)) == Numbered(i, 32)
  {
    hide LE, Wire;
    var r := SampleRequest(scope, i);
    var f := BodyFields(r);
    var front, last: seq<Bytes> := f[..3], [r.nonce];
    assert f == front + last;
    WireAppend(front, last);
    assert Wire(last) == Field(r.nonce) by { WireOne(r.nonce); }
    var x := RequestPreimage(r);
    var lead := Wire(front) + LE(32, LEN_PREFIX);
    assert x == lead + r.nonce + r.requestedBy + r.sig;
    assert x[|lead|..|lead| + 32] == r.nonce;
  }

  lemma WireOne(field: Bytes)
    ensures Wire([field]) == Field(field)
  {
    assert [field][1..] == [];
  }

  lemma SampleWire(scope: Scope, i: nat)
    ensures WireRequest(SampleRequest(scope, i))
  {
    assert Utf8.Valid([]) && Utf8.Valid([0x61]);
  }

  lemma KeysApart(i: nat, j: nat)
    requires i < j < 65536
    ensures Sample(Numbered(i, S.VK_LEN)) != Sample(Numbered(j, S.VK_LEN))
  {
    hide Sample, Numbered;
    SampleOfKey(i);
    SampleOfKey(j);
    if Numbered(i, 32) == Numbered(j, 32) {
      NumbersApart(i, j, 32);
    }
  }

  lemma OneMoreId(hash: HashFn, keys: set<Bytes>, k: Bytes)
    requires forall x | x in keys :: hash(x) != hash(k)
    ensures |Ids(hash, keys + {k})| == |Ids(hash, keys)| + 1
  {
    var (before, after) := (Ids(hash, keys), Ids(hash, keys + {k}));
    forall y ensures y in after <==> y in before || y == hash(k) {
      if y in after {
        var x :| x in keys + {k} && hash(x) == y;
        assert x == k || x in keys;
      }
      if y in before {
        var x :| x in keys && hash(x) == y;
        assert x in keys + {k};
      }
    }
    assert after == before + {hash(k)};
  }

  lemma {:induction false} SampleIds(n: nat)
    requires n <= 65536
    ensures |Ids(Sample, Members(SampleKeys(n)))| == n
  {
    hide Sample, Numbered, Ids;
    if n == 0 {
      assert Members(SampleKeys(n)) == {};
      NoIds(Sample);
    } else {
      SampleIds(n - 1);
      var ks, k := SampleKeys(n - 1), Numbered(n - 1, S.VK_LEN);
      assert SampleKeys(n) == ks + [k];
      assert Members(SampleKeys(n)) == Members(ks) + {k};
      forall x | x in Members(ks) ensures Sample(x) != Sample(k) {
        var i :| 0 <= i < n - 1 && ks[i] == x;
        KeysApart(i, n - 1);
      }
      OneMoreId(Sample, Members(ks), k);
    }
  }

  lemma NoIds(hash: HashFn)
    ensures Ids(hash, {}) == {}
  {
  }

  lemma SampleOfKey(i: nat)
    ensures Sample(Numbered(i, S.VK_LEN)) == Numbered(i, 32)
  {
    assert Numbered(i, S.VK_LEN)[..32] == Numbered(i, 32);
  }

  /** Devices that all sign within the quorum, plus one so that there is an authority at all. */
  function SampleDeployment(p: Policy, n: nat): Deployment {
    Deployment(Sample, p, Members(SampleKeys(n + 1)), {}, _ => 0)
  }

  lemma SampleIsDrivable(p: Policy, scope: Scope, n: nat)
    requires p.Base(scope) <= MAX_APPROVALS && n <= MAX_DELETE_REQUESTS
    ensures Drivable(SampleDeployment(p, p.Base(scope)), SampleRequests(scope, n), SampleKeys(p.Base(scope)))
    ensures |Ids(Sample, Members(SampleKeys(p.Base(scope))))| == p.Base(scope)
  {
    hide WireRequest, RequestHash, Sample, Numbered;
    var d, rs, ks := SampleDeployment(p, p.Base(scope)), SampleRequests(scope, n), SampleKeys(p.Base(scope));
    SampleIds(p.Base(scope));
    assert SampleKeys(p.Base(scope) + 1)[0] in d.Devices();
    forall i | 0 <= i < n ensures WireRequest(rs[i]) && RequestHash(Sample, rs[i]) == Numbered(i, 32) {
      SampleWire(scope, i);
      SampleHash(scope, i);
    }
    forall i, j | 0 <= i < j < n ensures RequestHash(d.hash, rs[i]) != RequestHash(d.hash, rs[j]) {
      if Numbered(i, 32) == Numbered(j, 32) {
        NumbersApart(i, j, 32);
      }
    }
    forall i, k | 0 <= i < n && k in ks ensures MayApprove(d, rs[i], k) {
      var j :| 0 <= j < |ks| && ks[j] == k;
      assert SampleKeys(p.Base(scope) + 1)[j] == k;
      RequesterApart(j);
    }
  }

  lemma RequesterApart(j: nat)
    ensures Sample(Numbered(j, S.VK_LEN)) != Sample(seq(S.VK_LEN, _ => 255))
  {
    assert Sample(Numbered(j, S.VK_LEN))[31] == 0 && Sample(seq(S.VK_LEN, _ => 255))[31] == 255;
  }

  /**
   * Exactly which policies let some run exceed the bound: for an interval longer than the
   * window, those that escalate after at least one execution but before the trail is full,
   * with a scope that owes less than the escalation and no more than a bundle carries.
   */
  lemma RunExceedsIff(p: Policy, span: nat)
    ensures (exists d, events, from :: RunExceeds(p, d, events, from, span)) <==>
            && span > p.rolling.window && 0 < p.rolling.objects < MAX_DELETE_REQUESTS
            && (exists scope :: Light(p, scope))
  {
    hide Run, Drivable, Ids, Sample;
    if d, events, from :| RunExceeds(p, d, events, from, span) {
      ExceedingRunNeeds(p, d, events, from, span);
    }
    if span > p.rolling.window && 0 < p.rolling.objects < MAX_DELETE_REQUESTS && exists scope :: Light(p, scope) {
      var scope :| Light(p, scope);
      var d, n := SampleDeployment(p, p.Base(scope)), p.rolling.objects + 1;
      SampleIsDrivable(p, scope, n);
      var events := LongerIntervalRun(d, SampleRequests(scope, n), SampleKeys(p.Base(scope)),
                                      seq(S.VK_LEN, _ => 0), seq(S.SIG_LEN, _ => 0), 0);
      SmallWidens(Run(d, events).Grants(), 0, p.rolling.window + 1, span, p.rolling.escalateTo);
      assert RunExceeds(p, d, events, 0, span);
    }
  }
}
