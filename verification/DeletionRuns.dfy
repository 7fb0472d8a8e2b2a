/**
 * Whole runs of the deletion loop: requesters, approver devices, relays, minted keys and
 * a peer that keeps the trail (crates/nas-peer/src/peer.rs, crates/nas-delete/src).
 *
 * Everything is adversarial short of forging a signature: bundles are assembled freely,
 * every clock reading is arbitrary, and any key may sign anything, the compromised
 * authority devices included, except that an honest authority device signs an approval
 * only through its own cooling-off gate.
 */
module DeletionRuns {
  import opened Wrappers
  import opened Bytes
  import opened Encoding
  import opened DeleteRecord
  import opened DeletePolicy
  import S = Signing
  import Utf8

  const MAX_DELETE_REQUESTS: nat := 1024

  /** What stays fixed over a run. Each device has its own cooling-off. */
  datatype Deployment = Deployment(
    hash: HashFn, policy: Policy, honest: set<Bytes>, compromised: set<Bytes>, coolingOff: Bytes -> u64)
  {
    function Devices(): set<Bytes> {
      honest + compromised
    }

    function Authority(): set<Digest> {
      Ids(hash, Devices())
    }
  }

  /** A recorded execution, with the count its verdict was reached on. */
  datatype Executed = Executed(request: Request, execution: Execution, at: u64, distinct: nat)

  datatype State = State(
    signed: set<(Bytes, Bytes)>,           // who signed which octets
    hashed: set<Bytes>,                    // every string hashed so far
    seen: map<(Bytes, Request), u64>,      // each device's own arrival stamps
    approvedAt: map<(Bytes, Request), u64>, // each device's clock when it approved
    requests: map<Digest, Request>,        // the peer's trail
    executed: seq<Executed>)
  {
    function Grants(): seq<Grant> {
      seq(|executed|, i requires 0 <= i < |executed| => Grant(executed[i].at, executed[i].distinct))
    }

    predicate Recorded(h: Digest) {
      exists i :: 0 <= i < |executed| && executed[i].execution.requestHash == h
    }
  }

  datatype Event =
    | Signs(vk: Bytes, context: S.SigContext, message: Bytes)
    | Receives(device: Bytes, bytes: Bytes, now: u64)
    | Approves(device: Bytes, request: Request, now: u64)
    | Publishes(request: Request)
    | Executes(execution: Execution, now: u64)

  function Start(d: Deployment): State {
    State({}, d.Devices(), map[], map[], map[], [])
  }

  function Keys(approvals: seq<Approval>): set<Bytes> {
    set a | a in approvals :: a.approverPk
  }

  /** The peer's verdict on an execution, `execute_delete` up to recording it. */
  function Judge(d: Deployment, s: State, e: Execution, now: u64): Decision
    requires e.requestHash in s.requests
  {
    DecideSpec(S.Ideal(d.hash, s.signed), s.requests[e.requestHash], e, Times(s.Grants()),
               d.policy, d.Authority(), now)
  }

  /** One event. An event that is not allowed leaves the state as it was. */
  function Step(d: Deployment, s: State, ev: Event): State {
    match ev
    case Signs(vk, ctx, message) =>
      if vk in d.honest && ctx == S.DeleteApproval then s
      else s.(signed := s.signed + {(vk, S.Framed(ctx, message))})
    case Receives(device, bytes, now) =>
      var decoded := DecodeRequest(bytes);
      if device !in d.Devices() || decoded.Err? || (device, decoded.value) in s.seen then s
      else s.(seen := s.seen[(device, decoded.value) := now],
              hashed := s.hashed + {RequestPreimage(decoded.value)})
    case Approves(device, r, now) =>
      if (device, r) !in s.seen || !MaySign(d.coolingOff(device), s.seen[(device, r)], now) then s
      else s.(signed := s.signed + {(device, S.Framed(S.DeleteApproval, RequestHash(d.hash, r)))},
              approvedAt := if (device, r) in s.approvedAt then s.approvedAt else s.approvedAt[(device, r) := now])
    case Publishes(r) =>
      var h := RequestHash(d.hash, r);
      if VerifyRequest(S.Ideal(d.hash, s.signed), r).Err? || !Textual(r) || h in s.requests
         || |s.requests| >= MAX_DELETE_REQUESTS then s
      else s.(requests := s.requests[h := r], hashed := s.hashed + {RequestPreimage(r)})
    case Executes(e, now) =>
      var t := s.(hashed := s.hashed + Keys(e.approvals));
      if e.requestHash !in s.requests || !Judge(d, s, e, now).Execute?
         || s.Recorded(e.requestHash) || EncodeExecution(e).Err? then t
      else t.(executed := s.executed + [Executed(s.requests[e.requestHash], e, now, Judge(d, s, e, now).distinct)])
  }

  function Run(d: Deployment, events: seq<Event>): State {
    if events == [] then Start(d) else
      var n := |events| - 1;
      Step(d, Run(d, events[..n]), events[n])
  }

  // ---- What every run keeps

  /** Key `k` has signed an approval of hash `h`. */
  predicate Signed(s: State, k: Bytes, h: Digest) {
    (k, S.Framed(S.DeleteApproval, h)) in s.signed
  }

  /** Device `k` signed over `h` by approving some request with that hash. */
  ghost predicate Backed(d: Deployment, s: State, k: Bytes, h: Digest) {
    exists r :: (k, r) in s.approvedAt && RequestHash(d.hash, r) == h
  }

  /** Device `k` approved `r` after its cooling-off, by its own stamp and clock. */
  predicate CooledOff(d: Deployment, s: State, k: Bytes, r: Request) {
    && (k, r) in s.approvedAt && (k, r) in s.seen
    && Waited(s.seen[(k, r)], d.coolingOff(k), s.approvedAt[(k, r)])
  }

  /** Honest authority devices, none of them the requester, that all cooled off on `r` and approved it. */
  predicate Quorum(d: Deployment, s: State, r: Request, signers: set<Bytes>) {
    && signers <= d.honest && r.requestedBy !in signers
    && forall k | k in signers :: CooledOff(d, s, k, r)
  }

  /** `n` authority devices stand behind `r`, at most the compromised ones without having cooled off. */
  ghost predicate Authorised(d: Deployment, s: State, r: Request, n: nat) {
    exists signers :: Quorum(d, s, r, signers) && |signers| + |d.compromised| >= n
  }

  /** Device logs: approvals come after a cooled-off arrival, of full-width requests. */
  predicate Stamped(d: Deployment, s: State) {
    && (forall x | x in s.approvedAt :: CooledOff(d, s, x.0, x.1))
    && (forall x | x in s.seen :: |x.1.requestedBy| == S.VK_LEN && RequestPreimage(x.1) in s.hashed)
  }

  /** The peer's trail: requests that verify, filed under their own hashes. */
  predicate Filed(d: Deployment, s: State) {
    forall h | h in s.requests ::
      && RequestHash(d.hash, s.requests[h]) == h && RequestPreimage(s.requests[h]) in s.hashed
      && VerifyRequest(S.Ideal(d.hash, s.signed), s.requests[h]).Ok? && Textual(s.requests[h])
  }

  /** What was executed had been requested, on a bundle within the cap. */
  predicate Trailed(s: State) {
    forall x | x in s.executed ::
      && x.execution.requestHash in s.requests && s.requests[x.execution.requestHash] == x.request
      && |x.execution.approvals| <= MAX_APPROVALS
  }

  ghost predicate Inv(d: Deployment, s: State) {
    && d.Devices() <= s.hashed && Stamped(d, s) && Filed(d, s) && Trailed(s)
    && (forall k, h | k in d.honest && Signed(s, k, h) :: Backed(d, s, k, h))
  }

  ghost predicate Lawful(d: Deployment, s: State, i: nat)
    requires i < |s.executed|
  {
    var x := s.executed[i];
    && x.distinct == |Ids(d.hash, Keys(x.execution.approvals))|
    && x.distinct >= d.policy.Required(x.request.scope, Times(s.Grants()[..i]), x.at)
    && (Collides(d.hash, s.hashed) || Authorised(d, s, x.request, x.distinct))
  }

  /** Nothing recorded is ever withdrawn, restamped or replaced. */
  ghost predicate Grows(s: State, t: State) {
    && s.signed <= t.signed && s.hashed <= t.hashed && s.executed <= t.executed
    && (forall x | x in s.seen :: x in t.seen && t.seen[x] == s.seen[x])
    && (forall x | x in s.approvedAt :: x in t.approvedAt && t.approvedAt[x] == s.approvedAt[x])
    && (forall h | h in s.requests :: h in t.requests && t.requests[h] == s.requests[h])
  }

  lemma StepGrows(d: Deployment, s: State, ev: Event)
    ensures Grows(s, Step(d, s, ev)) && |Step(d, s, ev).executed| <= |s.executed| + 1
  {
    hide Judge, VerifyRequest, Textual, DecodeRequest, EncodeExecution, S.Framed, RequestPreimage;
  }

  /** Approvals are the only way an honest authority key comes to have signed an approval. */
  lemma StepBacked(d: Deployment, s: State, ev: Event, k: Bytes, h: Digest)
    requires Inv(d, s) && k in d.honest && Signed(Step(d, s, ev), k, h)
    ensures Backed(d, Step(d, s, ev), k, h)
  {
    hide Judge, VerifyRequest, Textual, DecodeRequest, EncodeExecution, S.Framed, RequestPreimage, MaySign, Stamped, Filed, Trailed;
    var t := Step(d, s, ev);
    if Signed(s, k, h) {
      var r :| (k, r) in s.approvedAt && RequestHash(d.hash, r) == h;
      StepGrows(d, s, ev);
      assert (k, r) in t.approvedAt;
    } else if ev.Signs? {
      S.FramedInjective(S.DeleteApproval, h, ev.context, ev.message);
    } else {
      S.FramedInjective(S.DeleteApproval, h, S.DeleteApproval, RequestHash(d.hash, ev.request));
      assert (k, ev.request) in t.approvedAt;
    }
  }

  lemma StepStamps(d: Deployment, s: State, ev: Event)
    requires Stamped(d, s)
    ensures Stamped(d, Step(d, s, ev))
  {
    hide Judge, VerifyRequest, Textual, DecodeRequest, EncodeExecution, EncodeRequest, S.Framed, RequestPreimage, S.Ideal, RequestHash,
         Utf8.Valid, DeleteRecord.Text;
    var t := Step(d, s, ev);
    if ev.Receives? && DecodeRequest(ev.bytes).Ok? {
      RequestCanonical(ev.bytes, DecodeRequest(ev.bytes).value);
    }
    StepGrows(d, s, ev);
    forall x | x in t.approvedAt ensures CooledOff(d, t, x.0, x.1) {
      assert x in s.approvedAt || (ev.Approves? && x == (ev.device, ev.request));
      assert x == (x.0, x.1);
    }
  }

  /** A signature once made stays made. */
  lemma StillVerifies(hash: HashFn, signed: set<(Bytes, Bytes)>, more: set<(Bytes, Bytes)>, r: Request)
    requires signed <= more && VerifyRequest(S.Ideal(hash, signed), r).Ok?
    ensures VerifyRequest(S.Ideal(hash, more), r).Ok?
  {
    hide S.Framed, RequestBody;
  }

  lemma StepFiles(d: Deployment, s: State, ev: Event)
    requires Filed(d, s)
    ensures Filed(d, Step(d, s, ev))
  {
    hide Judge, DecodeRequest, MaySign, RequestPreimage, VerifyRequest, Textual, S.Framed, EncodeExecution;
    var t := Step(d, s, ev);
    StepGrows(d, s, ev);
    forall h | h in s.requests ensures VerifyRequest(S.Ideal(d.hash, t.signed), s.requests[h]).Ok? {
      StillVerifies(d.hash, s.signed, t.signed, s.requests[h]);
    }
  }

  lemma StepTrails(d: Deployment, s: State, ev: Event)
    requires Trailed(s)
    ensures Trailed(Step(d, s, ev))
  {
    hide Judge, DecodeRequest, MaySign, RequestPreimage, VerifyRequest, Textual, S.Framed, EncodeApprovals, Encode;
    StepGrows(d, s, ev);
  }

  lemma StepInv(d: Deployment, s: State, ev: Event)
    requires Inv(d, s)
    ensures Inv(d, Step(d, s, ev))
  {
    StepGrows(d, s, ev);
    StepStamps(d, s, ev);
    StepFiles(d, s, ev);
    StepTrails(d, s, ev);
    forall k, h | k in d.honest && Signed(Step(d, s, ev), k, h)
      ensures Backed(d, Step(d, s, ev), k, h)
    {
      StepBacked(d, s, ev, k, h);
    }
  }

  lemma ImageSize(hash: HashFn, keys: set<Bytes>)
    ensures |Ids(hash, keys)| <= |keys|
  {
    if keys != {} {
      var k :| k in keys;
      ImageSize(hash, keys - {k});
      assert Ids(hash, keys) == Ids(hash, keys - {k}) + {hash(k)};
    }
  }

  lemma KeysAndIds(c: S.Crypto, approvals: seq<Approval>)
    ensures Ids(c.hash, Keys(approvals)) == Approvers(c, approvals)
  {
    forall a | a in approvals ensures c.hash(a.approverPk) in Ids(c.hash, Keys(approvals)) {
      assert a.approverPk in Keys(approvals);
    }
  }

  /** One counted approval names an authority device, which if honest cooled off on this very request. */
  lemma CountedSigner(d: Deployment, s: State, r: Request, a: Approval, hashed: set<Bytes>)
    requires Inv(d, s) && RequestHash(d.hash, r) in s.requests && s.requests[RequestHash(d.hash, r)] == r
    requires Counts(S.Ideal(d.hash, s.signed), a, r, d.Authority())
    requires s.hashed + {a.approverPk} <= hashed
    ensures !Collides(d.hash, hashed) ==>
            && a.approverPk in d.Devices() && a.approverPk != r.requestedBy
            && (a.approverPk in d.honest ==> CooledOff(d, s, a.approverPk, r))
  {
    var k := a.approverPk;
    var device :| device in d.Devices() && d.hash(device) == d.hash(k);
    SameHash(d.hash, hashed, device, k);
    if device == k && k in d.honest {
      assert Signed(s, k, a.requestHash) && Backed(d, s, k, a.requestHash);
      var q :| (k, q) in s.approvedAt && RequestHash(d.hash, q) == a.requestHash;
      assert CooledOff(d, s, k, q);
      SameHash(d.hash, hashed, RequestPreimage(q), RequestPreimage(r));
      if RequestPreimage(q) == RequestPreimage(r) {
        PreimageInjective(q, r);
      }
    }
  }

  /** Countable approvals stand for as many devices as there are distinct ids behind them. */
  lemma CountedQuorum(d: Deployment, s: State, r: Request, approvals: seq<Approval>)
    requires Inv(d, s) && RequestHash(d.hash, r) in s.requests && s.requests[RequestHash(d.hash, r)] == r
    requires forall a | a in approvals :: Counts(S.Ideal(d.hash, s.signed), a, r, d.Authority())
    ensures Collides(d.hash, s.hashed + Keys(approvals)) || Authorised(d, s, r, |Ids(d.hash, Keys(approvals))|)
  {
    hide Inv, Counts, CooledOff, Collides, RequestHash;
    var signers, hashed := Keys(approvals), s.hashed + Keys(approvals);
    if !Collides(d.hash, hashed) {
      var cooled := signers - d.compromised;
      forall k | k in signers ensures k in d.Devices() && k != r.requestedBy && (k in d.honest ==> CooledOff(d, s, k, r)) {
        var a :| a in approvals && a.approverPk == k;
        CountedSigner(d, s, r, a, hashed);
      }
      assert Quorum(d, s, r, cooled);
      ImageSize(d.hash, signers);
      WithoutSize(signers, d.compromised);
    }
  }

  lemma WithoutSize(a: set<Bytes>, b: set<Bytes>)
    ensures |a| <= |a - b| + |b|
  {
    assert a == (a - b) + (a * b);
    SubsetSize(a * b, b);
  }

  /**
   * No execution without a cooled-off quorum. However the run went and however the
   * bundle was assembled, a verdict to execute request `r` means that at least as many
   * distinct honest authority devices as were counted, less the compromised ones, none of
   * them the requester, had already approved `r` itself, each after its own cooling-off by
   * its own clock; or two strings hashed in the run collide.
   */
  lemma JudgedQuorum(d: Deployment, s: State, e: Execution, now: u64)
    requires Inv(d, s) && e.requestHash in s.requests && Judge(d, s, e, now).Execute?
    ensures var r := s.requests[e.requestHash];
            && Judge(d, s, e, now).distinct >= d.policy.Required(r.scope, Times(s.Grants()), now)
            && Judge(d, s, e, now).distinct == |Ids(d.hash, Keys(e.approvals))|
            && (Collides(d.hash, s.hashed + Keys(e.approvals))
                || Authorised(d, s, r, Judge(d, s, e, now).distinct))
  {
    hide DecideSpec, Policy.Required, Inv, Counts;
    var c, r := S.Ideal(d.hash, s.signed), s.requests[e.requestHash];
    var Execute(required, distinct) := Judge(d, s, e, now);
    DecideMeaning(c, r, e, Times(s.Grants()), d.policy, d.Authority(), now, required, distinct);
    KeysAndIds(c, e.approvals);
    FiledUnderHash(d, s, e.requestHash);
    CountedQuorum(d, s, r, e.approvals);
  }

  lemma FiledUnderHash(d: Deployment, s: State, h: Digest)
    requires Inv(d, s) && h in s.requests
    ensures RequestHash(d.hash, s.requests[h]) == h
  {
  }

  lemma AuthorisedGrows(d: Deployment, s: State, t: State, r: Request, n: nat)
    requires Grows(s, t) && Authorised(d, s, r, n)
    ensures Authorised(d, t, r, n)
  {
    var signers :| Quorum(d, s, r, signers) && |signers| + |d.compromised| >= n;
    assert Quorum(d, t, r, signers);
  }

  lemma StepKeepsLawful(d: Deployment, s: State, ev: Event, i: nat)
    requires i < |s.executed| && Lawful(d, s, i)
    ensures i < |Step(d, s, ev).executed| && Lawful(d, Step(d, s, ev), i)
  {
    var t, x := Step(d, s, ev), s.executed[i];
    StepGrows(d, s, ev);
    assert t.Grants()[..i] == s.Grants()[..i] && t.executed[i] == x;
    if Authorised(d, s, x.request, x.distinct) {
      AuthorisedGrows(d, s, t, x.request, x.distinct);
    }
  }

  lemma ExecuteIsLawful(d: Deployment, s: State, ev: Event)
    requires Inv(d, s) && |s.executed| < |Step(d, s, ev).executed|
    ensures Lawful(d, Step(d, s, ev), |s.executed|)
  {
    hide Inv, EncodeExecution, VerifyRequest, DecodeRequest, DecideSpec, S.Framed, RequestPreimage, MaySign, Authorised, Ids, Policy.Required;
    var t := Step(d, s, ev);
    var x := t.executed[|s.executed|];
    StepGrows(d, s, ev);
    JudgedQuorum(d, s, ev.execution, ev.now);
    assert t.Grants()[..|s.executed|] == s.Grants();
    if Authorised(d, s, x.request, x.distinct) {
      AuthorisedGrows(d, s, t, x.request, x.distinct);
    }
  }

  ghost predicate AllLawful(d: Deployment, s: State) {
    forall i | 0 <= i < |s.executed| :: Lawful(d, s, i)
  }

  lemma StepAllLawful(d: Deployment, s: State, ev: Event)
    requires Inv(d, s) && AllLawful(d, s)
    ensures AllLawful(d, Step(d, s, ev))
  {
    hide Step, Lawful, Inv;
    var t := Step(d, s, ev);
    StepGrows(d, s, ev);
    forall i | 0 <= i < |t.executed| ensures Lawful(d, t, i) {
      if i < |s.executed| {
        StepKeepsLawful(d, s, ev, i);
      } else {
        ExecuteIsLawful(d, s, ev);
      }
    }
  }

  /** Over every run: the invariant, and every recorded execution lawful. */
  lemma {:induction false} EveryRun(d: Deployment, events: seq<Event>)
    ensures Inv(d, Run(d, events)) && AllLawful(d, Run(d, events))
  {
    hide Step, Lawful;
    if events != [] {
      var n := |events| - 1;
      EveryRun(d, events[..n]);
      StepInv(d, Run(d, events[..n]), events[n]);
      StepAllLawful(d, Run(d, events[..n]), events[n]);
    }
  }

  /** The trail only grows: whatever follows, an earlier state is contained in a later one. */
  lemma {:induction false} TrailMonotonic(d: Deployment, events: seq<Event>, more: seq<Event>)
    ensures Grows(Run(d, events), Run(d, events + more))
    decreases |more|
  {
    hide Step;
    if more == [] {
      assert events + more == events;
    } else {
      var n := |more| - 1;
      TrailMonotonic(d, events, more[..n]);
      assert (events + more)[..|events| + n] == events + more[..n];
      StepGrows(d, Run(d, events + more[..n]), more[n]);
    }
  }

  /** Whatever the run, few executions in any window had fewer than `escalate_to` approvers. */
  lemma RunVolume(d: Deployment, events: seq<Event>, from: nat)
    ensures var s := Run(d, events);
            Small(s.Grants(), from, d.policy.rolling.window, d.policy.rolling.escalateTo) <= d.policy.rolling.objects
  {
    EveryRun(d, events);
    var s := Run(d, events);
    forall i | 0 <= i < |s.Grants()|
      ensures InWindow(Times(s.Grants()[..i]), s.Grants()[i].at, d.policy.rolling.window) >= d.policy.rolling.objects
              ==> s.Grants()[i].distinct >= d.policy.rolling.escalateTo
    {
      assert Lawful(d, s, i);
    }
    VolumeBound(s.Grants(), d.policy.rolling, from);
  }

  /** Executions stamped in [from, from + span) that only keys in `stolen` approved. */
  ghost function CarriedBy(executed: seq<Executed>, stolen: set<Bytes>, from: nat, span: nat): nat {
    if executed == [] then 0 else
      var n := |executed| - 1;
      CarriedBy(executed[..n], stolen, from, span)
      + if from <= executed[n].at < from + span && Keys(executed[n].execution.approvals) <= stolen then 1 else 0
  }

  lemma {:induction false} CarriedBySmall(d: Deployment, s: State, n: nat, stolen: set<Bytes>, from: nat, span: nat, k: nat)
    requires n <= |s.executed| && |stolen| < k
    requires AllLawful(d, s)
    ensures CarriedBy(s.executed[..n], stolen, from, span) <= Small(s.Grants()[..n], from, span, k)
  {
    if n > 0 {
      CarriedBySmall(d, s, n - 1, stolen, from, span, k);
      assert s.executed[..n][..n - 1] == s.executed[..n - 1] && s.Grants()[..n][..n - 1] == s.Grants()[..n - 1];
      var x := s.executed[n - 1];
      assert Lawful(d, s, n - 1);
      if Keys(x.execution.approvals) <= stolen {
        var keys := Keys(x.execution.approvals);
        ImageSize(d.hash, keys);
        SubsetSize(keys, stolen);
      }
    }
  }

  lemma SubsetSize(a: set<Bytes>, b: set<Bytes>)
    requires a <= b
    ensures |a| <= |b|
  {
    assert b == a + (b - a);
  }

  /**
   * Decomposition does not pay: any fixed set of fewer than `escalate_to` stolen keys
   * carries at most `objects` deletions in any window, over every run.
   */
  lemma StolenKeysBounded(d: Deployment, events: seq<Event>, stolen: set<Bytes>, from: nat)
    requires |stolen| < d.policy.rolling.escalateTo
    ensures CarriedBy(Run(d, events).executed, stolen, from, d.policy.rolling.window) <= d.policy.rolling.objects
  {
    EveryRun(d, events);
    RunVolume(d, events, from);
    var s := Run(d, events);
    CarriedBySmall(d, s, |s.executed|, stolen, from, d.policy.rolling.window, d.policy.rolling.escalateTo);
    assert s.executed[..|s.executed|] == s.executed && s.Grants()[..|s.executed|] == s.Grants();
  }

  /**
   * The quorum theorem over runs, at the moment of judgement: after any events, with any
   * bundle and any clock reading.
   */
  lemma QuorumOverRuns(d: Deployment, events: seq<Event>, e: Execution, now: u64)
    requires e.requestHash in Run(d, events).requests && Judge(d, Run(d, events), e, now).Execute?
    ensures var s := Run(d, events);
            var r := s.requests[e.requestHash];
            Collides(d.hash, s.hashed + Keys(e.approvals))
            || Authorised(d, s, r, d.policy.Required(r.scope, Times(s.Grants()), now))
  {
    EveryRun(d, events);
    JudgedQuorum(d, Run(d, events), e, now);
  }


  /** The execution recorded as number `i` was recorded by one event, when its quorum already stood. */
  lemma {:induction false} RecordedAt(d: Deployment, events: seq<Event>, i: nat) returns (k: nat)
    requires i < |Run(d, events).executed|
    ensures k < |events| && events[k].Executes?
    ensures var s, x := Run(d, events[..k]), Run(d, events).executed[i];
            && |s.executed| == i && x.execution == events[k].execution && x.at == events[k].now
            && x.execution.requestHash in s.requests && s.requests[x.execution.requestHash] == x.request
            && x.distinct >= d.policy.Required(x.request.scope, Times(s.Grants()), x.at)
            && (Collides(d.hash, s.hashed + Keys(x.execution.approvals)) || Authorised(d, s, x.request, x.distinct))
  {
    hide Judge, Authorised, Collides, EncodeExecution, VerifyRequest, DecodeRequest, S.Framed, RequestPreimage, MaySign;
    var n := |events| - 1;
    var s := Run(d, events[..n]);
    StepGrows(d, s, events[n]);
    if i < |s.executed| {
      k := RecordedAt(d, events[..n], i);
      assert events[..n][..k] == events[..k];
    } else {
      k := n;
      EveryRun(d, events[..n]);
      JudgedQuorum(d, s, events[n].execution, events[n].now);
    }
  }

  // ---- What a device's stamps mean

  /** Event `ev` brings request `r` to device `k`. */
  predicate Arrives(ev: Event, k: Bytes, r: Request) {
    ev.Receives? && ev.device == k && DecodeRequest(ev.bytes) == Ok(r)
  }

  /** What device `k`'s clock read when `r` first reached it, from the events alone. */
  function FirstArrival(events: seq<Event>, k: Bytes, r: Request): Option<u64> {
    if events == [] then None else
      var n := |events| - 1;
      var before := FirstArrival(events[..n], k, r);
      if before.Some? then before
      else if Arrives(events[n], k, r) then Some(events[n].now) else None
  }

  function StampOf(s: State, k: Bytes, r: Request): Option<u64> {
    if (k, r) in s.seen then Some(s.seen[(k, r)]) else None
  }

  lemma StepArrives(d: Deployment, s: State, ev: Event, k: Bytes, r: Request)
    requires k in d.Devices()
    ensures StampOf(Step(d, s, ev), k, r) ==
            if StampOf(s, k, r).Some? then StampOf(s, k, r) else if Arrives(ev, k, r) then Some(ev.now) else None
  {
    hide Judge, VerifyRequest, Textual, DecodeRequest, EncodeExecution, S.Framed, RequestPreimage, MaySign, RequestHash, S.Ideal;
  }

  /** A device's stamp is its own clock when the request first reached it, and nothing else. */
  lemma {:induction false} StampIsFirstArrival(d: Deployment, events: seq<Event>, k: Bytes, r: Request)
    requires k in d.Devices()
    ensures StampOf(Run(d, events), k, r) == FirstArrival(events, k, r)
  {
    hide Step, Arrives;
    if events != [] {
      var n := |events| - 1;
      StampIsFirstArrival(d, events[..n], k, r);
      StepArrives(d, Run(d, events[..n]), events[n], k, r);
    }
  }

  /**
   * The gate, over runs: an attempt to approve makes an honest device's signature exactly
   * when the request has reached it and its cooling-off has run since, by its own clock.
   */
  lemma ApprovesIff(d: Deployment, events: seq<Event>, k: Bytes, r: Request, now: u64)
    requires k in d.honest && !Signed(Run(d, events), k, RequestHash(d.hash, r))
    ensures var s, t := Run(d, events), Run(d, events + [Approves(k, r, now)]);
            Signed(t, k, RequestHash(d.hash, r)) <==> (k, r) in s.seen && Waited(s.seen[(k, r)], d.coolingOff(k), now)
  {
    hide S.Framed, RequestHash;
    assert (events + [Approves(k, r, now)])[..|events|] == events;
    assert Run(d, events + [Approves(k, r, now)]) == Step(d, Run(d, events), Approves(k, r, now));
  }

  lemma StepApproves(d: Deployment, s: State, ev: Event, k: Bytes, r: Request)
    requires (k, r) in Step(d, s, ev).approvedAt && (k, r) !in s.approvedAt
    ensures ev == Approves(k, r, Step(d, s, ev).approvedAt[(k, r)])
  {
    hide Judge, VerifyRequest, Textual, DecodeRequest, EncodeExecution, S.Framed, RequestPreimage, MaySign, RequestHash, S.Ideal;
  }

  lemma {:induction false} ApprovalIsAnEvent(d: Deployment, events: seq<Event>, k: Bytes, r: Request)
    requires (k, r) in Run(d, events).approvedAt
    ensures exists i :: 0 <= i < |events| && events[i] == Approves(k, r, Run(d, events).approvedAt[(k, r)])
  {
    hide Step;
    var n := |events| - 1;
    var s := Run(d, events[..n]);
    StepGrows(d, s, events[n]);
    if (k, r) in s.approvedAt {
      ApprovalIsAnEvent(d, events[..n], k, r);
      var i :| 0 <= i < n && events[..n][i] == Approves(k, r, s.approvedAt[(k, r)]);
      assert events[i] == Approves(k, r, s.approvedAt[(k, r)]);
    } else {
      StepApproves(d, s, events[n], k, r);
    }
  }

  /**
   * Having cooled off, said of the events alone: the request first reached the device at
   * one reading of its clock, it approved at another, and its cooling-off lay in between.
   */
  lemma CooledOffMeans(d: Deployment, events: seq<Event>, k: Bytes, r: Request)
    requires CooledOff(d, Run(d, events), k, r) && k in d.Devices()
    ensures FirstArrival(events, k, r).Some?
    ensures exists i :: 0 <= i < |events| && events[i].Approves? && events[i].device == k && events[i].request == r
              && (d.coolingOff(k) == 0 || FirstArrival(events, k, r).value + d.coolingOff(k) <= events[i].now)
  {
    hide Run, FirstArrival;
    StampIsFirstArrival(d, events, k, r);
    ApprovalIsAnEvent(d, events, k, r);
  }

  /** The executions among the first `i` that were less than a window old when the next was recorded, at `now`. */
  function Crowded(executed: seq<Executed>, i: nat, now: u64, window: u64): set<nat>
    requires i <= |executed|
  {
    set j: nat | j < i && window > 0 && now < executed[j].at + window
  }

  /**
   * What every recorded execution had behind it, in the policy's own fields: as many distinct
   * key ids as its kind of scope asks for, and as many as the escalation asks for if as many
   * executions as the policy tolerates were recent.
   */
  lemma RecordedOwed(d: Deployment, events: seq<Event>, i: nat)
    requires i < |Run(d, events).executed|
    ensures var (s, p) := (Run(d, events), d.policy);
            var x := s.executed[i];
            && x.distinct == |Ids(d.hash, Keys(x.execution.approvals))|
            && (x.request.scope.Object? ==> x.distinct >= p.perObject)
            && (x.request.scope.Prefix? ==> x.distinct >= p.perPrefix)
            && (x.request.scope.Namespace? ==> x.distinct >= p.perNamespace)
            && (|Crowded(s.executed, i, x.at, p.rolling.window)| >= p.rolling.objects ==> x.distinct >= p.rolling.escalateTo)
  {
    hide Run, Authorised, Collides, Policy.Required, Ids;
    EveryRun(d, events);
    var s := Run(d, events);
    var x := s.executed[i];
    assert Lawful(d, s, i);
    var recent := Times(s.Grants()[..i]);
    RequiredIff(d.policy, x.request.scope, recent, x.at, x.distinct);
    assert Crowd(recent, x.at, d.policy.rolling.window) == Crowded(s.executed, i, x.at, d.policy.rolling.window);
  }
}
