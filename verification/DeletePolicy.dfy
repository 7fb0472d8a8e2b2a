/** Quorum and the rolling window (crates/nas-delete/src/policy.rs). */
module DeletePolicy {
  import opened Wrappers
  import opened Bytes
  import opened Encoding
  import opened DeleteRecord
  import S = Signing

  function Ids(hash: HashFn, keys: set<Bytes>): set<Digest> {
    set k | k in keys :: hash(k)
  }

  function Members(keys: seq<Bytes>): set<Bytes> {
    set k | k in keys
  }

  /** The offline deletion authority: key ids, admitted by full key. */
  class Authority {
    var ids: set<Digest>

    constructor ()
      ensures ids == {}
    {
      ids := {};
    }

    predicate Contains(id: Digest)
      reads this
    {
      id in ids
    }

    method Add(c: S.Crypto, vk: Bytes) returns (id: Digest)
      modifies this
      ensures id == c.KeyId(vk)
      ensures forall x :: Contains(x) <==> old(Contains(x)) || x == id
    {
      id := c.KeyId(vk);
      ids := ids + {id};
    }
  }

  /** Admitting some keys one by one: the order and repeats leave no trace. */
  method Enrol(c: S.Crypto, keys: seq<Bytes>) returns (a: Authority)
    ensures fresh(a) && a.ids == Ids(c.hash, Members(keys))
  {
    a := new Authority();
    for i := 0 to |keys|
      invariant a.ids == Ids(c.hash, Members(keys[..i]))
    {
      assert keys[..i + 1] == keys[..i] + [keys[i]];
      ghost var before := a.ids;
      var id := a.Add(c, keys[i]);
      forall x ensures x in a.ids <==> x in before + {id} {
        assert a.Contains(x) <==> x in before || x == id;
      }
      assert Members(keys[..i + 1]) == Members(keys[..i]) + {keys[i]};
    }
    assert keys[..|keys|] == keys;
  }

  datatype Rolling = Rolling(window: u64, objects: nat, escalateTo: nat)

  datatype Policy = Policy(perObject: nat, perPrefix: nat, perNamespace: nat, rolling: Rolling) {
    /** What a scope owes before any escalation. */
    function Base(scope: Scope): nat {
      match scope case Object(_) => perObject case Prefix(_) => perPrefix case Namespace => perNamespace
    }

    /** What a request owes at `now`, given the times of earlier executions. */
    function Required(scope: Scope, recent: seq<u64>, now: u64): nat {
      if Escalated(recent, now) && rolling.escalateTo > Base(scope) then rolling.escalateTo else Base(scope)
    }

    predicate Escalated(recent: seq<u64>, now: u64) {
      InWindow(recent, now, rolling.window) >= rolling.objects
    }
  }

  /** Executions less than `window` before `now`; one stamped in the future counts. */
  function InWindow(recent: seq<u64>, now: u64, window: u64): nat {
    if recent == [] then 0 else
      var n := |recent| - 1;
      InWindow(recent[..n], now, window) + if SatSince(now, recent[n]) < window then 1 else 0
  }

  datatype ExecutionFault = Invalid(e: DeleteError) | NamesAnotherRequest

  datatype Refusal =
    | ShortOfQuorum(required: nat, distinct: nat, escalated: bool)
    | BadApproval(approval: DeleteError)
    | BadRequest(request: DeleteError)
    | BadExecution(fault: ExecutionFault)
    | NotAnApprover(id: Digest)
    | NoAuthority
    | SelfApproved

  datatype Decision = Execute(required: nat, distinct: nat) | Refused(why: Refusal)

  /** The ids behind a list of approvals. */
  function Approvers(c: S.Crypto, approvals: seq<Approval>): set<Digest> {
    set a | a in approvals :: c.KeyId(a.approverPk)
  }

  /** First complaint the counting loop has, if any. */
  function Objection(c: S.Crypto, approvals: seq<Approval>, requester: Digest, authority: set<Digest>)
    : Result<(), Refusal>
  {
    if approvals == [] then Ok(()) else
      var a := approvals[0];
      var id := c.KeyId(a.approverPk);
      if VerifyApproval(c, a).Err? then Err(BadApproval(VerifyApproval(c, a).error))
      else if id == requester then Err(SelfApproved)
      else if id !in authority then Err(NotAnApprover(id))
      else Objection(c, approvals[1..], requester, authority)
  }

  function DecideSpec(c: S.Crypto, r: Request, e: Execution, recent: seq<u64>, p: Policy,
                      authority: set<Digest>, now: u64): Decision
  {
    if VerifyRequest(c, r).Err? then Refused(BadRequest(VerifyRequest(c, r).error))
    else if VerifyExecutionSpec(c, e).Err? then Refused(BadExecution(Invalid(VerifyExecutionSpec(c, e).error)))
    else if e.requestHash != RequestHash(c.hash, r) then Refused(BadExecution(NamesAnotherRequest))
    else if authority == {} then Refused(NoAuthority)
    else
      var objection := Objection(c, e.approvals, c.KeyId(r.requestedBy), authority);
      if objection.Err? then Refused(objection.error) else
        var distinct := |Approvers(c, e.approvals)|;
        var required := p.Required(r.scope, recent, now);
        if distinct < required then Refused(ShortOfQuorum(required, distinct, p.Escalated(recent, now)))
        else Execute(required, distinct)
  }

  /** `decide`. */
  method Decide(c: S.Crypto, r: Request, e: Execution, recent: seq<u64>, p: Policy,
                authority: Authority, now: u64) returns (d: Decision)
    ensures d == DecideSpec(c, r, e, recent, p, authority.ids, now)
  {
    hide VerifyRequest, RequestHash, VerifyApproval, VerifyExecutionSpec;
    var rv := VerifyRequest(c, r);
    if rv.Err? { return Refused(BadRequest(rv.error)); }
    var ev := VerifyExecution(c, e);
    if ev.Err? { return Refused(BadExecution(Invalid(ev.error))); }
    if e.requestHash != RequestHash(c.hash, r) { return Refused(BadExecution(NamesAnotherRequest)); }
    if authority.ids == {} { return Refused(NoAuthority); }
    var requester := c.KeyId(r.requestedBy);
    var ids: set<Digest> := {};
    for i := 0 to |e.approvals|
      invariant ids == Approvers(c, e.approvals[..i])
      invariant Objection(c, e.approvals, requester, authority.ids)
             == Objection(c, e.approvals[i..], requester, authority.ids)
    {
      var a := e.approvals[i];
      assert e.approvals[i..][0] == a && e.approvals[i..][1..] == e.approvals[i + 1..];
      assert e.approvals[..i + 1] == e.approvals[..i] + [a];
      var av := VerifyApproval(c, a);
      if av.Err? { return Refused(BadApproval(av.error)); }
      var id := c.KeyId(a.approverPk);
      if id == requester { return Refused(SelfApproved); }
      if !authority.Contains(id) { return Refused(NotAnApprover(id)); }
      ids := ids + {id};
    }
    assert e.approvals[..|e.approvals|] == e.approvals;
    var inWindow := 0;
    for i := 0 to |recent|
      invariant inWindow == InWindow(recent[..i], now, p.rolling.window)
    {
      assert recent[..i + 1][..i] == recent[..i];
      if SatSince(now, recent[i]) < p.rolling.window {
        inWindow := inWindow + 1;
      }
    }
    assert recent[..|recent|] == recent;
    var escalated := inWindow >= p.rolling.objects;
    var base := p.Base(r.scope);
    var required := if escalated && p.rolling.escalateTo > base then p.rolling.escalateTo else base;
    if |ids| < required { return Refused(ShortOfQuorum(required, |ids|, escalated)); }
    return Execute(required, |ids|);
  }

  /** An approval this verifier may count for request `r`. */
  predicate Counts(c: S.Crypto, a: Approval, r: Request, authority: set<Digest>) {
    && Binds(c, a, RequestHash(c.hash, r))
    && c.KeyId(a.approverPk) in authority
    && c.KeyId(a.approverPk) != c.KeyId(r.requestedBy)
  }

  lemma {:induction false} ObjectionMeaning(c: S.Crypto, approvals: seq<Approval>, requester: Digest,
                                            authority: set<Digest>)
    ensures Objection(c, approvals, requester, authority).Ok? <==>
            forall a | a in approvals :: VerifyApproval(c, a).Ok? && c.KeyId(a.approverPk) in authority
                                         && c.KeyId(a.approverPk) != requester
    ensures var o := Objection(c, approvals, requester, authority);
            o.Err? ==> !o.error.ShortOfQuorum?
                       && (o.error.BadApproval? ==> exists a :: a in approvals && VerifyApproval(c, a).Err?)
  {
    if approvals != [] {
      ObjectionMeaning(c, approvals[1..], requester, authority);
      assert forall a :: a in approvals <==> a == approvals[0] || a in approvals[1..];
      assert Objection(c, approvals, requester, authority).Ok? <==>
             && VerifyApproval(c, approvals[0]).Ok? && c.KeyId(approvals[0].approverPk) in authority
             && c.KeyId(approvals[0].approverPk) != requester
             && Objection(c, approvals[1..], requester, authority).Ok?;
    }
  }

  /** Everything but the count is in order. */
  predicate Admissible(c: S.Crypto, r: Request, e: Execution, authority: set<Digest>) {
    && VerifyRequest(c, r).Ok?
    && c.Verify(e.executedBy, S.DeleteExecution, e.requestHash, e.sig).Verified?
    && e.requestHash == RequestHash(c.hash, r)
    && authority != {}
    && forall a | a in e.approvals :: Counts(c, a, r, authority)
  }

  /**
   * What an `Execute` verdict means: every record checks, every approval presented is
   * by an authority member other than the requester over this very request hash, and
   * the distinct holders behind them meet what is owed. Order and repetition of the
   * approvals do not matter.
   */
  lemma DecideMeaning(c: S.Crypto, r: Request, e: Execution, recent: seq<u64>, p: Policy,
                      authority: set<Digest>, now: u64, required: nat, distinct: nat)
    ensures DecideSpec(c, r, e, recent, p, authority, now) == Execute(required, distinct) <==>
            && Admissible(c, r, e, authority)
            && distinct == |Approvers(c, e.approvals)|
            && required == p.Required(r.scope, recent, now)
            && distinct >= required
  {
    hide Policy.Required, Policy.Escalated, VerifyRequest, RequestHash, Objection, CheckApprovals;
    ObjectionMeaning(c, e.approvals, c.KeyId(r.requestedBy), authority);
    CheckApprovalsMeaning(c, e.approvals, e.requestHash);
  }

  /** Falling short is reported exactly when the count alone is wanting, with the true reason. */
  lemma ShortMeaning(c: S.Crypto, r: Request, e: Execution, recent: seq<u64>, p: Policy,
                     authority: set<Digest>, now: u64, required: nat, distinct: nat, escalated: bool)
    ensures DecideSpec(c, r, e, recent, p, authority, now) == Refused(ShortOfQuorum(required, distinct, escalated)) <==>
            && Admissible(c, r, e, authority)
            && distinct == |Approvers(c, e.approvals)|
            && required == p.Required(r.scope, recent, now)
            && escalated == p.Escalated(recent, now)
            && distinct < required
  {
    hide Policy.Required, Policy.Escalated, VerifyRequest, RequestHash, Objection, CheckApprovals;
    ObjectionMeaning(c, e.approvals, c.KeyId(r.requestedBy), authority);
    CheckApprovalsMeaning(c, e.approvals, e.requestHash);
  }

  /** The counting loop's own signature check never fires: `verify` has refused first. */
  lemma BadApprovalIsUnreachable(c: S.Crypto, r: Request, e: Execution, recent: seq<u64>, p: Policy,
                                 authority: set<Digest>, now: u64)
    ensures var d := DecideSpec(c, r, e, recent, p, authority, now);
            d.Refused? ==> !d.why.BadApproval?
  {
    ObjectionMeaning(c, e.approvals, c.KeyId(r.requestedBy), authority);
    CheckApprovalsMeaning(c, e.approvals, e.requestHash);
  }

  // ---- What is owed, in the policy's own fields

  /** The executions less than `window` seconds old at `now`, those from the future included. */
  function Crowd(recent: seq<u64>, now: u64, window: u64): set<nat> {
    set i: nat | i < |recent| && window > 0 && now < recent[i] + window
  }

  lemma {:induction false} InWindowIsTheCrowd(recent: seq<u64>, now: u64, window: u64)
    ensures InWindow(recent, now, window) == |Crowd(recent, now, window)|
  {
    if recent == [] {
      assert Crowd(recent, now, window) == {};
    } else {
      var n := |recent| - 1;
      InWindowIsTheCrowd(recent[..n], now, window);
      var before := Crowd(recent[..n], now, window);
      assert n !in before;
      if window > 0 && now < recent[n] + window {
        assert Crowd(recent, now, window) == before + {n};
      } else {
        assert Crowd(recent, now, window) == before;
      }
    }
  }

  /** `n` approvers meet what the policy says of this kind of scope. */
  predicate MeetsScope(p: Policy, scope: Scope, n: nat) {
    && (scope.Object? ==> n >= p.perObject)
    && (scope.Prefix? ==> n >= p.perPrefix)
    && (scope.Namespace? ==> n >= p.perNamespace)
  }

  /** `n` approvers meet the escalation, if as many executions as the policy tolerates are recent. */
  predicate MeetsEscalation(p: Policy, recent: seq<u64>, now: u64, n: nat) {
    |Crowd(recent, now, p.rolling.window)| >= p.rolling.objects ==> n >= p.rolling.escalateTo
  }

  /** What is owed is the least number that meets both. */
  lemma RequiredIff(p: Policy, scope: Scope, recent: seq<u64>, now: u64, n: nat)
    ensures n >= p.Required(scope, recent, now) <==> MeetsScope(p, scope, n) && MeetsEscalation(p, recent, now, n)
  {
    InWindowIsTheCrowd(recent, now, p.rolling.window);
  }

  /** `Execute`, said in the policy's fields: by kind of scope, and by how many executions are recent. */
  lemma ExecuteIff(c: S.Crypto, r: Request, e: Execution, recent: seq<u64>, p: Policy, authority: set<Digest>, now: u64)
    ensures DecideSpec(c, r, e, recent, p, authority, now).Execute? <==>
            && Admissible(c, r, e, authority)
            && MeetsScope(p, r.scope, |Approvers(c, e.approvals)|)
            && MeetsEscalation(p, recent, now, |Approvers(c, e.approvals)|)
  {
    hide Policy.Required, Admissible, Approvers, MeetsScope, MeetsEscalation;
    var owed, n := p.Required(r.scope, recent, now), |Approvers(c, e.approvals)|;
    DecideMeaning(c, r, e, recent, p, authority, now, owed, n);
    var d := DecideSpec(c, r, e, recent, p, authority, now);
    if d.Execute? {
      DecideMeaning(c, r, e, recent, p, authority, now, d.required, d.distinct);
    }
    RequiredIff(p, r.scope, recent, now, n);
  }

  /** The `i`th approval is the first this verifier objects to. */
  predicate FirstBad(c: S.Crypto, approvals: seq<Approval>, requester: Digest, authority: set<Digest>, i: nat) {
    && i < |approvals|
    && (var id := c.KeyId(approvals[i].approverPk);
        VerifyApproval(c, approvals[i]).Err? || id == requester || id !in authority)
    && forall j | 0 <= j < i :: VerifyApproval(c, approvals[j]).Ok? && c.KeyId(approvals[j].approverPk) != requester
                                && c.KeyId(approvals[j].approverPk) in authority
  }

  /** The counting loop reports the first approval it objects to: self-approval before want of standing. */
  lemma {:induction false} ObjectionIsTheFirst(c: S.Crypto, approvals: seq<Approval>, requester: Digest, authority: set<Digest>)
    returns (i: nat)
    requires Objection(c, approvals, requester, authority).Err?
    ensures FirstBad(c, approvals, requester, authority, i)
    ensures var (why, id) := (Objection(c, approvals, requester, authority).error, c.KeyId(approvals[i].approverPk));
            && (why.BadApproval? <==> VerifyApproval(c, approvals[i]).Err?)
            && (why.SelfApproved? <==> VerifyApproval(c, approvals[i]).Ok? && id == requester)
            && (why.NotAnApprover? <==> VerifyApproval(c, approvals[i]).Ok? && id != requester)
            && (why.NotAnApprover? ==> why.id == id)
  {
    hide VerifyApproval;
    var a := approvals[0];
    i := 0;
    if VerifyApproval(c, a).Ok? && c.KeyId(a.approverPk) != requester && c.KeyId(a.approverPk) in authority {
      var k := ObjectionIsTheFirst(c, approvals[1..], requester, authority);
      i := k + 1;
      forall j | 0 <= j < i
        ensures VerifyApproval(c, approvals[j]).Ok? && c.KeyId(approvals[j].approverPk) != requester
                && c.KeyId(approvals[j].approverPk) in authority
      {
        if j > 0 { assert approvals[1..][j - 1] == approvals[j]; }
      }
    }
  }

  /**
   * Every refusal has its reason, in this order: the request, the execution's own records,
   * the request it names, an empty authority, the first bad approval, the count.
   */
  lemma RefusalMeaning(c: S.Crypto, r: Request, e: Execution, recent: seq<u64>, p: Policy, authority: set<Digest>, now: u64)
    requires DecideSpec(c, r, e, recent, p, authority, now).Refused?
    ensures var why := DecideSpec(c, r, e, recent, p, authority, now).why;
            var (request, records, named) := (VerifyRequest(c, r), VerifyExecutionSpec(c, e), e.requestHash == RequestHash(c.hash, r));
            && (why.BadRequest? <==> request.Err?)
            && (why.BadExecution? <==> request.Ok? && (records.Err? || !named))
            && (why.BadExecution? ==> (why.fault.Invalid? <==> records.Err?))
            && (why.NoAuthority? <==> request.Ok? && records.Ok? && named && authority == {})
            && (why.SelfApproved? || why.NotAnApprover? <==>
                && request.Ok? && records.Ok? && named && authority != {}
                && exists a :: a in e.approvals
                     && (c.KeyId(a.approverPk) == c.KeyId(r.requestedBy) || c.KeyId(a.approverPk) !in authority))
  {
    hide VerifyRequest, VerifyApproval, RequestHash, Policy.Required, Policy.Escalated, Objection, CheckApprovals;
    var requester := c.KeyId(r.requestedBy);
    ObjectionMeaning(c, e.approvals, requester, authority);
    CheckApprovalsMeaning(c, e.approvals, e.requestHash);
    if Objection(c, e.approvals, requester, authority).Err? && VerifyExecutionSpec(c, e).Ok? {
      var i := ObjectionIsTheFirst(c, e.approvals, requester, authority);
      assert e.approvals[i] in e.approvals && Binds(c, e.approvals[i], e.requestHash);
    }
  }

  // ---- Volume over a history of executions

  /** One executed deletion: its time and the distinct approvers that carried it. */
  datatype Grant = Grant(at: u64, distinct: nat)

  function Times(history: seq<Grant>): seq<u64> {
    seq(|history|, i requires 0 <= i < |history| => history[i].at)
  }

  /** Every execution met the escalation the ones before it had caused. */
  ghost predicate Escalating(history: seq<Grant>, rolling: Rolling) {
    forall i | 0 <= i < |history| ::
      InWindow(Times(history[..i]), history[i].at, rolling.window) >= rolling.objects ==>
        history[i].distinct >= rolling.escalateTo
  }

  /** Executions stamped in [from, from + span) with fewer than `k` distinct approvers. */
  ghost function Small(history: seq<Grant>, from: nat, span: nat, k: nat): nat {
    if history == [] then 0 else
      var n := |history| - 1;
      Small(history[..n], from, span, k)
      + if from <= history[n].at < from + span && history[n].distinct < k then 1 else 0
  }

  lemma {:induction false} SmallInWindow(history: seq<Grant>, from: nat, window: u64, k: nat, now: u64)
    requires from <= now < from + window
    ensures Small(history, from, window, k) <= InWindow(Times(history), now, window)
  {
    if history != [] {
      var n := |history| - 1;
      SmallInWindow(history[..n], from, window, k, now);
      assert Times(history)[..n] == Times(history[..n]);
    }
  }

  /**
   * The volume bound. Clock readings are arbitrary, and may run backwards: the count
   * is over stamps, and a stamp from the future still counts toward the window.
   */
  lemma {:induction false} VolumeBound(history: seq<Grant>, rolling: Rolling, from: nat)
    requires Escalating(history, rolling)
    ensures Small(history, from, rolling.window, rolling.escalateTo) <= rolling.objects
  {
    if history != [] {
      var n := |history| - 1;
      var prefix, last := history[..n], history[n];
      assert Escalating(prefix, rolling) by {
        assert forall i | 0 <= i < n :: prefix[..i] == history[..i] && prefix[i] == history[i];
      }
      VolumeBound(prefix, rolling, from);
      if from <= last.at < from + rolling.window && last.distinct < rolling.escalateTo {
        SmallInWindow(prefix, from, rolling.window, rolling.escalateTo, last.at);
        assert history[..n] == prefix;
      }
    }
  }

  lemma {:induction false} InWindowConstant(n: nat, at: u64, now: u64, window: u64)
    ensures InWindow(seq(n, _ => at), now, window) == if SatSince(now, at) < window then n else 0
  {
    if n > 0 {
      InWindowConstant(n - 1, at, now, window);
      assert seq(n, _ => at)[..n - 1] == seq(n - 1, _ => at);
    }
  }

  lemma {:induction false} SmallConstant(n: nat, g: Grant, from: nat, span: nat, k: nat)
    requires from <= g.at < from + span && g.distinct < k
    ensures Small(seq(n, _ => g), from, span, k) == n
  {
    if n > 0 {
      SmallConstant(n - 1, g, from, span, k);
      assert seq(n, _ => g)[..n - 1] == seq(n - 1, _ => g);
    }
  }

  // ---- Exactly how far the bound reaches

  /** Every execution met all that its scope owed when it was recorded. */
  ghost predicate Owing(p: Policy, scopes: seq<Scope>, history: seq<Grant>) {
    && |scopes| == |history|
    && forall i | 0 <= i < |history| ::
         history[i].distinct >= p.Required(scopes[i], Times(history[..i]), history[i].at)
  }

  /** A history that the policy admits holds more than `objects` small executions in one interval. */
  ghost predicate Exceeds(p: Policy, scopes: seq<Scope>, history: seq<Grant>, from: nat, span: nat) {
    Owing(p, scopes, history) && Small(history, from, span, p.rolling.escalateTo) > p.rolling.objects
  }

  lemma OwingEscalates(p: Policy, scopes: seq<Scope>, history: seq<Grant>)
    requires Owing(p, scopes, history)
    ensures Escalating(history, p.rolling)
  {
    forall i | 0 <= i < |history| && p.Escalated(Times(history[..i]), history[i].at)
      ensures history[i].distinct >= p.rolling.escalateTo
    {
      assert history[i].distinct >= p.Required(scopes[i], Times(history[..i]), history[i].at);
    }
  }

  lemma {:induction false} SmallWidens(history: seq<Grant>, from: nat, span: nat, wider: nat, k: nat)
    requires span <= wider
    ensures Small(history, from, span, k) <= Small(history, from, wider, k)
  {
    if history != [] {
      SmallWidens(history[..|history| - 1], from, span, wider, k);
    }
  }

  lemma {:induction false} NoneSmall(history: seq<Grant>, from: nat, span: nat, k: nat)
    requires forall i | 0 <= i < |history| :: history[i].distinct >= k
    ensures Small(history, from, span, k) == 0
  {
    if history != [] {
      NoneSmall(history[..|history| - 1], from, span, k);
    }
  }

  /** `objects` executions at once and one more a whole window later, each with what its scope owes. */
  lemma LongerIntervalExceeds(p: Policy, scope: Scope, from: u64) returns (history: seq<Grant>)
    requires 0 < p.rolling.objects && p.Base(scope) < p.rolling.escalateTo
    requires from + p.rolling.window <= U64_MAX
    ensures Owing(p, seq(p.rolling.objects + 1, _ => scope), history)
    ensures Small(history, from, p.rolling.window + 1, p.rolling.escalateTo) == p.rolling.objects + 1
  {
    var n, g := p.rolling.objects, Grant(from, p.Base(scope));
    var burst := seq(n, _ => g);
    history := burst + [Grant(from + p.rolling.window, p.Base(scope))];
    forall i | 0 <= i < |history|
      ensures !p.Escalated(Times(history[..i]), history[i].at)
    {
      assert Times(history[..i]) == seq(i, _ => from);
      InWindowConstant(i, from, history[i].at, p.rolling.window);
    }
    assert history[..n] == burst;
    SmallConstant(n, g, from, p.rolling.window + 1, p.rolling.escalateTo);
  }

  /**
   * How far the bound reaches. An interval of `span` seconds can hold more than `objects`
   * small executions exactly when it is longer than the window, the policy lets some
   * execution through before escalating, and some scope owes less than the escalation.
   */
  lemma ExceedsIff(p: Policy, span: nat)
    ensures (exists scopes, history, from :: Exceeds(p, scopes, history, from, span)) <==>
            && span > p.rolling.window && p.rolling.objects > 0
            && (exists scope :: p.Base(scope) < p.rolling.escalateTo)
  {
    var k := p.rolling.escalateTo;
    if span > p.rolling.window && p.rolling.objects > 0 && exists scope :: p.Base(scope) < k {
      var scope :| p.Base(scope) < k;
      var history := LongerIntervalExceeds(p, scope, 0);
      SmallWidens(history, 0, p.rolling.window + 1, span, k);
      assert Exceeds(p, seq(p.rolling.objects + 1, _ => scope), history, 0, span);
    }
    if scopes: seq<Scope>, history: seq<Grant>, from: nat :| Exceeds(p, scopes, history, from, span) {
      OwingEscalates(p, scopes, history);
      if span <= p.rolling.window {
        VolumeBound(history, p.rolling, from);
        SmallWidens(history, from, span, p.rolling.window, k);
      } else if p.rolling.objects == 0 || forall scope :: p.Base(scope) >= k {
        forall i | 0 <= i < |history| ensures history[i].distinct >= k {
          assert p.Required(scopes[i], Times(history[..i]), history[i].at) >= k;
        }
        NoneSmall(history, from, span, k);
      }
    }
  }
}
