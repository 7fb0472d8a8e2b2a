/** The three signed records of the deletion loop (crates/nas-delete/src/record.rs). */
module DeleteRecord {
  import opened Wrappers
  import opened Bytes
  import opened Encoding
  import Utf8
  import S = Signing

  const MAX_APPROVALS: nat := 64

  datatype DeleteError =
    | TooManyApprovals(got: nat)
    | DecodeFailed(e: DecodeError)
    | BadWidth(field: string, want: nat, got: nat)
    | FieldCount(want: nat, got: nat)
    | BadSignature
    | BadScope(tag: byte)
    | BadScopePath
    | WrongRequest(expected: Digest, named: Digest)

  type Outcome<T> = Result<T, DeleteError>

  /** What a request covers. Text is held as its octets. */
  datatype Scope = Object(path: Bytes) | Prefix(path: Bytes) | Namespace {
    function Tag(): byte {
      match this case Object(_) => 0 case Prefix(_) => 1 case Namespace => 2
    }

    function Path(): Bytes {
      match this case Object(p) => p case Prefix(p) => p case Namespace => []
    }

    function Check(): Outcome<()> {
      if !Namespace? && path == [] then Err(BadScopePath) else Ok(())
    }
  }

  function DecodeScope(tag: byte, path: Bytes): Outcome<Scope> {
    if !Utf8.Valid(path) then Err(BadScopePath)
    else if tag > 2 then Err(BadScope(tag))
    else if tag == 2 then if path != [] then Err(BadScopePath) else Ok(Namespace)
    else
      var s := if tag == 0 then Object(path) else Prefix(path);
      var _ :- s.Check();
      Ok(s)
  }

  /** A request whose text a u32 prefix can express; encoding a larger one aborts. */
  type Request = r: RequestRecord | Fits(r.scope.Path()) && Fits(r.reason)
    witness RequestRecord(Namespace, [], [], ZeroDigest(), [])

  datatype RequestRecord = RequestRecord(
    scope: Scope, reason: Bytes, requestedBy: Bytes, nonce: Digest, sig: Bytes)

  datatype Approval = Approval(requestHash: Digest, approverPk: Bytes, sig: Bytes)

  datatype Execution = Execution(
    requestHash: Digest, approvals: seq<Approval>, executedBy: Bytes, sig: Bytes)

  // ---- Requests

  function BodyFields(r: Request): (f: seq<Bytes>)
    ensures AllFit(f) && |f| == 4
  {
    [[r.scope.Tag()], r.scope.Path(), r.reason, r.nonce]
  }

  /** `request_body`: the octets a requester signs. */
  function RequestBody(r: Request): Bytes {
    Wire(BodyFields(r))
  }

  /** What `request_hash` hashes: the body, then the key, then the signature, unframed. */
  function RequestPreimage(r: Request): Bytes {
    RequestBody(r) + r.requestedBy + r.sig
  }

  function RequestHash(hash: HashFn, r: Request): Digest {
    hash(RequestPreimage(r))
  }

  function Verdict(v: S.Verdict): Outcome<()> {
    if v.Verified? then Ok(()) else Err(BadSignature)
  }

  function VerifyRequest(c: S.Crypto, r: Request): Outcome<()> {
    var _ :- r.scope.Check();
    Verdict(c.Verify(r.requestedBy, S.DeleteRequest, RequestBody(r), r.sig))
  }

  function RequestFields(r: Request): seq<Bytes> {
    [[r.scope.Tag()], r.scope.Path(), r.reason, r.requestedBy, r.nonce, r.sig]
  }

  function Lift<T>(r: Result<T, DecodeError>): Outcome<T> {
    match r case Ok(v) => Ok(v) case Err(e) => Err(DecodeFailed(e))
  }

  function EncodeRequest(r: Request): Outcome<Bytes> {
    Lift(Encode(RequestFields(r)))
  }

  function Width(field: string, b: Bytes, want: nat): (r: Outcome<()>)
    ensures r.Ok? <==> |b| == want
  {
    if |b| != want then Err(BadWidth(field, want, |b|)) else Ok(())
  }

  function Text(b: Bytes): (r: Outcome<Bytes>)
    ensures r.Ok? ==> r.value == b
  {
    if Utf8.Valid(b) then Ok(b) else Err(BadScopePath)
  }

  function DecodeRequest(bytes: Bytes): Outcome<Request> {
    var f :- Lift(Decode(bytes));
    if |f| != 6 then Err(FieldCount(6, |f|)) else
      var _ :- Width("scope_tag", f[0], 1);
      var _ :- Width("requested_by", f[3], S.VK_LEN);
      var _ :- Width("sig", f[5], S.SIG_LEN);
      var scope :- DecodeScope(f[0][0], f[1]);
      var reason :- Text(f[2]);
      var _ :- Width("nonce", f[4], 32);
      Ok(RequestRecord(scope, reason, f[3], f[4], f[5]))
  }

  /** What every decoded request satisfies: legal scope, valid text, full-width key and signature. */
  predicate WireRequest(r: Request) {
    && r.scope.Check().Ok?
    && Utf8.Valid(r.scope.Path()) && Utf8.Valid(r.reason)
    && |r.requestedBy| == S.VK_LEN && |r.sig| == S.SIG_LEN
  }

  /** The text of a request is text: a `String` holds nothing else. */
  predicate Textual(r: Request) {
    Utf8.Valid(r.scope.Path()) && Utf8.Valid(r.reason)
  }

  lemma ScopeCanonical(tag: byte, path: Bytes, s: Scope)
    ensures DecodeScope(tag, path) == Ok(s) <==>
            s.Check().Ok? && Utf8.Valid(s.Path()) && s.Tag() == tag && s.Path() == path
  {
  }

  /** The request codec is canonical in both directions. */
  lemma RequestCanonical(bytes: Bytes, r: Request)
    ensures DecodeRequest(bytes) == Ok(r) <==> WireRequest(r) && EncodeRequest(r) == Ok(bytes)
  {
    hide Decode, Encode, Utf8.Valid;
    var fields := RequestFields(r);
    FieldsCanonical(bytes, fields);
    ScopeCanonical(r.scope.Tag(), r.scope.Path(), r.scope);
    if DecodeRequest(bytes) == Ok(r) {
      var f := Decode(bytes).value;
      ScopeCanonical(f[0][0], f[1], r.scope);
      assert f[0] == [f[0][0]];
      assert f == fields;
    }
  }

  lemma RequestEncodes(r: Request)
    requires WireRequest(r)
    ensures EncodeRequest(r).Ok?
  {
    hide Utf8.Valid, Wire;
  }

  /**
   * The preimage has no separators after the body, and needs none: for requests as
   * they come off the wire it determines every field.
   */
  lemma PreimageInjective(r: Request, q: Request)
    requires |r.requestedBy| == |q.requestedBy|
    requires RequestPreimage(r) == RequestPreimage(q)
    ensures r == q
  {
    hide BodyFields, Wire;
    var x, y := r.requestedBy + r.sig, q.requestedBy + q.sig;
    assert RequestPreimage(r) == Wire(BodyFields(r)) + x && RequestPreimage(q) == Wire(BodyFields(q)) + y;
    WirePrefixUnique(BodyFields(r), x, BodyFields(q), y);
    BodyInjective(r, q);
    var k := |r.requestedBy|;
    assert x[..k] == r.requestedBy && y[..k] == q.requestedBy && x[k..] == r.sig && y[k..] == q.sig;
  }

  /** The signed fields of a request are recovered from its body. */
  lemma BodyInjective(r: Request, q: Request)
    requires BodyFields(r) == BodyFields(q)
    ensures r.scope == q.scope && r.reason == q.reason && r.nonce == q.nonce
  {
    var f, g := BodyFields(r), BodyFields(q);
    assert f[0][0] == g[0][0] && f[1] == g[1] && f[2] == g[2] && f[3] == g[3];
  }

  // ---- Approvals

  function VerifyApproval(c: S.Crypto, a: Approval): Outcome<()> {
    Verdict(c.Verify(a.approverPk, S.DeleteApproval, a.requestHash, a.sig))
  }

  function ApprovalFields(a: Approval): seq<Bytes> {
    [a.requestHash, a.approverPk, a.sig]
  }

  function EncodeApproval(a: Approval): Outcome<Bytes> {
    Lift(Encode(ApprovalFields(a)))
  }

  function DecodeApproval(bytes: Bytes): Outcome<Approval> {
    var f :- Lift(Decode(bytes));
    if |f| != 3 then Err(FieldCount(3, |f|)) else
      var _ :- Width("approver_pk", f[1], S.VK_LEN);
      var _ :- Width("sig", f[2], S.SIG_LEN);
      var _ :- Width("request_hash", f[0], 32);
      Ok(Approval(f[0], f[1], f[2]))
  }

  predicate WireApproval(a: Approval) {
    |a.approverPk| == S.VK_LEN && |a.sig| == S.SIG_LEN
  }

  lemma ApprovalCanonical(bytes: Bytes, a: Approval)
    ensures DecodeApproval(bytes) == Ok(a) <==> WireApproval(a) && EncodeApproval(a) == Ok(bytes)
  {
    hide Decode, Encode;
    FieldsCanonical(bytes, ApprovalFields(a));
    if DecodeApproval(bytes) == Ok(a) {
      assert Decode(bytes).value == ApprovalFields(a);
    }
  }

  // ---- Executions

  function EncodeApprovals(approvals: seq<Approval>): (r: Outcome<seq<Bytes>>)
    ensures r.Ok? ==> |r.value| == |approvals|
  {
    if approvals == [] then Ok([]) else
      var b :- EncodeApproval(approvals[0]);
      var rest :- EncodeApprovals(approvals[1..]);
      Ok([b] + rest)
  }

  function DecodeApprovals(fields: seq<Bytes>): (r: Outcome<seq<Approval>>)
    ensures r.Ok? ==> |r.value| == |fields|
  {
    if fields == [] then Ok([]) else
      var a :- DecodeApproval(fields[0]);
      var rest :- DecodeApprovals(fields[1..]);
      Ok([a] + rest)
  }

  predicate WireApprovals(approvals: seq<Approval>) {
    forall i | 0 <= i < |approvals| :: WireApproval(approvals[i])
  }

  lemma {:induction false} ApprovalsCanonical(fields: seq<Bytes>, approvals: seq<Approval>)
    ensures DecodeApprovals(fields) == Ok(approvals) <==>
            WireApprovals(approvals) && EncodeApprovals(approvals) == Ok(fields)
  {
    hide DecodeApproval, EncodeApproval;
    if |fields| == |approvals| && fields != [] {
      ApprovalCanonical(fields[0], approvals[0]);
      ApprovalsCanonical(fields[1..], approvals[1..]);
      assert fields == [fields[0]] + fields[1..] && approvals == [approvals[0]] + approvals[1..];
      if DecodeApprovals(fields) == Ok(approvals) {
        assert DecodeApprovals(fields[1..]) == Ok(approvals[1..]);
      }
      if WireApprovals(approvals) && EncodeApprovals(approvals) == Ok(fields) {
        assert WireApproval(approvals[0]);
        assert EncodeApprovals(approvals[1..]) == Ok(fields[1..]);
      }
    }
  }

  function EncodeExecution(e: Execution): Outcome<Bytes> {
    if |e.approvals| > MAX_APPROVALS then Err(TooManyApprovals(|e.approvals|)) else
      var approvals :- EncodeApprovals(e.approvals);
      Lift(Encode([e.requestHash, e.executedBy, e.sig] + approvals))
  }

  function DecodeExecution(bytes: Bytes): Outcome<Execution> {
    var f :- Lift(Decode(bytes));
    if |f| < 3 then Err(FieldCount(3, |f|))
    else if |f| - 3 > MAX_APPROVALS then Err(TooManyApprovals(|f| - 3))
    else
      var _ :- Width("executed_by", f[1], S.VK_LEN);
      var _ :- Width("sig", f[2], S.SIG_LEN);
      var _ :- Width("request_hash", f[0], 32);
      var approvals :- DecodeApprovals(f[3..]);
      Ok(Execution(f[0], approvals, f[1], f[2]))
  }

  predicate WireExecution(e: Execution) {
    && |e.approvals| <= MAX_APPROVALS && WireApprovals(e.approvals)
    && |e.executedBy| == S.VK_LEN && |e.sig| == S.SIG_LEN
  }

  /** An execution round-trips whole, nested approvals included, and has one spelling. */
  lemma ExecutionCanonical(bytes: Bytes, e: Execution)
    ensures DecodeExecution(bytes) == Ok(e) <==> WireExecution(e) && EncodeExecution(e) == Ok(bytes)
  {
    hide Decode, Encode;
    if DecodeExecution(bytes) == Ok(e) {
      var f := Decode(bytes).value;
      ApprovalsCanonical(f[3..], e.approvals);
      assert f == [e.requestHash, e.executedBy, e.sig] + f[3..];
      FieldsCanonical(bytes, f);
    }
    if WireExecution(e) && EncodeExecution(e) == Ok(bytes) {
      var a := EncodeApprovals(e.approvals).value;
      var f := [e.requestHash, e.executedBy, e.sig] + a;
      ApprovalsCanonical(a, e.approvals);
      FieldsCanonical(bytes, f);
      assert f[3..] == a;
    }
  }

  lemma ApprovalSize(a: Approval)
    requires WireApproval(a)
    ensures |Wire(ApprovalFields(a))| == 3 * LEN_PREFIX + 32 + S.VK_LEN + S.SIG_LEN
  {
    hide LE;
    var f: seq<Bytes>, two: seq<Bytes>, one: seq<Bytes> := ApprovalFields(a), [a.approverPk, a.sig], [a.sig];
    assert f[1..] == two && two[1..] == one && one[1..] == [];
    assert |Wire(one)| == |Field(a.sig)| && |Wire(two)| == |Field(a.approverPk)| + |Wire(one)|;
  }

  lemma {:induction false} ApprovalsEncode(approvals: seq<Approval>)
    requires WireApprovals(approvals)
    ensures EncodeApprovals(approvals).Ok? && AllFit(EncodeApprovals(approvals).value)
  {
    hide Wire;
    if approvals != [] {
      assert WireApproval(approvals[0]);
      ApprovalSize(approvals[0]);
      ApprovalsEncode(approvals[1..]);
    }
  }

  /** Encoding refuses a full-width execution exactly when it carries more approvals than the cap. */
  lemma ExecutionEncodesIff(e: Execution)
    requires WireApprovals(e.approvals) && |e.executedBy| == S.VK_LEN && |e.sig| == S.SIG_LEN
    ensures EncodeExecution(e).Ok? <==> |e.approvals| <= MAX_APPROVALS
  {
    hide Wire, WireApprovals, EncodeApprovals;
    ApprovalsEncode(e.approvals);
  }

  /** First complaint `DeleteExecution::verify` has about an approval, if any. */
  function CheckApprovals(c: S.Crypto, approvals: seq<Approval>, h: Digest): Outcome<()> {
    if approvals == [] then Ok(()) else
      var _ :- VerifyApproval(c, approvals[0]);
      if approvals[0].requestHash != h then Err(WrongRequest(h, approvals[0].requestHash))
      else CheckApprovals(c, approvals[1..], h)
  }

  function VerifyExecutionSpec(c: S.Crypto, e: Execution): Outcome<()> {
    var _ :- CheckApprovals(c, e.approvals, e.requestHash);
    Verdict(c.Verify(e.executedBy, S.DeleteExecution, e.requestHash, e.sig))
  }

  /** `DeleteExecution::verify`. */
  method VerifyExecution(c: S.Crypto, e: Execution) returns (r: Outcome<()>)
    ensures r == VerifyExecutionSpec(c, e)
  {
    for i := 0 to |e.approvals|
      invariant CheckApprovals(c, e.approvals, e.requestHash) == CheckApprovals(c, e.approvals[i..], e.requestHash)
    {
      var a := e.approvals[i];
      assert e.approvals[i..][0] == a && e.approvals[i..][1..] == e.approvals[i + 1..];
      var v := VerifyApproval(c, a);
      if v.Err? { return v; }
      if a.requestHash != e.requestHash {
        return Err(WrongRequest(e.requestHash, a.requestHash));
      }
    }
    return Verdict(c.Verify(e.executedBy, S.DeleteExecution, e.requestHash, e.sig));
  }

  /** An approval counts toward request hash `h`: it verifies and names `h`. */
  predicate Binds(c: S.Crypto, a: Approval, h: Digest) {
    VerifyApproval(c, a).Ok? && a.requestHash == h
  }

  lemma {:induction false} CheckApprovalsMeaning(c: S.Crypto, approvals: seq<Approval>, h: Digest)
    ensures CheckApprovals(c, approvals, h).Ok? <==> forall a | a in approvals :: Binds(c, a, h)
  {
    if approvals != [] {
      CheckApprovalsMeaning(c, approvals[1..], h);
      assert CheckApprovals(c, approvals, h).Ok? <==>
             Binds(c, approvals[0], h) && CheckApprovals(c, approvals[1..], h).Ok?;
      assert forall a :: a in approvals <==> a == approvals[0] || a in approvals[1..];
    }
  }

  // ---- The approver device

  /** `Approver::may_sign`, against the device's own stamp and clock. */
  predicate MaySign(coolingOff: u64, firstSeen: u64, now: u64) {
    SatSince(now, firstSeen) >= coolingOff
  }
}
