/** One signed octet string has one meaning, across every record of both loops. */
module SignedMeaning {
  import opened Wrappers
  import opened Bytes
  import opened Encoding
  import S = Signing
  import R = DeleteRecord
  import L = LeaseRecord

  /** A signed record, of whatever kind. */
  datatype Statement =
    | Delta(delta: L.Delta)
    | Checkpoint(checkpoint: L.Checkpoint)
    | Request(request: R.Request)
    | Approval(approval: R.Approval)
    | Execution(execution: R.Execution)

  function Context(s: Statement): S.SigContext {
    match s
    case Delta(_) => S.Lease
    case Checkpoint(_) => S.LeaseCheckpoint
    case Request(_) => S.DeleteRequest
    case Approval(_) => S.DeleteApproval
    case Execution(_) => S.DeleteExecution
  }

  function Message(s: Statement): Bytes {
    match s
    case Delta(d) => L.DeltaBody(d)
    case Checkpoint(k) => L.CheckpointBody(k)
    case Request(r) => R.RequestBody(r)
    case Approval(a) => a.requestHash
    case Execution(e) => e.requestHash
  }

  /** The octets handed to the signature scheme. */
  function SignedBytes(s: Statement): Bytes {
    S.Framed(Context(s), Message(s))
  }

  /** The fields a signature covers: the record without its key, its signature and, for an
      execution, the approvals it carries. */
  function Meaning(s: Statement): Statement {
    match s
    case Delta(d) => Delta(d.(holderPk := [], sig := []))
    case Checkpoint(k) => Checkpoint(k.(holderPk := [], sig := []))
    case Request(r) => Request(r.(requestedBy := [], sig := []))
    case Approval(a) => Approval(a.(approverPk := [], sig := []))
    case Execution(e) => Execution(e.(approvals := [], executedBy := [], sig := []))
  }

  /** Equal signed octets are the same kind of record saying the same thing, and conversely. */
  lemma OneMeaning(s: Statement, t: Statement)
    ensures SignedBytes(s) == SignedBytes(t) <==> Meaning(s) == Meaning(t)
  {
    hide S.Framed;
    if SignedBytes(s) == SignedBytes(t) {
      S.FramedInjective(Context(s), Message(s), Context(t), Message(t));
      match s
      case Delta(d) =>
        WirePrefixUnique(L.DeltaBodyFields(d), [], L.DeltaBodyFields(t.delta), []);
        L.DeltaBodyInjective(d, t.delta);
      case Checkpoint(k) =>
        WirePrefixUnique(L.CheckpointBodyFields(k), [], L.CheckpointBodyFields(t.checkpoint), []);
        L.CheckpointBodyInjective(k, t.checkpoint);
      case Request(r) =>
        WirePrefixUnique(R.BodyFields(r), [], R.BodyFields(t.request), []);
        R.BodyInjective(r, t.request);
      case Approval(a) =>
      case Execution(e) =>
    }
    if Meaning(s) == Meaning(t) {
      SameMeaningSameMessage(s, t);
    }
  }

  lemma SameMeaningSameMessage(s: Statement, t: Statement)
    requires Meaning(s) == Meaning(t)
    ensures Context(s) == Context(t) && Message(s) == Message(t)
  {
    hide Wire, LE, L.Packed;
    match s
    case Delta(d) =>
      assert L.DeltaBodyFields(d) == L.DeltaBodyFields(Meaning(s).delta) == L.DeltaBodyFields(t.delta);
    case Checkpoint(k) =>
      assert L.CheckpointBodyFields(k) == L.CheckpointBodyFields(Meaning(s).checkpoint)
          == L.CheckpointBodyFields(t.checkpoint);
    case Request(r) =>
      assert R.BodyFields(r) == R.BodyFields(Meaning(s).request) == R.BodyFields(t.request);
    case Approval(a) => assert a.requestHash == Meaning(s).approval.requestHash;
    case Execution(e) => assert e.requestHash == Meaning(s).execution.requestHash;
  }
}
