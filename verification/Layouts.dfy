/** The octets of every record, field by field (crates/nas-delete/src/record.rs, crates/nas-lease/src/record.rs). */
module Layouts {
  import opened Wrappers
  import opened Bytes
  import opened Encoding
  import R = DeleteRecord
  import L = LeaseRecord

  lemma OneField(a: Bytes)
    ensures Wire([a]) == Field(a)
  {
    assert [a][1..] == [];
  }

  lemma TwoFields(a: Bytes, b: Bytes)
    ensures Wire([a, b]) == Field(a) + Field(b)
  {
    hide Field;
    OneField(b);
    assert [a, b][1..] == [b];
  }

  lemma FourFields(a: Bytes, b: Bytes, c: Bytes, d: Bytes)
    ensures Wire([a, b, c, d]) == Field(a) + Field(b) + Field(c) + Field(d)
  {
    hide Field, Wire;
    TwoFields(a, b);
    TwoFields(c, d);
    WireAppend([a, b], [c, d]);
    assert [a, b] + [c, d] == [a, b, c, d];
  }

  /** The kind of scope as an octet. */
  function Kind(scope: R.Scope): byte {
    match scope case Object(_) => 0 case Prefix(_) => 1 case Namespace => 2
  }

  function ScopePath(scope: R.Scope): Bytes {
    match scope case Object(p) => p case Prefix(p) => p case Namespace => []
  }

  /** A request: what is signed, and the whole record. */
  lemma RequestLayout(r: R.Request)
    requires Fits(r.requestedBy) && Fits(r.sig)
    ensures R.RequestBody(r) == Field([Kind(r.scope)]) + Field(ScopePath(r.scope)) + Field(r.reason) + Field(r.nonce)
    ensures R.EncodeRequest(r) == Ok(Field([Kind(r.scope)]) + Field(ScopePath(r.scope)) + Field(r.reason)
                                     + Field(r.requestedBy) + Field(r.nonce) + Field(r.sig))
  {
    hide Field, Wire;
    var (tag, path) := ([Kind(r.scope)], ScopePath(r.scope));
    FourFields(tag, path, r.reason, r.nonce);
    FourFields(tag, path, r.reason, r.requestedBy);
    TwoFields(r.nonce, r.sig);
    WireAppend([tag, path, r.reason, r.requestedBy], [r.nonce, r.sig]);
    assert [tag, path, r.reason, r.requestedBy] + [r.nonce, r.sig] == R.RequestFields(r);
    assert AllFit(R.RequestFields(r));
    assert Wire(R.RequestFields(r)) == Field(tag) + Field(path) + Field(r.reason) + Field(r.requestedBy) + (Field(r.nonce) + Field(r.sig));
    assert Wire(R.RequestFields(r)) == Field(tag) + Field(path) + Field(r.reason) + Field(r.requestedBy) + Field(r.nonce) + Field(r.sig);
  }

  lemma ApprovalLayout(a: R.Approval)
    requires Fits(a.approverPk) && Fits(a.sig)
    ensures R.EncodeApproval(a) == Ok(Field(a.requestHash) + Field(a.approverPk) + Field(a.sig))
  {
    hide Field, Wire;
    OneField(a.requestHash);
    TwoFields(a.approverPk, a.sig);
    WireAppend([a.requestHash], [a.approverPk, a.sig]);
    assert [a.requestHash] + [a.approverPk, a.sig] == R.ApprovalFields(a);
    assert Wire(R.ApprovalFields(a)) == Field(a.requestHash) + (Field(a.approverPk) + Field(a.sig));
    assert Wire(R.ApprovalFields(a)) == Field(a.requestHash) + Field(a.approverPk) + Field(a.sig);
  }

  /** An execution: its own three fields, then each approval as one field. */
  lemma ExecutionLayout(e: R.Execution)
    requires R.WireExecution(e)
    ensures R.EncodeApprovals(e.approvals).Ok?
    ensures R.EncodeExecution(e)
         == Ok(Field(e.requestHash) + Field(e.executedBy) + Field(e.sig) + Wire(R.EncodeApprovals(e.approvals).value))
  {
    hide Field, Wire, R.EncodeApprovals;
    R.ApprovalsEncode(e.approvals);
    var rest := R.EncodeApprovals(e.approvals).value;
    OneField(e.requestHash);
    TwoFields(e.executedBy, e.sig);
    var own := [e.requestHash] + [e.executedBy, e.sig];
    WireAppend([e.requestHash], [e.executedBy, e.sig]);
    WireAppend(own, rest);
    assert own == [e.requestHash, e.executedBy, e.sig];
    assert Wire(own + rest) == Field(e.requestHash) + (Field(e.executedBy) + Field(e.sig)) + Wire(rest);
    assert Wire(own + rest) == Field(e.requestHash) + Field(e.executedBy) + Field(e.sig) + Wire(rest);
  }

  /** A lease delta: what is signed, and the whole record. */
  lemma DeltaLayout(d: L.Delta)
    requires Fits(d.holderPk) && Fits(d.sig)
    ensures L.DeltaBody(d) == Field(LE(d.epoch, 8)) + Field(LE(d.seqno, 8)) + Field(L.Packed(d.add)) + Field(L.Packed(d.remove))
                              + Field(d.prev)
    ensures L.EncodeDelta(d) == Ok(Field(d.holderPk) + L.DeltaBody(d) + Field(d.sig))
  {
    hide Field, Wire, LE, L.Packed;
    var (e, s, a, r) := (LE(d.epoch, 8), LE(d.seqno, 8), L.Packed(d.add), L.Packed(d.remove));
    FourFields(e, s, a, r);
    OneField(d.prev);
    OneField(d.sig);
    OneField(d.holderPk);
    WireAppend([e, s, a, r], [d.prev]);
    assert [e, s, a, r] + [d.prev] == L.DeltaBodyFields(d);
    WireAppend([d.holderPk], L.DeltaBodyFields(d));
    WireAppend([d.holderPk] + L.DeltaBodyFields(d), [d.sig]);
    assert [d.holderPk] + L.DeltaBodyFields(d) + [d.sig] == L.DeltaFields(d);
    assert AllFit(L.DeltaFields(d));
  }

  /** A lease checkpoint: what is signed, and the whole record. */
  lemma CheckpointLayout(k: L.Checkpoint)
    requires Fits(k.holderPk) && Fits(k.sig)
    ensures L.CheckpointBody(k) == Field(LE(k.epoch, 8)) + Field(LE(k.seqno, 8)) + Field(k.root) + Field(LE(k.count, 8)) + Field(k.prev)
    ensures L.EncodeCheckpoint(k) == Ok(Field(k.holderPk) + L.CheckpointBody(k) + Field(k.sig))
  {
    hide Field, Wire, LE;
    var (e, s, n) := (LE(k.epoch, 8), LE(k.seqno, 8), LE(k.count, 8));
    FourFields(e, s, k.root, n);
    OneField(k.prev);
    OneField(k.sig);
    OneField(k.holderPk);
    WireAppend([e, s, k.root, n], [k.prev]);
    assert [e, s, k.root, n] + [k.prev] == L.CheckpointBodyFields(k);
    WireAppend([k.holderPk], L.CheckpointBodyFields(k));
    WireAppend([k.holderPk] + L.CheckpointBodyFields(k), [k.sig]);
    assert [k.holderPk] + L.CheckpointBodyFields(k) + [k.sig] == L.CheckpointFields(k);
    assert AllFit(L.CheckpointFields(k));
  }

  /** Why a field cannot be read: no room for its length, or for what the length announces. */
  lemma FieldRefused(input: Bytes)
    ensures DecodeField(input) == Err(Truncated) <==> |input| < 4
    ensures forall want, have :: DecodeField(input) == Err(LengthOverrun(want, have)) <==>
              |input| >= 4 && want == FromLE(input[..4]) && have == |input| - 4 && have < want
    ensures DecodeField(input).Ok? ==> |DecodeField(input).value.0| == FromLE(input[..4])
  {
  }
}
