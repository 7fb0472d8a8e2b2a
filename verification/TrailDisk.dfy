/**
 * The deletion trail on disk, and a restart of the peer that reads it back
 * (crates/nas-peer/src/peer.rs:543-590, 745-776, 876-887).
 */
module TrailDisk {
  import opened Wrappers
  import opened Bytes
  import opened Encoding
  import opened DeleteRecord
  import opened DeletePolicy
  import opened DeletionRuns
  import opened DeletionReach
  import S = Signing
  import Utf8

  /** The files under `delete/requests` and `delete/executions`, by name. */
  datatype Disk = Disk(requests: map<Digest, Bytes>, executions: map<Digest, Bytes>)

  /** A request's file. Encoding one that is on file never fails. */
  function RequestFile(r: Request): Bytes {
    match EncodeRequest(r) case Ok(b) => b case Err(_) => []
  }

  /** An execution's file: when it was recorded, then the record. */
  function ExecutionFile(e: Execution, at: u64): Bytes {
    LE(at, 8) + match EncodeExecution(e) case Ok(b) => b case Err(_) => []
  }

  /** What handling an event leaves on disk: what is newly filed or recorded is written under its hash. */
  function Written(d: Deployment, disk: Disk, s: State, ev: Event): Disk {
    var t := Step(d, s, ev);
    if ev.Publishes? && t.requests != s.requests then
      disk.(requests := disk.requests[RequestHash(d.hash, ev.request) := RequestFile(ev.request)])
    else if ev.Executes? && t.executed != s.executed then
      disk.(executions := disk.executions[ev.execution.requestHash := ExecutionFile(ev.execution, ev.now)])
    else disk
  }

  function DiskAfter(d: Deployment, events: seq<Event>): Disk {
    if events == [] then Disk(map[], map[]) else
      var n := |events| - 1;
      Written(d, DiskAfter(d, events[..n]), Run(d, events[..n]), events[n])
  }

  // ---- Reading it back

  /** `load`, over the request files in the order the directory gives them. */
  function LoadRequests(c: S.Crypto, files: seq<Bytes>): map<Digest, Request> {
    if files == [] then map[] else
      var n := |files| - 1;
      var rest := LoadRequests(c, files[..n]);
      var r := DecodeRequest(files[n]);
      if r.Ok? && VerifyRequest(c, r.value).Ok? then rest[RequestHash(c.hash, r.value) := r.value] else rest
  }

  type Recorded = (Execution, u64)

  function LoadExecution(c: S.Crypto, file: Bytes): Option<Recorded> {
    if |file| < 8 then None else
      var e := DecodeExecution(file[8..]);
      if e.Ok? && VerifyExecutionSpec(c, e.value).Ok? then LE64(0, file[..8]); Some((e.value, FromLE(file[..8]))) else None
  }

  function LoadExecutions(c: S.Crypto, files: seq<Bytes>): map<Digest, Recorded> {
    if files == [] then map[] else
      var n := |files| - 1;
      var rest := LoadExecutions(c, files[..n]);
      var x := LoadExecution(c, files[n]);
      if x.Some? then rest[x.value.0.requestHash := x.value] else rest
  }

  /** Whatever the files hold, what is loaded was in one of them, verifies, and is held under its own hash. */
  lemma {:induction false} LoadedVerifies(c: S.Crypto, files: seq<Bytes>)
    ensures forall h | h in LoadRequests(c, files) ::
              var r := LoadRequests(c, files)[h];
              VerifyRequest(c, r).Ok? && RequestHash(c.hash, r) == h && exists i :: 0 <= i < |files| && DecodeRequest(files[i]) == Ok(r)
    ensures forall h | h in LoadExecutions(c, files) ::
              var (e, at) := LoadExecutions(c, files)[h];
              VerifyExecutionSpec(c, e).Ok? && e.requestHash == h
              && exists i :: 0 <= i < |files| && |files[i]| >= 8 && DecodeExecution(files[i][8..]) == Ok(e) && at == FromLE(files[i][..8])
  {
    hide DecodeRequest, DecodeExecution, VerifyRequest, VerifyExecutionSpec, RequestHash, FromLE;
    if files != [] {
      var n := |files| - 1;
      LoadedVerifies(c, files[..n]);
      assert forall i | 0 <= i < n :: files[..n][i] == files[i];
    }
  }

  /** `names` lists each of some names once. */
  predicate Enumerates(names: seq<Digest>, all: set<Digest>) {
    && (forall i | 0 <= i < |names| :: names[i] in all)
    && (forall k | k in all :: k in names)
    && (forall i, j | 0 <= i < j < |names| :: names[i] != names[j])
  }

  function Files(files: map<Digest, Bytes>, names: seq<Digest>): (r: seq<Bytes>)
    requires forall i | 0 <= i < |names| :: names[i] in files
    ensures |r| == |names| && forall i | 0 <= i < |names| :: r[i] == files[names[i]]
  {
    seq(|names|, i requires 0 <= i < |names| => files[names[i]])
  }

  /** The executions the peer holds in memory, by request. */
  function Executions(executed: seq<Executed>): map<Digest, Recorded> {
    if executed == [] then map[] else
      var n := |executed| - 1;
      Executions(executed[..n])[executed[n].execution.requestHash := (executed[n].execution, executed[n].at)]
  }

  /** No two executions of one request. */
  predicate Single(executed: seq<Executed>) {
    forall i, j | 0 <= i < j < |executed| :: executed[i].execution.requestHash != executed[j].execution.requestHash
  }

  lemma {:induction false} ExecutionsAt(executed: seq<Executed>)
    requires Single(executed)
    ensures Executions(executed).Keys == Done(executed)
    ensures forall x | x in executed ::
              x.execution.requestHash in Executions(executed) && Executions(executed)[x.execution.requestHash] == (x.execution, x.at)
  {
    if executed != [] {
      hide Done;
      var n := |executed| - 1;
      var before, x := executed[..n], executed[n];
      ExecutionsAt(before);
      assert executed == before + [x];
      DoneGrows(before, x);
      forall y | y in before ensures y.execution.requestHash != x.execution.requestHash {
        var i :| 0 <= i < n && executed[i] == y;
      }
    }
  }

  // ---- The disk follows the memory

  predicate RequestsFollow(s: State, disk: Disk) {
    && disk.requests.Keys == s.requests.Keys
    && (forall h | h in s.requests :: disk.requests[h] == RequestFile(s.requests[h]))
  }

  predicate ExecutionsFollow(s: State, disk: Disk) {
    && Single(s.executed) && disk.executions.Keys == Done(s.executed)
    && (forall x | x in s.executed ::
          EncodeExecution(x.execution).Ok? && disk.executions[x.execution.requestHash] == ExecutionFile(x.execution, x.at))
  }

  predicate Follows(s: State, disk: Disk) {
    RequestsFollow(s, disk) && ExecutionsFollow(s, disk)
  }

  lemma PublishOnly(d: Deployment, s: State, ev: Event)
    requires ev.Publishes?
    ensures var t, h := Step(d, s, ev), RequestHash(d.hash, ev.request);
            && t.executed == s.executed
            && (t.requests != s.requests ==> h !in s.requests && t.requests == s.requests[h := ev.request])
  {
    hide VerifyRequest, Textual, RequestHash, RequestPreimage, S.Ideal;
  }

  lemma PublishFollows(d: Deployment, s: State, disk: Disk, ev: Event)
    requires Follows(s, disk) && ev.Publishes?
    ensures Follows(Step(d, s, ev), Written(d, disk, s, ev))
  {
    hide Step, RequestHash, RequestFile, EncodeExecution, ExecutionFile, Single, Done;
    PublishOnly(d, s, ev);
  }

  lemma ExecutionsGrow(executed: seq<Executed>, x: Executed, files: map<Digest, Bytes>)
    requires Single(executed) && files.Keys == Done(executed) && x.execution.requestHash !in Done(executed)
    requires EncodeExecution(x.execution).Ok?
    requires forall y | y in executed ::
               EncodeExecution(y.execution).Ok? && files[y.execution.requestHash] == ExecutionFile(y.execution, y.at)
    ensures var after, more := executed + [x], files[x.execution.requestHash := ExecutionFile(x.execution, x.at)];
            && Single(after) && more.Keys == Done(after)
            && forall y | y in after ::
                 EncodeExecution(y.execution).Ok? && more[y.execution.requestHash] == ExecutionFile(y.execution, y.at)
  {
    hide EncodeExecution, ExecutionFile;
    forall i | 0 <= i < |executed| ensures executed[i].execution.requestHash != x.execution.requestHash {
      assert executed[i] in executed;
    }
    DoneGrows(executed, x);
  }

  lemma ExecuteFollows(d: Deployment, s: State, disk: Disk, ev: Event)
    requires Follows(s, disk) && ev.Executes?
    ensures Follows(Step(d, s, ev), Written(d, disk, s, ev))
  {
    hide Step, EncodeExecution, RequestFile, ExecutionFile, Single, Done;
    var t := Step(d, s, ev);
    ExecutesOnly(d, s, ev.execution, ev.now);
    if t.executed != s.executed {
      OneExecuted(d, s, ev.execution, ev.now);
      Encoded(d, s, ev.execution, ev.now);
      var x := t.executed[|s.executed|];
      DoneGrows(s.executed, x);
      ExecutionsGrow(s.executed, x, disk.executions);
    }
  }

  lemma Encoded(d: Deployment, s: State, e: Execution, now: u64)
    requires Records(d, s, e, now)
    ensures EncodeExecution(e).Ok? && Step(d, s, Executes(e, now)).executed[|s.executed|].at == now
  {
    hide Judge, EncodeExecution;
  }

  lemma OtherFollows(d: Deployment, s: State, disk: Disk, ev: Event)
    requires Follows(s, disk) && !ev.Publishes? && !ev.Executes?
    ensures Follows(Step(d, s, ev), Written(d, disk, s, ev))
  {
    hide EncodeExecution, EncodeRequest, DecodeRequest, MaySign, RequestHash, RequestPreimage, S.Framed, RequestFile, ExecutionFile;
  }

  /** Over every run the files are the encodings of what is in memory, under the same names. */
  lemma {:induction false} DiskFollows(d: Deployment, events: seq<Event>)
    ensures Follows(Run(d, events), DiskAfter(d, events))
  {
    hide Follows, Step, Written;
    if events == [] {
      assert Follows(Start(d), Disk(map[], map[])) by { NothingYet(d); }
    } else {
      var n := |events| - 1;
      var s, disk, ev := Run(d, events[..n]), DiskAfter(d, events[..n]), events[n];
      DiskFollows(d, events[..n]);
      if ev.Publishes? {
        PublishFollows(d, s, disk, ev);
      } else if ev.Executes? {
        ExecuteFollows(d, s, disk, ev);
      } else {
        OtherFollows(d, s, disk, ev);
      }
    }
  }

  lemma NothingYet(d: Deployment)
    ensures Follows(Start(d), Disk(map[], map[]))
  {
  }

  // ---- A restart

  lemma ReadRequest(c: S.Crypto, r: Request)
    requires VerifyRequest(c, r).Ok? && Textual(r)
    ensures DecodeRequest(RequestFile(r)) == Ok(r)
  {
    hide DecodeRequest, EncodeRequest, Utf8.Valid, S.Framed;
    RequestEncodes(r);
    RequestCanonical(RequestFile(r), r);
  }

  lemma ReadExecution(c: S.Crypto, e: Execution, at: u64)
    requires VerifyExecutionSpec(c, e).Ok? && EncodeExecution(e).Ok?
    ensures LoadExecution(c, ExecutionFile(e, at)) == Some((e, at))
  {
    hide DecodeExecution, EncodeApprovals, Encode, LE, FromLE, S.Framed;
    CheckApprovalsMeaning(c, e.approvals, e.requestHash);
    forall i | 0 <= i < |e.approvals| ensures WireApproval(e.approvals[i]) {
      assert Binds(c, e.approvals[i], e.requestHash);
    }
    var body := EncodeExecution(e).value;
    ExecutionCanonical(body, e);
    var file := ExecutionFile(e, at);
    assert file[8..] == body && file[..8] == LE(at, 8);
    LE64(at, file[..8]);
  }

  lemma {:induction false} ReadRequests(c: S.Crypto, requests: map<Digest, Request>, files: map<Digest, Bytes>, names: seq<Digest>)
    requires forall i | 0 <= i < |names| :: names[i] in requests && names[i] in files
    requires forall h | h in requests :: RequestHash(c.hash, requests[h]) == h && VerifyRequest(c, requests[h]).Ok? && Textual(requests[h])
    requires forall h | h in requests && h in files :: files[h] == RequestFile(requests[h])
    ensures LoadRequests(c, Files(files, names)) == map h | h in names :: requests[h]
  {
    hide RequestFile, RequestHash, VerifyRequest, Textual, DecodeRequest;
    if names != [] {
      var n := |names| - 1;
      ReadRequests(c, requests, files, names[..n]);
      var all := Files(files, names);
      assert all[..n] == Files(files, names[..n]);
      ReadRequest(c, requests[names[n]]);
      assert forall h :: h in names <==> h in names[..n] || h == names[n];
    }
  }

  lemma {:induction false} ReadExecutions(c: S.Crypto, held: map<Digest, Recorded>, files: map<Digest, Bytes>, names: seq<Digest>)
    requires forall i | 0 <= i < |names| :: names[i] in held && names[i] in files
    requires forall h | h in held :: held[h].0.requestHash == h && VerifyExecutionSpec(c, held[h].0).Ok? && EncodeExecution(held[h].0).Ok?
    requires forall h | h in held && h in files :: files[h] == ExecutionFile(held[h].0, held[h].1)
    ensures LoadExecutions(c, Files(files, names)) == map h | h in names :: held[h]
  {
    hide ExecutionFile, VerifyExecutionSpec, EncodeExecution, LoadExecution;
    if names != [] {
      var n := |names| - 1;
      ReadExecutions(c, held, files, names[..n]);
      var all := Files(files, names);
      assert all[..n] == Files(files, names[..n]);
      ReadExecution(c, held[names[n]].0, held[names[n]].1);
      assert forall h :: h in names <==> h in names[..n] || h == names[n];
    }
  }

  lemma RequestsBack(d: Deployment, s: State, disk: Disk, names: seq<Digest>)
    requires Filed(d, s) && Follows(s, disk) && Enumerates(names, disk.requests.Keys)
    ensures LoadRequests(S.Ideal(d.hash, s.signed), Files(disk.requests, names)) == s.requests
  {
    hide RequestFile, ExecutionFile, VerifyRequest, Textual, EncodeExecution, RequestPreimage, Single, Done;
    ReadRequests(S.Ideal(d.hash, s.signed), s.requests, disk.requests, names);
    assert (map h | h in names :: s.requests[h]) == s.requests;
  }

  lemma HeldFacts(d: Deployment, s: State, disk: Disk, h: Digest)
    requires Follows(s, disk) && AllVerify(d.hash, s) && h in Executions(s.executed)
    ensures var x := Executions(s.executed)[h];
            && x.0.requestHash == h && EncodeExecution(x.0).Ok? && VerifyExecutionSpec(S.Ideal(d.hash, s.signed), x.0).Ok?
            && h in disk.executions && disk.executions[h] == ExecutionFile(x.0, x.1)
  {
    hide RequestFile, ExecutionFile, VerifyExecutionSpec, EncodeExecution, Executions, S.Ideal;
    ExecutionsAt(s.executed);
    var x :| x in s.executed && x.execution.requestHash == h;
  }

  lemma ExecutionsBack(d: Deployment, s: State, disk: Disk, names: seq<Digest>)
    requires AllVerify(d.hash, s) && Follows(s, disk) && Enumerates(names, disk.executions.Keys)
    ensures LoadExecutions(S.Ideal(d.hash, s.signed), Files(disk.executions, names)) == Executions(s.executed)
  {
    hide RequestFile, ExecutionFile, VerifyExecutionSpec, EncodeExecution, Executions, S.Ideal, AllVerify, LoadExecutions;
    var held := Executions(s.executed);
    assert held.Keys == disk.executions.Keys by { ExecutionsAt(s.executed); }
    forall h | h in held
      ensures held[h].0.requestHash == h && EncodeExecution(held[h].0).Ok?
      ensures VerifyExecutionSpec(S.Ideal(d.hash, s.signed), held[h].0).Ok?
      ensures disk.executions[h] == ExecutionFile(held[h].0, held[h].1)
    {
      HeldFacts(d, s, disk, h);
    }
    ReadExecutions(S.Ideal(d.hash, s.signed), held, disk.executions, names);
    assert (map h | h in names :: held[h]) == held;
  }

  /**
   * A restart changes nothing. After any run, in whatever order the directories list the
   * files, what is read back, decoded and verified is exactly the requests and executions
   * the peer held in memory.
   */
  lemma RestartLoadsTheTrail(d: Deployment, events: seq<Event>, names: seq<Digest>, others: seq<Digest>)
    requires Enumerates(names, DiskAfter(d, events).requests.Keys) && Enumerates(others, DiskAfter(d, events).executions.Keys)
    ensures var s, disk := Run(d, events), DiskAfter(d, events);
            && LoadRequests(S.Ideal(d.hash, s.signed), Files(disk.requests, names)) == s.requests
            && LoadExecutions(S.Ideal(d.hash, s.signed), Files(disk.executions, others)) == Executions(s.executed)
  {
    hide Run, DiskAfter, Follows, AllVerify, LoadRequests, LoadExecutions, Executions, Enumerates, Filed, Stamped;
    var s, disk := Run(d, events), DiskAfter(d, events);
    DiskFollows(d, events);
    EveryRun(d, events);
    RecordedVerifies(d, events);
    RequestsBack(d, s, disk, names);
    ExecutionsBack(d, s, disk, others);
  }

  // ---- The window after a restart

  /** The times of some executions, in the order their requests are listed. */
  function TimesOf(held: map<Digest, Recorded>, order: seq<Digest>): (times: seq<u64>)
    requires forall i | 0 <= i < |order| :: order[i] in held
    ensures |times| == |order| && forall i | 0 <= i < |order| :: times[i] == held[order[i]].1
  {
    seq(|order|, i requires 0 <= i < |order| => held[order[i]].1)
  }

  /** The requests executed less than `window` before `now`. */
  function Within(held: map<Digest, Recorded>, names: set<Digest>, now: u64, window: u64): set<Digest> {
    set h | h in names && h in held && SatSince(now, held[h].1) < window
  }

  function Names(order: seq<Digest>): set<Digest> {
    set h | h in order
  }

  lemma WithinGrows(held: map<Digest, Recorded>, names: set<Digest>, h: Digest, now: u64, window: u64)
    requires h in held && h !in names
    ensures |Within(held, names + {h}, now, window)|
         == |Within(held, names, now, window)| + if SatSince(now, held[h].1) < window then 1 else 0
  {
    var within := Within(held, names, now, window);
    assert h !in within;
    if SatSince(now, held[h].1) < window {
      assert Within(held, names + {h}, now, window) == within + {h};
    } else {
      assert Within(held, names + {h}, now, window) == within;
    }
  }

  lemma {:induction false} WindowIsASet(held: map<Digest, Recorded>, order: seq<Digest>, now: u64, window: u64)
    requires forall i | 0 <= i < |order| :: order[i] in held
    requires forall i, j | 0 <= i < j < |order| :: order[i] != order[j]
    ensures InWindow(TimesOf(held, order), now, window) == |Within(held, Names(order), now, window)|
  {
    if order == [] {
      assert Within(held, Names(order), now, window) == {};
    } else {
      hide Within;
      var n := |order| - 1;
      var before, h := order[..n], order[n];
      WindowIsASet(held, before, now, window);
      assert TimesOf(held, order)[..n] == TimesOf(held, before);
      assert Names(order) == Names(before) + {h} && h !in Names(before);
      WithinGrows(held, Names(before), h, now, window);
    }
  }

  function Hashes(executed: seq<Executed>): (order: seq<Digest>)
    ensures |order| == |executed| && forall i | 0 <= i < |executed| :: order[i] == executed[i].execution.requestHash
  {
    seq(|executed|, i requires 0 <= i < |executed| => executed[i].execution.requestHash)
  }

  function Stamps(executed: seq<Executed>): (times: seq<u64>)
    ensures |times| == |executed| && forall i | 0 <= i < |executed| :: times[i] == executed[i].at
  {
    seq(|executed|, i requires 0 <= i < |executed| => executed[i].at)
  }

  lemma SameWindow(executed: seq<Executed>, order: seq<Digest>, now: u64, window: u64)
    requires Single(executed) && Enumerates(order, Executions(executed).Keys)
    ensures InWindow(TimesOf(Executions(executed), order), now, window) == InWindow(Stamps(executed), now, window)
  {
    hide InWindow, Executions, Within;
    var held, mine := Executions(executed), Hashes(executed);
    ExecutionsAt(executed);
    forall i | 0 <= i < |mine| ensures mine[i] in held && held[mine[i]].1 == executed[i].at {
      assert executed[i] in executed;
    }
    assert Stamps(executed) == TimesOf(held, mine);
    WindowIsASet(held, mine, now, window);
    WindowIsASet(held, order, now, window);
    assert Names(order) == held.Keys;
    assert Names(mine) == held.Keys by { NamesOfAll(executed); }
  }

  lemma NamesOfAll(executed: seq<Executed>)
    ensures Names(Hashes(executed)) == Done(executed)
  {
    forall x | x in executed ensures x.execution.requestHash in Hashes(executed) {
      var i :| 0 <= i < |executed| && executed[i] == x;
      assert Hashes(executed)[i] == x.execution.requestHash;
    }
    forall h | h in Hashes(executed) ensures h in Done(executed) {
      var i :| 0 <= i < |executed| && Hashes(executed)[i] == h;
      assert executed[i] in executed;
    }
  }

  lemma OnlyTheWindow(c: S.Crypto, r: Request, e: Execution, recent: seq<u64>, other: seq<u64>, p: Policy,
                      authority: set<Digest>, now: u64)
    requires InWindow(recent, now, p.rolling.window) == InWindow(other, now, p.rolling.window)
    ensures DecideSpec(c, r, e, recent, p, authority, now) == DecideSpec(c, r, e, other, p, authority, now)
  {
    hide InWindow, VerifyRequest, VerifyExecutionSpec, RequestHash, Objection, Approvers;
  }

  /**
   * Nor does it change a verdict: judged against the executions read back, listed in any
   * order, every execution gets the answer it would have got before the restart.
   */
  lemma RestartKeepsVerdicts(d: Deployment, events: seq<Event>, order: seq<Digest>, e: Execution, now: u64)
    requires e.requestHash in Run(d, events).requests
    requires Enumerates(order, Executions(Run(d, events).executed).Keys)
    ensures Judge(d, Run(d, events), e, now)
         == DecideSpec(S.Ideal(d.hash, Run(d, events).signed), Run(d, events).requests[e.requestHash], e,
                       TimesOf(Executions(Run(d, events).executed), order), d.policy, d.Authority(), now)
  {
    hide Run, DiskAfter, InWindow, Executions, DecideSpec, TimesOf;
    var s := Run(d, events);
    assert Single(s.executed) by { DiskFollows(d, events); }
    SameWindow(s.executed, order, now, d.policy.rolling.window);
    assert Times(s.Grants()) == Stamps(s.executed);
    OnlyTheWindow(S.Ideal(d.hash, s.signed), s.requests[e.requestHash], e, Times(s.Grants()),
                  TimesOf(Executions(s.executed), order), d.policy, d.Authority(), now);
  }
}
