# NAS-tools: a verified model

This project models the parts of NAS-tools that destroy, publish or authenticate data, and proves
what they promise for every input and over every run. Everything is checked by
`dafny verify dfyconfig.toml` (Dafny 4.11). Nothing is assumed about the cryptographic primitives; two
library text operations are assumed to keep stated laws.

- **Deletion loop** (`DeleteRecord`, `DeletePolicy`, `DeletionRuns`, `DeletionReach`, `TrailDisk`). Signed requests,
  approvals and executions, `decide` with its rolling window, and whole runs with hostile executors,
  relays, minted keys, compromised authority devices and arbitrary clocks. No execution without a
  cooled-off quorum, a bound on the volume few keys can carry with the exact policies under which a
  longer interval exceeds it, exactly when a request can be executed and how it is driven there, and a
  restart that changes nothing.
- **Lease garbage collection** (`AddrOrder`, `Merkle`, `LeaseRecord`, `LeaseReplay`, `Sweep`,
  `PeerRuns`, `WarningRuns`). The delta chain and the Merkle checkpoint each determine the leased set;
  the sweep planner is its stated cascade; over every interleaving of uploads, leases, retention, votes
  and sweeps nothing protected is deleted. A swept blob that was ever on the retention floor was first
  forgotten on a proof naming an execution that had met its quorum, though not one about that blob; and
  exactly when a lessee had been warned.
- **Filtered mirror** (`Glob`, `GitPaths`, `Mirror`, `MirrorCommits`). The history rewrite depends on
  ancestors and rules alone; what each commit, message, parent and counter is; and the glob matcher has
  a declarative meaning. It judges paths as git prints them, so what it
  publishes is the filtered tree, and nothing excluded, exactly under stated conditions.
- **Vault rotation** (`VaultRotation`). Failure at any step and power loss between any two.
- **Wire** (`Bytes`, `Utf8`, `Encoding`, `Signing`, `SignedMeaning`, `Layouts`). Every codec is canonical in
  both directions, its octets are written out, and one signed octet string has one meaning.
- **Gateway** (`Http`, `HttpText`, `CanonicalQuery`, `SigV4`, `SigMeaning`). The incremental reader
  refines a parser of the whole stream, and exactly where it does not; what a client writes is what it reads; the canonical
  query; the exact answer of `verify` to what `sign` wrote, and that a signature covers what it seems to.

How the model is set up:

- BLAKE3, SHA-256, HMAC and the ML-DSA verifier are arbitrary functions passed as arguments. A binding
  result says "equal, or two of the strings *hashed by these computations* collide" (`Bytes.Collides`
  over an explicit set of queries). A collision among all strings exists by counting, so a weaker
  reading would say nothing. In runs, signatures are the set of (key, signed octets) pairs somebody
  made (`Signing.Ideal`).
- Times, sizes and sequence numbers are u64 with the source's saturation (`SatSince`, `SatAdd`);
  text is octets, with UTF-8 validity written out from RFC 3629. `str::trim` and
  `from_utf8_lossy` are parameters; the results that need a law of theirs name it (`TrimLaw`, `CutLaw`,
  `LossyLaw`), and `LawsCanBeMet` exhibits operations that keep all three.
- Authority devices are honest or compromised; a compromised one signs anything, an honest one approves
  only through its cooling-off gate, which the design says no protocol can enforce.
- Git prints a path with `core.quotePath` at its default, as `git ls-tree` documents, and `git
  commit-tree` ignores a repeated parent.
- Loops that build buffers, sets or plans are methods proved equal to a specification function; the
  lemmas are about that function. `LeaseSet`, `Authority` and the open repository are classes.
- A precondition that a list or text fits its u32 length prefix stands for an abort in the source
  (`expect` on encoding).

Where code and comments differ, the code is followed: `crates/nas-lease/src/sweep.rs:18-20` says a
deduplicated upload does not restart the grace, but `crates/nas-store/src/blobs.rs:166-171` touches the
file and it does; the window of `policy.rs` counts executions, not requests, and spans strictly less
than `window` seconds; `crates/nas-peer/src/peer.rs:1482-1490` says the proof of a forget must be a
recorded execution, but only its request hash is looked up.

Some results are about where the code stops meeting the obvious property, each with its exact condition:

- the mirror publishes an excluded file exactly when some excluded path is printed in quotes that no rule
  matches (`LeaksIff`), which under the default rules is every excluded path git quotes
  (`DirectoryRulesMissQuoted`, `DefaultRulesLeak`), and the published tree is the filtered one exactly
  when every path git quotes is harmless: excluded, or made up for by another file, under either of its
  names (`PublicTree`, `TwinsHide`);
- the volume bound fails for an interval longer than the window, for exactly the policies of `ExceedsIff`
  and, in runs, of `RunExceedsIff`;
- a quorum above 64 can never be met, since no bundle carries it (`ExecutableIff`, `BeyondTheCap`);
- a leased blob can be swept without ever having been announced: if it was on the retention floor
  (`SweptUnannounced`), or if another holder kept it covered until it released its lease
  (`ReleasedUnannounced`). In the notice window, once the grace is past, these are the only two ways
  (`SweptWasListed`); over the whole run, `ToldIff` says exactly when a holder had been told;
- once anything at all was executed, anyone lifts any address from the retention floor with a proof that
  carries no approval; before that nobody does without executing something (`LiftableIff`,
  `AnyoneCanForget`);
- a temporary that survives a power loss refuses every rotation until it is removed, or a second power
  loss takes it (`RefusedUntilCleared`, `AnswerNeedsClearing`);
- the quota test is blind exactly when the ceiling is u64::MAX and the true total is larger still
  (`QuotaExact`);
- whether the reader parses or refuses depends on how the stream is split exactly when the header ends in
  the 1023 positions past the cap (`SplitMattersPastCap` with its neighbours); the size a refusal reports
  depends on it also beyond them (`ReaderWithoutHeader`);
- a request with no covered header is signed but never verifies, short of a collision (`VerdictOnSigned`);
- the signature check on approvals inside `decide` is dead code (`BadApprovalIsUnreachable`).

## Model

| member | source | states |
|---|---|---|
| `Encoding.EncodeFields` | crates/nas-core/src/encoding.rs:38-55 | the buffer loop writes each field with its u32 length, or stops with the size of the first field too large |
| `Encoding.DecodeField` | crates/nas-core/src/encoding.rs:62-75 | on success the input is exactly that prefixed field followed by the rest |
| `Encoding.DecodeFields` | crates/nas-core/src/encoding.rs:79-87 | the loop computes the recursive decoding, trailing octets being an error |
| `Encoding.FieldsCanonical` | crates/nas-core/src/encoding.rs:48-87 | decoding yields a field list if and only if encoding that list yields those octets |
| `Encoding.WirePrefixUnique` | crates/nas-core/src/encoding.rs:57-75 | self-delimiting: with equally many fields, fields and whatever follows them are recovered from the concatenation |
| `Bytes.LittleEndian` | crates/nas-core/src/encoding.rs:38-55 | the octets of a 32-bit and a 64-bit number, least significant first |
| `Layouts.FieldRefused` | crates/nas-core/src/encoding.rs:62-75 | a field is refused iff its length does not fit, or what the length announces does not, with the true numbers |
| `Signing.ContextsPrefixFree` | crates/nas-crypto/src/context.rs:60-78 | whatever follows a context, the context read back from the octets is that one; so none is a prefix of another |
| `Signing.FramedInjective` | crates/nas-crypto/src/sign.rs:197-204 | one framed octet string has one context and one message |
| `SignedMeaning.OneMeaning` | crates/nas-crypto/src/sign.rs:183-230 | two signed records of any of the five kinds have equal signed octets if and only if they are of one kind and agree in every signed field |
| `DeleteRecord.ScopeCanonical` | crates/nas-delete/src/record.rs:107-155 | a tag and path decode to a scope exactly when they are its tag and path and the scope is legal |
| `DeleteRecord.RequestCanonical` | crates/nas-delete/src/record.rs:220-268 | the request codec is canonical both ways: decode(b) = r iff r is well formed and encode(r) = b |
| `DeleteRecord.ApprovalCanonical` | crates/nas-delete/src/record.rs:310-347 | the approval codec is canonical both ways |
| `DeleteRecord.ApprovalsCanonical` | crates/nas-delete/src/record.rs:397-404 | the nested approval list is canonical both ways |
| `DeleteRecord.ExecutionCanonical` | crates/nas-delete/src/record.rs:391-441 | an execution round-trips whole with its nested approvals, within the cap of 64, and has one spelling |
| `Layouts.RequestLayout` | crates/nas-delete/src/record.rs:157-240 | the octets of a request and of what is signed of it, field by field |
| `Layouts.ApprovalLayout` | crates/nas-delete/src/record.rs:310-325 | the octets of an approval |
| `Layouts.ExecutionLayout` | crates/nas-delete/src/record.rs:391-412 | the octets of an execution: three fields, then each approval as one |
| `DeleteRecord.BodyInjective` | crates/nas-delete/src/record.rs:157-165 | scope, reason and nonce are recovered from the signed body |
| `DeleteRecord.PreimageInjective` | crates/nas-delete/src/record.rs:205-214 | the unframed request preimage determines the whole request, requester and signature included |
| `DeleteRecord.VerifyExecution` | crates/nas-delete/src/record.rs:446-466 | the loop finds the first approval that does not verify or names another request, then checks the execution's own signature |
| `DeleteRecord.CheckApprovalsMeaning` | crates/nas-delete/src/record.rs:446-458 | the approvals pass exactly when every one verifies and binds this request |
| `DeletePolicy.Enrol` | crates/nas-cli/src/worm.rs:515-521 | an authority built by admitting keys one by one contains exactly their ids, whatever the order and repeats |
| `DeletePolicy.Decide` | crates/nas-delete/src/policy.rs:217-285 | the loops over approvals and recent executions compute the specified verdict, with the source's order of refusals |
| `DeletePolicy.ObjectionMeaning` | crates/nas-delete/src/policy.rs:247-261 | the counting loop raises no objection exactly when every approval verifies, is by an authority member and not by the requester |
| `DeletePolicy.ObjectionIsTheFirst` | crates/nas-delete/src/policy.rs:247-261 | the objection is about the first approval that deserves one, self-approval before want of standing |
| `DeletePolicy.RefusalMeaning` | crates/nas-delete/src/policy.rs:225-261 | each refusal has its reason, in the source's order |
| `DeletePolicy.DecideMeaning` | crates/nas-delete/src/policy.rs:217-285 | Execute is answered if and only if every record checks, all approvals are countable for this request, and the distinct holders meet what is owed |
| `DeletePolicy.ShortMeaning` | crates/nas-delete/src/policy.rs:263-280 | a shortfall is reported if and only if only the count is wanting, with the true requirement, count and escalation flag |
| `DeletePolicy.RequiredIff` | crates/nas-delete/src/policy.rs:106-112 | what is owed is the least number that meets the field of the scope's kind, and the escalation if `objects` executions are less than a window old |
| `DeletePolicy.ExecuteIff` | crates/nas-delete/src/policy.rs:217-285 | Execute iff the records are in order and the distinct approvers meet the field of the scope's kind and the escalation when it stands |
| `DeletePolicy.BadApprovalIsUnreachable` | crates/nas-delete/src/policy.rs:248-251 | decide never answers BadApproval, since execution.verify has refused first |
| `DeletePolicy.VolumeBound` | crates/nas-delete/src/policy.rs:263-285 | with any clock readings, at most `objects` executions stamped in any interval of length `window` have fewer than `escalate_to` distinct approvers |
| `DeletePolicy.LongerIntervalExceeds` | crates/nas-delete/src/policy.rs:263-285 | for every scope owing less than the escalation, a history in which every execution met all it owed has one small execution more within one second more than the window |
| `DeletePolicy.ExceedsIff` | crates/nas-delete/src/policy.rs:263-285 | histories that meet all they owe can exceed the bound in an interval iff it is longer than the window, `objects` is not 0 and some scope owes less than `escalate_to` |
| `DeletionRuns.StepBacked` | crates/nas-delete/src/record.rs:487-507 | an honest authority key has signed an approval only by approving a request with that hash |
| `DeletionRuns.StampIsFirstArrival` | crates/nas-delete/src/record.rs:469-486 | over every run a device's stamp is its own clock when the request first reached it |
| `DeletionRuns.ApprovesIff` | crates/nas-delete/src/record.rs:487-507 | over every run an attempt to approve makes an honest device's signature iff the request has reached it and its stamp plus its cooling-off is not after its clock |
| `DeletionRuns.CooledOffMeans` | crates/nas-delete/src/record.rs:487-507 | a device counted as cooled off approved in an event whose clock is at least its cooling-off after the first arrival |
| `DeletionRuns.CountedSigner` | crates/nas-delete/src/policy.rs:242-261 | a counted approval names an authority device, not the requester, which if honest approved this very request after its own cooling-off, or hashed strings collide |
| `DeletionRuns.JudgedQuorum` | crates/nas-peer/src/peer.rs:850-889 | a verdict to execute rests on that many distinct authority devices, all but the compromised ones cooled off, whatever order and repetition the bundle has |
| `DeletionRuns.EveryRun` | crates/nas-peer/src/peer.rs:754-889 | over every run the invariant holds and each recorded execution met what was owed by the ones before it, with that many authority devices behind it, all but the compromised ones cooled off |
| `DeletionRuns.RecordedOwed` | crates/nas-delete/src/policy.rs:106-112 | over every run a recorded deletion of an object, prefix or namespace had at least that field of distinct key ids, and the escalation if `objects` executions were less than a window old |
| `DeletionRuns.RecordedAt` | crates/nas-peer/src/peer.rs:850-889 | each recorded execution was recorded by one event, and its quorum stood in the state just before |
| `DeletionRuns.QuorumOverRuns` | formal/README.md:247-256 | after any events, with any bundle and clock, an execution is authorised by at least the owed number of authority devices less the compromised ones, cooled off, none the requester, or hashed strings collide |
| `DeletionRuns.TrailMonotonic` | formal/README.md:256-256 | nothing recorded is ever withdrawn, restamped or replaced, whatever follows |
| `DeletionRuns.RunVolume` | crates/nas-cli/src/worm.rs:739-803 | the volume bound holds of every run's recorded executions |
| `DeletionRuns.StolenKeysBounded` | crates/nas-delete/src/policy.rs:76-87 | any fixed set of fewer than `escalate_to` keys, authority devices signing at will among them, carries at most `objects` executions in any window, over every run |
| `DeletionReach.RecordedIff` | crates/nas-peer/src/peer.rs:850-889 | after any run, what is handed over is recorded iff there is an authority, executor and approvers signed, the ids counted meet what is owed, there are at most 64 approvals, and nothing was recorded for the request |
| `DeletionReach.ExecutableIff` | crates/nas-peer/src/peer.rs:850-889 | after any run, some bundle gets a filed request executed iff somebody signed the execution, it is not recorded yet, and what is owed is met by the keys ready to be counted and is at most 64 |
| `DeletionReach.BeyondTheCap` | crates/nas-delete/src/record.rs:391-396 | over every run nothing that owes more than 64 is ever executed |
| `DeletionReach.CanBeDriven` | crates/nas-peer/src/peer.rs:754-889 | no deadlock: after any run, however escalated, events exist that get a new request with enough able devices executed, and record nothing else |
| `DeletionReach.RecordedVerifies` | crates/nas-peer/src/peer.rs:850-889 | over every run a recorded execution still verifies |
| `TrailDisk.DiskFollows` | crates/nas-peer/src/peer.rs:745-776 | over every run the files of the trail are the encodings of what is in memory, under the request hashes |
| `TrailDisk.LoadedVerifies` | crates/nas-peer/src/peer.rs:543-590 | whatever the files hold, what is loaded was in one of them, verifies and is held under its own hash |
| `TrailDisk.RestartLoadsTheTrail` | crates/nas-peer/src/peer.rs:543-590 | after any run, in whatever order the files are listed, what a restart decodes and verifies is exactly the requests and executions held in memory |
| `TrailDisk.RestartKeepsVerdicts` | crates/nas-peer/src/peer.rs:863-875 | judged against the executions read back, in any order, every execution gets the same verdict |
| `DeletionReach.TrailIsCapped` | crates/nas-peer/src/peer.rs:754-776 | over every run at most 1024 requests are filed, and none is executed twice |
| `DeletionReach.LongerIntervalRun` | crates/nas-delete/src/policy.rs:263-285 | in every deployment with enough light requests, a run executes one more than `objects` of them within one second more than the window |
| `DeletionReach.RunExceedsIff` | crates/nas-delete/src/policy.rs:263-285 | some run exceeds the bound in an interval iff it is longer than the window, `objects` is between 1 and 1023, and some scope owes less than `escalate_to` and at most 64 |
| `AddrOrder.Insert` | crates/nas-lease/src/set.rs:105-108 | inserting keeps strict order and adds exactly that address |
| `AddrOrder.Remove` | crates/nas-lease/src/set.rs:109-111 | removing keeps strict order and drops exactly that address |
| `AddrOrder.AscendingUnique` | crates/nas-lease/src/record.rs:142-157 | a set of addresses has one strictly ascending spelling |
| `AddrOrder.LessIff` | crates/nas-lease/src/record.rs:141-150 | addresses compare at their first difference, octet by octet |
| `AddrOrder.CanonicaliseIsOfTheSet` | crates/nas-lease/src/record.rs:152-157 | two lists canonicalise alike exactly when they have the same members, and an ascending list is its own canonical form |
| `Merkle.Root` | crates/nas-lease/src/merkle.rs:51-79 | the level-by-level loop computes the specified root |
| `Merkle.NextLevelShape` | crates/nas-lease/src/merkle.rs:60-71 | position by position a level pairs neighbours, and a last odd node is promoted unchanged, never duplicated |
| `Merkle.RootOfThree` | crates/nas-lease/src/merkle.rs:26-79 | the root of three addresses, out of order and with a repeat, written out in octets |
| `Merkle.KindsAreApart` | crates/nas-lease/src/merkle.rs:26-43 | leaf, node and root inputs are never the same string |
| `Merkle.TreeBinding` | crates/nas-lease/src/merkle.rs:59-73 | equal trees over equally long levels mean equal levels, or a collision among the node strings of some level |
| `Merkle.RootBinding` | crates/nas-lease/src/merkle.rs:51-79 | the root is the same for the same set in any order and multiplicity, and equal roots mean equal sets or a collision among the strings hashed |
| `LeaseRecord.Pack` | crates/nas-lease/src/record.rs:119-125 | the buffer is the concatenation of the addresses |
| `LeaseRecord.Unpack` | crates/nas-lease/src/record.rs:127-150 | splits into 32-octet addresses, refusing ragged input and lists not strictly ascending |
| `LeaseRecord.NeighboursSuffice` | crates/nas-lease/src/record.rs:141-150 | comparing neighbours decides strict order of the whole list |
| `LeaseRecord.UnpackedCanonical` | crates/nas-lease/src/record.rs:119-150 | octets unpack to a list exactly when the list is strictly ascending and packs to them |
| `LeaseRecord.DeltaCanonical` | crates/nas-lease/src/record.rs:261-295 | the delta codec is canonical both ways |
| `LeaseRecord.CheckpointCanonical` | crates/nas-lease/src/record.rs:394-428 | the checkpoint codec is canonical both ways |
| `Layouts.DeltaLayout` | crates/nas-lease/src/record.rs:199-275 | the octets of a delta and of what is signed of it |
| `Layouts.CheckpointLayout` | crates/nas-lease/src/record.rs:322-410 | the octets of a checkpoint and of what is signed of it |
| `LeaseRecord.DeltaBodyInjective` | crates/nas-lease/src/record.rs:199-208 | every signed field of a delta is recovered from its body |
| `LeaseRecord.CheckpointBodyInjective` | crates/nas-lease/src/record.rs:322-331 | every signed field of a checkpoint is recovered from its body |
| `LeaseRecord.ChainInputInjective` | crates/nas-lease/src/record.rs:251-259 | what the chain hash covers determines every signed field and the signature |
| `LeaseRecord.CoversBinding` | crates/nas-lease/src/record.rs:370-382 | two lists one checkpoint covers have the same members, or hashed strings collide |
| `LeaseReplay.LeaseSet.Apply` | crates/nas-lease/src/set.rs:105-112 | additions then removals: an address both added and removed ends absent |
| `LeaseReplay.CheckAt` | crates/nas-lease/src/set.rs:148-155 | the checkpoints standing at a delta are checked in order: signature, holder, coverage |
| `LeaseReplay.Replay` | crates/nas-lease/src/set.rs:120-160 | the loop computes the specified replay: the same set, or the same first error |
| `LeaseReplay.AcceptedIff` | crates/nas-lease/src/set.rs:120-160 | a history is accepted iff every delta is signed by the one holder, well formed, numbered in turn and linked, and every checkpoint standing at one is that holder's and commits to the set built |
| `LeaseReplay.RefusedAt` | crates/nas-lease/src/set.rs:129-159 | a refused history has a longest accepted part, and the error is the first fault of the delta after it or of a checkpoint there |
| `LeaseReplay.LeasedIff` | crates/nas-lease/src/set.rs:105-112 | the set built holds an address iff some delta added it and neither that nor a later one removed it |
| `LeaseReplay.PrefixesReplay` | crates/nas-lease/src/set.rs:129-159 | every prefix of an accepted history is accepted |
| `LeaseReplay.CheckpointsOnlyRefuse` | crates/nas-lease/src/set.rs:148-155 | checkpoints never change the outcome of an accepted replay |
| `LeaseReplay.AcceptedIsChained` | crates/nas-lease/src/set.rs:129-159 | an accepted history starts at 0, is linked hash by hash, and its set is what its deltas build |
| `LeaseReplay.ChainBinding` | crates/nas-lease/src/set.rs:120-160 | two accepted chains with one head hash are equal delta by delta in every signed field and signature and lease the same set, or linking strings collide |
| `LeaseReplay.ColdResync` | crates/nas-lease/src/set.rs:148-155 | any list an accepted checkpoint covers is exactly the set after its delta, or hashed strings collide |
| `Sweep.SatTotalIsClamped` | crates/nas-lease/src/sweep.rs:99-105 | the saturating byte count is the true total, clamped to u64 |
| `Sweep.QuotaExact` | crates/nas-lease/src/sweep.rs:172-182 | the quota test agrees with the true total unless the ceiling is u64::MAX and the total larger still |
| `Sweep.OverQuotaMeaning` | crates/nas-lease/src/sweep.rs:177-183 | with distinct ids the report names exactly the holders over the ceiling, with their count |
| `Sweep.QuotaReport` | crates/nas-lease/src/sweep.rs:165-185 | the plan reports a holder iff the true total of the blobs it leases exceeds a ceiling below u64::MAX |
| `Sweep.IndexMeaning` | crates/nas-lease/src/sweep.rs:172-176 | the index finds the last listed blob of an address |
| `Sweep.PlanSweep` | crates/nas-lease/src/sweep.rs:165-235 | the loops build the specified plan: order of lists, warnings and quota report included |
| `Sweep.ScanLessees` | crates/nas-lease/src/sweep.rs:199-210 | the flags say whether some active, some expiring holder leases the address |
| `Sweep.PlanMeaning` | crates/nas-lease/src/sweep.rs:187-232 | each address is deleted, kept for a reason, or listed to a holder iff a listed blob has that fate; every blob lands in exactly one list |
| `Sweep.PlanInOrder` | crates/nas-lease/src/sweep.rs:187-232 | the deletion list and, for distinct ids, each holder's list are the addresses of the blobs fated so, in order and once each |
| `Sweep.ReasonIff` | crates/nas-lease/src/sweep.rs:118-135 | the reported reason is the strongest that holds; at risk is exactly what neither floor, grace nor a live lease covers |
| `Sweep.DeletedIff` | crates/nas-lease/src/sweep.rs:187-219 | deleted iff off the floor, past grace and every lessee idle longer than expiry plus notice |
| `Sweep.DeletionHardens` | crates/nas-lease/src/sweep.rs:187-219 | the deleted set only grows as the clock advances |
| `Sweep.ProtectionShrinks` | crates/nas-lease/src/sweep.rs:187-219 | a larger floor, larger leases, renewals and fresh uploads only shrink it |
| `Sweep.WarnedIff` | crates/nas-lease/src/sweep.rs:221-232 | an address is on a holder's list iff the holder leases it, it is off the floor and past grace, and every lessee is idle past the expiry |
| `Sweep.TakenIff` | crates/nas-lease/src/sweep.rs:187-219 | an address is on the deletion list iff it is off the floor and past grace, and every lessee is idle past expiry plus notice |
| `Sweep.WarnedIsTaken` | crates/nas-lease/src/sweep.rs:145-153 | an address on any holder's list is on the deletion list of every later plan over the same state once all its lessees have lapsed |
| `Sweep.TakenWasWarned` | crates/nas-lease/src/sweep.rs:221-232 | a leased address on the deletion list was, throughout the notice window of its latest lessee and once past grace, not on it, kept as expiring, and on every lessee's list |
| `PeerRuns.BlobsFollowOffers` | crates/nas-store/src/blobs.rs:162-194 | over every run a held blob's stamp is its latest upload or answered proof |
| `PeerRuns.LeasesFollowTakes` | crates/nas-peer/src/peer.rs:928-981 | over every run a holder's set is what it took and has not released, stamped at its last accepted record |
| `PeerRuns.SizesFollowUploads` | crates/nas-store/src/blobs.rs:162-194 | over every run a held blob has the size it was first uploaded with |
| `PeerRuns.TakenLeaseIff` | crates/nas-peer/src/peer.rs:928-962 | over every run a lease is taken iff every blob it names is held and the true total stays within a ceiling below u64::MAX |
| `PeerRuns.FloorFollowsEvents` | crates/nas-peer/src/peer.rs:1429-1506 | over every run the floor is what was put on it and not forgotten since; a published set replaces it iff it drops nothing |
| `PeerRuns.ForgetIff` | crates/nas-peer/src/peer.rs:1491-1506 | over every run a forget is accepted iff its proof's signatures were made and some recorded execution names the same request |
| `PeerRuns.SweepSafe` | formal/README.md:133-142 | over every run no sweep, whatever holders and policy it is called with, deletes a blob on the floor or offered less than grace ago; and none leased by a holder idle at most expiry plus notice if called with the peer's own holders |
| `PeerRuns.SweepComplete` | crates/nas-peer/src/peer.rs:1565-1584 | over every run a held blob that none of these protects is deleted by a sweep over the peer's own holders |
| `PeerRuns.FloorNeedsForget` | crates/nas-peer/src/peer.rs:1429-1506 | an address leaves the retention floor only by an accepted forget naming it |
| `PeerRuns.TrailIsItsOwnRun` | crates/nas-peer/src/peer.rs:754-889 | the deletion trail of a peer is the run of its deletion events alone |
| `PeerRuns.SweptFromFloorWasVoted` | crates/nas-peer/src/peer.rs:1482-1584 | a blob that was ever on the floor and that any sweep deletes was named by a forget whose proof names an executed request, and that execution had its owed, cooled-off quorum |
| `PeerRuns.AnyoneCanForget` | crates/nas-peer/src/peer.rs:1491-1506 | after any run that recorded an execution of any scope, any key signs a proof without approvals and lifts exactly the addresses it likes |
| `PeerRuns.LiftableIff` | crates/nas-peer/src/peer.rs:1491-1506 | an address can leave the floor with nothing more executed iff some execution was ever recorded |
| `PeerRuns.PlanIsTheSweep` | crates/nas-peer/src/peer.rs:1565-1584 | however blobs are listed, and for any holders and policy, the planner deletes exactly what the runs' sweep deletes; for the peer's own it lists to each holder exactly what the runs' warnings list |
| `WarningRuns.ListedIff` | crates/nas-peer/src/peer.rs:1011-1037 | over every run a holder is told of a blob iff it still leases it, the blob is held, off the floor and past grace, and every lessee was last heard from longer than the expiry ago |
| `WarningRuns.SweptWasListed` | crates/nas-peer/src/peer.rs:1011-1037 | over every run, each clock reading in the notice window of a leased blob that a sweep deletes came before the sweep, and there, past grace, the blob was on every lessee's list iff it was off the floor and under no live lease released since |
| `WarningRuns.MomentOf` | crates/nas-peer/src/peer.rs:1011-1037 | by a clock that does not go back every such reading has its moment in the run |
| `WarningRuns.ToldIff` | crates/nas-peer/src/peer.rs:1011-1037 | by such a clock a holder had ever been told of a blob before a sweep iff it was due on the list just as some event was handled, or in the second before |
| `WarningRuns.SweptUnannounced` | crates/nas-peer/src/peer.rs:1482-1584 | a run in which a leased blob is forgotten after its lease lapsed and may be swept at once, though at no earlier moment and clock was it on any list |
| `WarningRuns.ReleasedUnannounced` | crates/nas-peer/src/peer.rs:1011-1037 | a run, never touching the floor, in which a holder that kept in touch releases a blob that another still leases, and it may be swept at once, though by a clock that does not go back it was on no list before |
| `Glob.SegmentsAtSlash` | crates/nas-cli/src/mirror.rs:241-245 | a slash anywhere only separates: splitting distributes over it |
| `Glob.SegMatchMeaning` | crates/nas-cli/src/mirror.rs:271-294 | a segment matches iff it splits so that each star takes any octets, each question mark one and every other octet itself; the equality shortcut agrees |
| `Glob.GlobMatchMeaning` | crates/nas-cli/src/mirror.rs:241-269 | a path matches iff its segments split so that each double star takes any number and every other pattern segment exactly one it matches |
| `Glob.UnderIff` | crates/nas-cli/src/mirror.rs:131-131 | a directory rule matches exactly the paths whose first segment is the directory |
| `GitPaths.PrintedInjective` | crates/nas-cli/src/mirror.rs:429-446 | distinct paths are listed under distinct texts, and a path under its own iff it has no control, quote, backslash or non-ASCII octet |
| `GitPaths.UsualIff` | crates/nas-cli/src/mirror.rs:429-446 | a path is listed as it is iff it is printable ASCII without quotes and backslashes |
| `GitPaths.PrintedIsPlain` | crates/nas-cli/src/mirror.rs:429-446 | a listed path is printable ASCII, so that cutting lines, splitting at the tab and decoding leave it alone |
| `Mirror.MatchesAny` | crates/nas-cli/src/mirror.rs:296-298 | a path is excluded iff some glob matches it |
| `Mirror.FilterFiles` | crates/nas-cli/src/mirror.rs:653-657 | keeps, in order, the entries not excluded |
| `Mirror.CommitTree` | crates/nas-cli/src/mirror.rs:578-590 | the commit has the given parents in order, a repeated one once |
| `Mirror.DeriveOne` | crates/nas-cli/src/mirror.rs:652-690 | one turn of the loop makes the specified change to map, counters, head and copied blobs |
| `Mirror.CopyBlobs` | crates/nas-cli/src/mirror.rs:494-519 | copying succeeds iff no file shown is a submodule |
| `MirrorCommits.CopyableIff` | crates/nas-cli/src/mirror.rs:494-519 | copying fails iff the commit has a submodule whose printed path no rule matches |
| `Mirror.Derive` | crates/nas-cli/src/mirror.rs:623-705 | the loop computes the specified rewrite, failing exactly when a listed commit cannot be read or shows a submodule |
| `Mirror.RewriteSettles` | crates/nas-cli/src/mirror.rs:648-691 | in the finished map every commit's image is the one its parents' final images give it |
| `MirrorCommits.MappedCommit` | crates/nas-cli/src/mirror.rs:662-690 | a mapped commit is its first mapped parent's image iff empties are dropped and the trees agree; otherwise it has its own identities, its message filtered iff the rules say so, and the images of its mapped parents |
| `MirrorCommits.ParentsInOrder` | crates/nas-cli/src/mirror.rs:662-666 | the public parents are the images of exactly the mapped parents, in order |
| `MirrorCommits.DistinctInOrder` | crates/nas-cli/src/mirror.rs:585-588 | a repeated parent stays where it first stood |
| `MirrorCommits.EverythingAuthored` | crates/nas-cli/src/mirror.rs:682-686 | everything reachable from a published commit has the identities of a listed commit and that commit's message, filtered when the rules say so |
| `MirrorCommits.TreeMeaning` | crates/nas-cli/src/mirror.rs:521-558 | a tree holds under each path the mode and blob of the last file there |
| `Mirror.ImageOfAncestors` | crates/nas-cli/src/mirror.rs:648-691 | two histories in any topological orders map a shared, parent-closed part identically |
| `Mirror.OrderDoesNotMatter` | crates/nas-cli/src/mirror.rs:820-826 | one history gives one map, whatever topological order it is listed in |
| `Mirror.ExtensionIsStable` | crates/nas-cli/src/mirror.rs:820-826 | extending a complete history never moves an existing image |
| `Mirror.MappedTree` | crates/nas-cli/src/mirror.rs:653-679 | a mapped commit's public tree holds each private file whose printed path no rule matches, under that printed path |
| `Mirror.PublicTree` | crates/nas-cli/src/mirror.rs:653-679 | it is the private tree without the excluded paths iff every path git quotes has its printed form excluded or already there with the same content, and is itself excluded or the printed form of a file with the same content |
| `Mirror.TwinsHide` | crates/nas-cli/src/mirror.rs:653-679 | an excluded path that slips through can be made up for so, for every quoted name and content |
| `Mirror.LeaksIff` | crates/nas-cli/src/mirror.rs:653-690 | something at an excluded path is published iff some listed commit has an excluded path whose printed form no rule matches |
| `Mirror.DirectoryRulesMissQuoted` | crates/nas-cli/src/mirror.rs:128-135 | rules for whole directories, such as the default ones, miss exactly the excluded paths that git quotes |
| `Mirror.DefaultRulesLeak` | crates/nas-cli/src/mirror.rs:128-135 | one such path under the default rules |
| `Mirror.IdentityRules` | crates/nas-cli/src/mirror.rs:652-690 | rules that match nothing in the history, and drop and filter nothing, publish every commit with its identities, message and parents in order, and with its own tree iff no path in it needs quoting |
| `Mirror.UnmappedIff` | crates/nas-cli/src/mirror.rs:667-681 | a commit is unmapped iff empties are dropped, every path of its tree is excluded as printed and no parent is mapped |
| `Mirror.EverythingPresentable` | crates/nas-cli/src/mirror.rs:667-690 | every name reachable from a published commit is the printed form of a listed commit's path and not excluded; when empties are dropped, none is an empty root or repeats its first parent's tree |
| `Mirror.CountsAddUp` | crates/nas-cli/src/mirror.rs:645-691 | kept plus dropped is the number of commits listed |
| `MirrorCommits.CountsMeaning` | crates/nas-cli/src/mirror.rs:645-691 | dropped counts exactly the commits left unmapped or given their first mapped parent's image, kept all the others |
| `Mirror.CopiedIff` | crates/nas-cli/src/mirror.rs:658-660 | a content is copied iff it is that of a listed commit's file whose printed path no rule matches |
| `Mirror.ParentsPublishedEarlier` | crates/nas-cli/src/mirror.rs:662-666 | every parent of a published commit is the image of a commit listed earlier |
| `Mirror.PublicHead` | crates/nas-cli/src/mirror.rs:692-704 | the public head is the image of private HEAD, and is absent exactly when nothing was mapped |
| `VaultRotation.OpenRepo.WriteVaultReplace` | crates/nas-cli/src/repo.rs:341-357 | passes through exactly the specified disk states and reports whether the name was replaced |
| `VaultRotation.OpenRepo.RotateConvergence` | crates/nas-cli/src/repo.rs:697-747 | memory, secret, disk states and answer are the specified ones; passphrase mode changes nothing |
| `VaultRotation.RotateSound` | crates/nas-cli/src/repo.rs:703-746 | whatever fails, every disk state on the way holds the complete old or the complete new vault, and memory ends in step with disk |
| `VaultRotation.RunSound` | crates/nas-cli/src/repo.rs:697-747 | over every run of rotations, failures, power losses and restarts vault.bin is complete, numbered without a gap, and a live process agrees with it |
| `VaultRotation.RunKeepsRest` | crates/nas-vault/src/vault.rs:210-237 | over every run the seed and the pinned peers stay what they were, on disk, in whatever power loss brings back and in memory |
| `VaultRotation.AnsweredIsDurable` | crates/nas-cli/src/repo.rs:740-746 | a rotation that answered appended exactly the next number with the new secret, and every generation and the rest of the vault survive every later failure and power loss |
| `VaultRotation.AnswersIff` | crates/nas-cli/src/repo.rs:253-262 | a rotation answers iff every step succeeds and no temporary is left over; a left-over one changes nothing |
| `VaultRotation.LeavesTmpIff` | crates/nas-cli/src/repo.rs:341-357 | a rotation leaves a temporary iff it made one, did not replace the name and could not remove it |
| `VaultRotation.TmpCanBeLeft` | crates/nas-cli/src/repo.rs:341-357 | power loss between creation and rename can leave the temporary, in a sound world |
| `VaultRotation.ClearedIff` | crates/nas-cli/src/repo.rs:253-262 | a left-over temporary is cleared by exactly two events: removal, or a power loss that takes it along |
| `VaultRotation.RefusedUntilCleared` | crates/nas-cli/src/repo.rs:341-357 | over every run without such an event the temporary stays, every rotation fails and changes nothing, and vault.bin names only what it already might |
| `VaultRotation.AnswerNeedsClearing` | crates/nas-cli/src/repo.rs:341-357 | over every run a rotation that answers comes after an event that cleared the temporary |
| `VaultRotation.FailureRollsBack` | crates/nas-cli/src/repo.rs:703-739 | a rotation that did not replace the name leaves memory and disk name as they were |
| `Http.HeaderEndPrefix` | crates/nas-gateway/src/http1.rs:117-119 | a blank line is found in a prefix of the stream exactly once it has arrived, and at the same place |
| `Http.DecodePath` | crates/nas-gateway/src/http1.rs:152-170 | the index loop computes the percent-decoding, plus-signed pairs included |
| `HttpText.HexByteIff` | crates/nas-gateway/src/http1.rs:152-170 | an escape is two hexadecimal digits of either case, or a plus sign and one |
| `Http.ReadHead` | crates/nas-gateway/src/http1.rs:66-91 | the header loop computes the specified head or its first error |
| `Http.ReadRequest` | crates/nas-gateway/src/http1.rs:47-115 | both read loops compute the specified result of this sequence of reads |
| `Http.ReaderRefinesParser` | crates/nas-gateway/src/http1.rs:47-115 | if the header block ends within the cap, every split gives the pure parser's answer: the same request with exactly Content-Length body octets, or the same refusal |
| `HttpText.ReadsHead` | crates/nas-gateway/src/http1.rs:66-91 | the head of every written request reads back as its method, decoded path, query and header map, and is refused exactly for announcing a body beyond the cap or a length beyond u64 |
| `HttpText.RequestLineIff` | crates/nas-gateway/src/http1.rs:128-138 | a request line is two words apart by one blank, and perhaps more, in valid text |
| `HttpText.HeadersIff` | crates/nas-gateway/src/http1.rs:76-88 | header lines are taken iff each is blank or valid text with a colon |
| `HttpText.HeadersMeaning` | crates/nas-gateway/src/http1.rs:76-88 | each header has the trimmed value its last line gives it, names knowing no case |
| `HttpText.ReadNumber` | crates/nas-gateway/src/http1.rs:80-83 | a length is read from its digits, a plus sign allowed |
| `HttpText.CutShortIsRefused` | crates/nas-gateway/src/http1.rs:50-115 | a written request cut short anywhere is refused for how the stream ended |
| `HttpText.WrittenIsRead` | crates/nas-gateway/src/http1.rs:47-115 | every written request within the cap, followed by anything and split in any way, is read as exactly what it says |
| `Http.ReaderWithoutHeader` | crates/nas-gateway/src/http1.rs:50-65 | without a blank line the refusal is of one kind however split, and equal up to the cap |
| `Http.ReaderRefusesOverrun` | crates/nas-gateway/src/http1.rs:50-65 | more than one read past the cap it is always refused |
| `Http.SplitMattersPastCap` | crates/nas-gateway/src/http1.rs:50-65 | between, the same stream is refused in one split and parsed in another |
| `CanonicalQuery.UriEncode` | crates/nas-gateway/src/sigv4.rs:104-119 | the loop computes the percent-encoding |
| `CanonicalQuery.EncodedOctet` | crates/nas-gateway/src/sigv4.rs:104-119 | which octets stay as they are, and the two upper-case digits every other becomes |
| `CanonicalQuery.DecodeOfEncode` | crates/nas-gateway/src/sigv4.rs:104-119 | percent-decoding undoes percent-encoding for every octet string |
| `CanonicalQuery.OrderDoesNotMatter` | crates/nas-gateway/src/sigv4.rs:185-211 | reordered parameters and empty pieces give one canonical query |
| `CanonicalQuery.CanonicalIdempotent` | crates/nas-gateway/src/sigv4.rs:190-215 | the canonical query of a canonical query is itself |
| `CanonicalQuery.CanonicalOfForm` | crates/nas-gateway/src/sigv4.rs:185-215 | of the parameters a form wrote, plus signs included, the canonical query is every name and value percent-encoded, in order of names and then of values |
| `SigV4.HexRoundTrip` | crates/nas-gateway/src/hmac.rs:30-38 | hex decoding undoes hex encoding, which emits lower-case digits |
| `SigV4.ParseAuthorization` | crates/nas-gateway/src/sigv4.rs:225-259 | the loop over the parts computes the specified result or its first error |
| `SigV4.ParseOfFormat` | crates/nas-gateway/src/sigv4.rs:54-65 | the parser recovers the key id, date, region, header list and signature that were formatted, an empty list as one empty name |
| `SigV4.SameCanonical` | crates/nas-gateway/src/sigv4.rs:121-183 | the verifier's canonical request over the signer's list is the signer's canonical request |
| `SigV4.VerifyAcceptsSign` | crates/nas-gateway/src/sigv4.rs:261-281 | verify accepts the request carrying what sign produced for it, if that has an honest payload hash, a date and a covered header |
| `SigV4.VerdictOnSigned` | crates/nas-gateway/src/sigv4.rs:261-281 | the answer to every signed request, case by case: the payload error, the missing date, acceptance with a covered header, and without one BadSignature iff the two canonical requests and their strings to sign do not collide |
| `SigMeaning.CanonicalMeaning` | crates/nas-gateway/src/sigv4.rs:164-183 | two canonical requests of single-line text are equal iff method, path, canonical query, names, the trimmed values these name and the payload line agree |
| `SigMeaning.CoveredNames` | crates/nas-gateway/src/sigv4.rs:126-137 | sign covers exactly the five usual headers that are there |
| `SigMeaning.DateMeaning` | crates/nas-gateway/src/sigv4.rs:85-87 | the date is x-amz-date, failing that date |
| `SigMeaning.AcceptedAgrees` | crates/nas-gateway/src/sigv4.rs:261-281 | what verify accepts on a signature made by sign agrees with what was signed in date, region and every covered field, or hashed or MACed strings collide |
| `SigMeaning.AcceptedIsInOrder` | crates/nas-gateway/src/sigv4.rs:261-281 | an accepted request names the access key, a date its credential's day begins, a payload line that is its body's hash or says there is none, and carries the signature over that |
| `SigMeaning.KeySeparates` | crates/nas-gateway/src/sigv4.rs:67-76 | a signing key is of one secret, one day and one region, or two inputs of the MAC meet |
| `SigMeaning.SameBody` | crates/nas-gateway/src/sigv4.rs:89-102 | one payload line means one body, unless it is left unsigned or the bodies collide |
| `SigV4.LawsCanBeMet` | crates/nas-gateway/src/sigv4.rs:225-259 | the laws assumed of trimming and lossy decoding are met by some operations |

## Left out

- RootBinding: assumes no list is longer than a u64 counts, which no vector is; the count hashed is truncated beyond that.
- RunSound: rotation numbers stay below u32::MAX, where the source's addition would overflow.
- VerdictOnSigned: the access key, region and date hold no comma or slash, which the Authorization syntax itself uses.
- AcceptedAgrees: methods and header values hold no line feed, which the HTTP reader never lets in; that a signature cannot be made without the secret is a property of HMAC, not of this code.
- WrittenIsRead: requests written in printable ASCII; other valid UTF-8 header text is parsed by the model but not written by it.
- Derive: failures of git itself are not modelled, beyond an unreadable commit and a submodule that cannot be copied.
- RestartLoadsTheTrail: a crash between writing a file and updating memory is not modelled, nor files someone else edits.
- PublicTree: public commits and trees are identified with their content, as git object names stand for it; git subprocesses, their failures and other settings of `core.quotePath` are not modelled.
- CanBeDriven: a device that stamped the request so late that its cooling-off would pass the last u64 second is excluded; it never approves.
- `publish_delete_approval` and the peer's stored approvals: an execution brings its own bundle, so they play no part in a verdict.
- `filter_msg`, rule parsing, dry-run receipts, secret scan and publish signing around `derive`.
- The slot chain, rosters, witnesses, handoffs, access lists and forks of the peer; hostile peer modes.
- Manifests, chunking, padding, the outbox fold, the vault's own container format, key derivation and randomness.
- Network transfer, command-line dispatch, drills, keychain, prompts, WebDAV and S3 response shapes.
- Byte-range requests, base64, duration and mode strings: easy or finite round trips.
