# Verification of the swarm platform's hard cores

Dafny models of the parts of this repository whose correctness is not visible from one
function, with proofs of what their documentation and tests promise. `dafny verify
dfyconfig.toml` checks everything.

| module | what it models |
|---|---|
| `Common`, `Ordering` | options, bytes, Python's string order and stable `sorted` |
| `Admission`, `LeaseLifecycle`, `LeaseOutcomes` | the admission transactions over capacity pools, and every transaction that touches a lease afterwards -- dispatch, fencing, reclaim, cancel, end: what each keeps, over whole runs, and what each leaves on the documents |
| `ModArith`, `Curve`, `Der`, `Ecdsa`, `TinyDomain` | P-256 ECDSA verification, against signing by section 6.4 of FIPS 186-4, and a small domain that meets its hypotheses |
| `ApprovalGate` | step 0 of the workspace job: the scrub, the approval check, the one `execve` |
| `Scheduling`, `Grouping`, `Sharding` | the UI tests' shards: union-find over a substring relation, longest-first placement |
| `PngFilter`, `Png` | the acceptance suite's PNG decoder |
| `Cidr`, `EgressPolicy`, `IngressPolicy` | the network-policy checker |
| `RunLock` | the contention benchmark's lock and clean-up |
| `Closure` | the packaging walks over files and packages |
| `Statistics`, `RegressionGate`, `Wilson`, `CacheTtl` | percentiles, pooled histograms, the regression gate, the Wilson interval and the cache price table |
| `BandTimer` | the band's one timer, over every interleaving of its handlers |
| `CiReuse` | reuse of a run's green jobs for the same tree |

Loops and in-place updates of the source are methods proved against functions; the theorems
are about the functions. Protocols are steps of a state machine, and a run is any sequence of
steps.

Where the code and its documentation part, the code is followed and a lemma says how:

- `LeaseLifecycle.CreatePoolConservesExactly`: a pool created while unreleased leases already hold
  units in it starts undercounted, and only then.
- `EgressPolicy.DnsOnlyAdmitsOnlyDns`: the exemption of DNS-only rules does not look at
  `endPort`; it is right exactly when no entry's range goes past 53.
- `EgressPolicy.ExposesExactly`: the check asks for one except entry around the overlap, so it
  misses nothing, and is right about every range exactly when wherever both halves of something
  inside the block are excepted one entry excepts it whole.
- `Statistics.NoBoundsAddUpExactly`: lines without any bound are not added; their total is the
  pool's exactly when no usable line before the last counted a sample.
- `Statistics.P95Bucket`: with samples and no bounds it raises IndexError, and only then.
- `Statistics.TargetNeedsItsBound`: the latency target fails when 200 is not a bound.
- `BandTimer.SessionEndIsOutlivedExactly`: the minute can start again after `session.end`, exactly
  when a handler in flight is switching the band on, has found it on and not settled its list
  read, or will ask a band that is on.
- `RunLock.PrefixesCollideExactly`, `RunLock.DashConfusesRuns`: a clean-up handed another run's
  leases can take them for its own, exactly when one run's prefix begins the other's. `run` itself
  makes ids without dashes and hands over only its own leases, so only a direct call meets this.
- `Sharding.EmptyShardExactly`: recorded times of zero can leave a shard without files.
- `Wilson.IntervalHoldsRate`: the clamps to 0 and 1 never change anything.

## Model

| member | source | states |
|---|---|---|
| `Admission.PoolNamesDistinct` | apps/common/swarm_common/models.py:96-128 | the pools a task must hold at once are pairwise distinct, so raising them name by name raises each once |
| `Admission.Pool.EffectiveLimit` | apps/common/swarm_common/models.py:73-82 | the greatest number that the hard limit and, where set, the adaptive target and the quota all allow, floored at 0; unknown without a hard limit |
| `Admission.EvaluateCapacity` | apps/common/swarm_common/admission.py:99-145 | the blockers reported are exactly those of the pools without room for every share asked, in pool order; a missing pool is unlimited |
| `Admission.Store.AcquireLease` | apps/common/swarm_common/admission.py:272-323 | the documents and the outcome after the transaction are those of the reference admission, denials included |
| `Admission.Store.AcquireLeases` | apps/common/swarm_common/admission.py:336-437 | a batch that reads everything once and writes each pool once leaves exactly what running the single transaction request by request leaves, with the same outcomes |
| `Admission.Store.ReleaseLease` | apps/common/swarm_common/admission.py:440-486 | the documents and the answer after the transaction are those of the reference release |
| `Admission.AddSharesReserves` | apps/common/swarm_common/admission.py:336-437 | the batch's in-place additions are the single transaction's reservation |
| `Admission.PoolsWritten` | apps/common/swarm_common/admission.py:336-437 | writing each changed pool once at the end equals writing it after every admission |
| `LeaseLifecycle.AdmitsExactly` | apps/common/swarm_common/admission.py:272-323 | a task is admitted exactly when it is READY, no cancel is pressed and every configured pool has room for its share |
| `LeaseLifecycle.AllOrNothing` | apps/common/swarm_common/admission.py:228-323 | a denial writes nothing; an admission raises every configured pool it needs by its share and touches nothing else |
| `LeaseLifecycle.CapacityIsEnteredByAdmission` | apps/common/swarm_common/states.py:65-142 | of the allowed transitions exactly those one step forward from READY to RUNNING lead to a state that holds capacity; only FAILED is left of the terminal states |
| `LeaseLifecycle.AdmissionWithinLimit` | apps/common/swarm_common/models.py:74-95 | no admission takes a pool past its hard limit, nor past the adaptive target or the quota's limit where one is set |
| `LeaseLifecycle.AcquireConserves` | apps/common/swarm_common/admission.py:272-323 | every pool's count still equals what its unreleased leases hold |
| `LeaseLifecycle.ReleaseConserves` | apps/common/swarm_common/admission.py:440-486 | the same for a release, whose clip at zero never bites |
| `LeaseLifecycle.ReleaseUndoesAdmission` | apps/common/swarm_common/admission.py:440-486 | releasing an admitted lease restores every pool's count |
| `LeaseLifecycle.ReleaseIsIdempotent` | apps/common/swarm_common/admission.py:440-486 | a second release changes nothing |
| `LeaseLifecycle.LastSlotHasOneWinner` | apps/common/swarm_common/admission.py:99-145 | of two requests racing for the last room of a shared pool exactly the first to commit is admitted |
| `LeaseLifecycle.CreatePoolConservesExactly` | apps/quota-broker/quota_broker/service.py:829-880 | a pool document created at zero keeps the counts exact if and only if the unreleased leases hold no units in it |
| `LeaseLifecycle.PoolMadeUnderALeaseUndercounts` | apps/quota-broker/quota_broker/service.py:829-880 | a pool created under a lease undercounts after its release and then admits a second holder |
| `LeaseLifecycle.UndercountHappens` | apps/quota-broker/quota_broker/service.py:829-880 | it happens: two READY tasks of one provider, the pool made after the first is admitted |
| `LeaseLifecycle.StepKeepsInv` | apps/reconciler/reconciler/store.py:1646-1866 | every transaction of the model, unguarded releases among them, keeps the counts exact, every unreleased lease its task's current one, and generations growing; a repair must not leave behind a lease that stays held, nor a pool be made under held units |
| `LeaseLifecycle.ReclaimKeeps` | apps/reconciler/reconciler/store.py:1646-1866 | the one-transaction fence, release and repair keeps the invariant, guarded or not, whenever the lease the repair expects is released or the one released with it |
| `LeaseLifecycle.ReleaseAloneKeeps` | apps/reconciler/reconciler/store.py:1292-1330 | a release on its own keeps it, whoever asks: the worker, the scheduler or the reconciler |
| `LeaseLifecycle.DispatchFailedKeeps` | apps/scheduler/scheduler/store.py:1512-1600 | settling a failed dispatch keeps it, whatever raced it |
| `LeaseLifecycle.EndKeeps` | apps/agent-worker/agent_worker/control.py:2396-2475 | a worker's end and release in one commit keeps it |
| `LeaseLifecycle.CancelUnattendedKeeps` | apps/swarm-api/swarm_api/store.py:1640-1690 | a cancel with no worker to act on it keeps it |
| `LeaseLifecycle.FreshStore` | apps/common/swarm_common/models.py:47-95 | a store without leases satisfies the invariant: where runs begin |
| `LeaseLifecycle.HeldNeverExceedsLimit` | apps/common/swarm_common/models.py:47-95 | over every run: what unreleased leases hold in a pool is what it counts, and no more than each of its limits while none is set below the count |
| `LeaseLifecycle.OverfullOnlyDrains` | apps/common/swarm_common/models.py:74-95 | limits lowered below what is held included: until a pool's limits are set again, what is held in it grows only to what every one of them allows |
| `LeaseLifecycle.StepFits` | apps/common/swarm_common/models.py:74-95 | no step but a limit's own takes a count above the larger of what it was and the limit, and setting limits leaves the count alone |
| `LeaseLifecycle.OnlyRunningTasksHold` | apps/common/swarm_common/states.py:65-142 | over every run: a lease is held only by a task in a capacity state, and a task holds at most one |
| `LeaseLifecycle.FencedNeverWrites` | apps/agent-worker/agent_worker/control.py:617-654 | once a task's generation has passed an attempt, that attempt never writes it again, nor is its dispatch recorded, in any continuation |
| `LeaseLifecycle.FenceIsFinal` | apps/reconciler/reconciler/store.py:1251-1291 | after a fence that found the generation it expected, in whatever state short of a terminal one, that attempt never owns or writes the task again |
| `LeaseLifecycle.GuardedReclaimFreesNothingHeld` | apps/reconciler/reconciler/store.py:1341-1356 | the guarded reclaim never releases a lease whose attempt still owns the task |
| `LeaseOutcomes.TakesExactly` | apps/common/swarm_common/models.py:96-143 | which pools a task takes from and what: its units in five, one session in its provider's and its tenant's share of that |
| `LeaseOutcomes.AdmittedExactly` | apps/common/swarm_common/admission.py:272-323 | admitted exactly when READY, not being cancelled, and every configured pool has room for what is taken there |
| `LeaseOutcomes.AdmissionLeaves` | apps/common/swarm_common/admission.py:165-225 | the task LEASED under a new unreleased lease of the next generation, one more attempt, and no other task or lease touched |
| `LeaseOutcomes.AdmissionTakes` | apps/common/swarm_common/admission.py:300-323 | the lease records what it takes in each pool, and the pools that exist rise by just that |
| `LeaseOutcomes.DenialSaysWhy` | apps/common/swarm_common/admission.py:99-163 | a denial names the missing task, its state, the pressed cancel, or exactly the pools that hold the task back with their reasons |
| `LeaseOutcomes.ReleaseLeaves` | apps/common/swarm_common/admission.py:440-486 | an unreleased lease is released and each of its pools gets back what it recorded, or its units where it recorded nothing; anything else stays |
| `LeaseOutcomes.EnteredFrom` | apps/common/swarm_common/states.py:65-142 | the state machine read by where it leads: from which states each one may be entered |
| `LeaseOutcomes.ReclaimLeaves` | apps/reconciler/reconciler/store.py:1646-1866 | a refused reclaim moves the generation at most; any other frees the lease, and the task is in the repair's state under no lease exactly when it is not terminal, on no lease or the expected one, and may go there |
| `LeaseOutcomes.ReclaimedRunsAgain` | apps/reconciler/reconciler/store.py:1646-1866 | a task reclaimed to READY is owned by no old attempt and is admitted again once its pools have room |
| `LeaseOutcomes.AttemptLeaves` | apps/agent-worker/agent_worker/control.py:2396-2475 | a worker's move or end is written exactly while its attempt owns the task; an end frees the lease in the same commit |
| `LeaseOutcomes.DispatchFailedLeaves` | apps/scheduler/scheduler/store.py:1512-1600 | when a failed dispatch moves the task on and when it frees the lease, whatever raced it |
| `LeaseOutcomes.CancelUnattendedLeaves` | apps/swarm-api/swarm_api/store.py:1640-1690 | released, fenced and CANCELLED at once, or nothing |
| `LeaseOutcomes.ReleaseOrphanLeaves` | apps/reconciler/reconciler/store.py:1292-1356 | the guarded release is refused exactly while the task the lease names holds it |
| `LeaseOutcomes.MarkDispatchedLeaves` | apps/scheduler/scheduler/store.py:1068-1143 | DISPATCHED is recorded only of a task as its admission left it |
| `LeaseOutcomes.SingleWritesLeave` | apps/reconciler/reconciler/store.py:1100-1251 | what submissions, moves that hold nothing, pressed cancels, fences and limits set write |
| `Curve.AddStaysOnCurve` | images/workspace-apply/entry.py:244-262 | for every prime modulus and any two in-range points of the curve, addition inverts only invertible elements and gives the identity or a point of the curve |
| `Curve.AddIsChordAndTangent` | images/workspace-apply/entry.py:244-262 | addition is the chord-and-tangent law: its result is the one point that satisfies the equations of the line through the two points and of its third meeting with the curve, mirrored |
| `Curve.SameXIsOpposite` | images/workspace-apply/entry.py:249-262 | two points over one x are equal or opposite, so the chord branch never divides by zero |
| `Curve.Multiply` | images/workspace-apply/entry.py:265-273 | double-and-add stays on the curve, and equals k-fold addition given the group law |
| `Curve.MultiplesAddUp` | images/workspace-apply/entry.py:265-273 | multiples of a point add as their multipliers do |
| `Curve.MultipleModulo` | images/workspace-apply/entry.py:314-332 | with n-fold addition giving the identity only the multiplier modulo n matters |
| `Curve.NoSmallerOrder` | images/workspace-apply/entry.py:314-332 | a point of prime order n has no smaller order |
| `ModArith.EuclidLemma` | images/workspace-apply/entry.py:249-262 | a prime that divides a product divides a factor: what addition's inverses rest on |
| `ModArith.Inverse` | images/workspace-apply/entry.py:249-262 | `pow(x, -1, m)`: in range and inverse to x whenever there is one |
| `ModArith.PrimeInverse` | images/workspace-apply/entry.py:249-262 | modulo a prime everything it does not divide has an inverse |
| `ModArith.InverseIs` | images/workspace-apply/entry.py:249-262 | modulo a prime there is one inverse, so whatever behaves as it is the one given |
| `Der.ReadExactly` | images/workspace-apply/entry.py:276-290 | the reader accepts exactly the three length forms, at any offset, and returns the contents and where the element ends |
| `Der.ReadUndoesWrite` | images/workspace-apply/entry.py:276-290 | the reader undoes the DER writer wherever the element stands |
| `Der.SignatureReadExactly` | images/workspace-apply/entry.py:314-326 | bytes read as (r, s) exactly when they are a sequence of two encoded unsigned integers and nothing more |
| `Der.SignatureRoundTrip` | images/workspace-apply/entry.py:314-326 | the written signature reads back, for every r and s of up to 32 bytes |
| `Ecdsa.P256Verify` | images/workspace-apply/entry.py:314-332 | the verifier's answer, computed with double-and-add, is the reference decision on every input |
| `Ecdsa.AcceptedExactly` | images/workspace-apply/entry.py:314-332 | a signature is accepted exactly when some per-message number makes it with the private key: soundness and completeness against section 6.4 of FIPS 186-4 |
| `Ecdsa.SignedIsAccepted` | images/workspace-apply/entry.py:314-332 | a signature made and encoded by the book is accepted |
| `Ecdsa.NonceGivesPoint` | images/workspace-apply/entry.py:314-332 | every per-message number gives a point, so the signer's r exists |
| `Ecdsa.P256Constants` | images/workspace-apply/entry.py:233-238 | the written generator is on the written curve, and the moduli fit 32 bytes |
| `Ecdsa.KeyReadsBack` | images/workspace-apply/entry.py:293-311 | a SubjectPublicKeyInfo of a point of the curve reads back as that point |
| `Ecdsa.KeyReadExactly` | images/workspace-apply/entry.py:293-311 | bytes read as a key exactly when they are a sequence of the two object identifiers and the bit string of an uncompressed point of the curve |
| `Ecdsa.PublicKey` | images/workspace-apply/entry.py:293-311 | a key that reads is a point of the curve |
| `TinyDomain.TinyIsGood` | images/workspace-apply/entry.py:233-273 | the hypotheses of the signature theorems can be met: a curve of five points over the integers modulo 5, chords, tangents and all |
| `ApprovalGate.Process.Plan` | images/workspace-apply/entry.py:616-714 | the environment is empty afterwards whatever is decided, and the plan is the reference plan of the environment before |
| `ApprovalGate.Process.Gate` | images/workspace-apply/entry.py:577-605 | the pin, the refusal or the stop, and the writes made, are the reference gate's |
| `ApprovalGate.Process.Run` | images/workspace-apply/entry.py:717-750 | the exit code and everything done are the reference run's |
| `ApprovalGate.ExecutesExactly` | images/workspace-apply/entry.py:577-605 | the next program runs exactly when the plan holds, one record of the workspace is found, and it verifies if it is a group's or a service's whose decision approved it; the run then does that one thing, with a pin of the record's fields |
| `ApprovalGate.GatedExactly` | images/workspace-apply/entry.py:586-592 | which records must be signed, by their fields |
| `ApprovalGate.StopsForOwnerExactly` | images/workspace-apply/entry.py:542-605 | a found record of kind group or service, decided approved, that does not verify leads to one conditional write attempt that says why, and to no execution; no other found record leads to a write |
| `ApprovalGate.VerifiedIsPinned` | images/workspace-apply/entry.py:375-383 | the pin of a verified record names the workspace, tenant, kind and principal of the signed payload |
| `ApprovalGate.PayloadExactly` | images/workspace-apply/entry.py:387-432 | a payload is taken from a record exactly when it says what the record says, no part of it empty |
| `ApprovalGate.VerifiesExactly` | images/workspace-apply/entry.py:451-484 | a record verifies exactly when a trusted, given key accepts the signature it carries over what it says |
| `ApprovalGate.ReasonHolds` | images/workspace-apply/entry.py:387-484 | the reason written down is one that holds of the record |
| `ApprovalGate.VerifiedWasSigned` | images/workspace-apply/entry.py:451-477 | what verification accepts was signed with the private key of a trusted, given version, over a payload that says what the record says |
| `ApprovalGate.SignedIsVerified` | images/workspace-apply/entry.py:451-477 | a properly signed approval of the record as it stands verifies |
| `ApprovalGate.PlansExactly` | images/workspace-apply/entry.py:616-714 | a plan is made exactly when every argument and variable passes its check, the verify keys are those the command pins and the signing key is of the project the metadata server names |
| `ApprovalGate.PlannedArguments` | images/workspace-apply/entry.py:616-714 | what is executed is the fixed command with the workspace and mode asked for, in an environment of eleven fixed names, with the key and versions the command and the job gave |
| `ApprovalGate.OnlyFourNamesMatter` | images/workspace-apply/entry.py:616-714 | two environments that agree on the four names lead to the same exit code, writes, program, arguments and environment up to the scratch directory |
| `Scheduling.GreedyWithinLargest` | scripts/lib/ui_shards.py:145-152 | the heaviest shard is at most total/m + (1 - 1/m) of the largest unit, for all non-negative weights |
| `Scheduling.LongestFirstWithinFourThirds` | scripts/lib/ui_shards.py:145-152 | it is at most (4/3 - 1/(3m)) times the heaviest shard of every other assignment |
| `Scheduling.NoShardEmptyExactly` | scripts/lib/ui_shards.py:145-152 | longest-first leaves no shard empty exactly when there are positive units for all the shards, or for all but one with a zero unit left |
| `Scheduling.LoadsAddUp` | scripts/lib/ui_shards.py:145-152 | the shards' loads add up to the weights |
| `Grouping.FindRoot` | scripts/lib/ui_shards.py:112-115 | root search terminates and ends at the root: parents go strictly down in string order |
| `Grouping.FilterMatchesExactly` | scripts/lib/ui_shards.py:107-119 | the filter matches when the lower-cased path holds the lower-cased argument anywhere |
| `Grouping.MergeAll` | scripts/lib/ui_shards.py:117-123 | after the nested loops every file is connected to its root and every link is merged |
| `Grouping.RootsAreComponents` | scripts/lib/ui_shards.py:107-127 | two files share a root exactly when they are connected |
| `Grouping.RootIsSmallest` | scripts/lib/ui_shards.py:117-123 | the root is a member of its component and its smallest path |
| `Grouping.Units` | scripts/lib/ui_shards.py:107-127 | the result is the sorted list of components |
| `Grouping.UnitsAreComponents` | scripts/lib/ui_shards.py:107-127 | the units hold every file once, none is empty, and two files share one exactly when they are connected |
| `Sharding.Split` | scripts/lib/ui_shards.py:145-152 | the parts and loads updated in place are those of longest-first placement, each part sorted |
| `Sharding.LightestShard` | scripts/lib/ui_shards.py:148-149 | the shard chosen is the lightest, the lowest-numbered on a tie |
| `Sharding.WeightExactly` | scripts/lib/ui_shards.py:137-138 | a unit weighs what its files do, 2.9 seconds where nothing is recorded |
| `Sharding.QueueOrder` | scripts/lib/ui_shards.py:147 | heavier units first, of equal ones the first in list order |
| `Sharding.PartIsSorted` | scripts/lib/ui_shards.py:152 | a shard's files are listed in order |
| `Ordering.StrExactly` | scripts/lib/ui_shards.py:121-152 | strings compare by code point at the first difference, a beginning before the whole |
| `Ordering.ListExactly` | scripts/lib/ui_shards.py:127-147 | lists compare path by path |
| `Ordering.SortIsStable` | scripts/lib/ui_shards.py:127-147 | sorting keeps the order of what the key does not tell apart |
| `Sharding.EveryFileOnce` | scripts/lib/ui_shards.py:107-152 | the shards together hold every test file exactly as often as it is listed |
| `Sharding.NoFilterCrossesShards` | scripts/lib/ui_shards.py:107-152 | no file's substring filter matches a file of another shard |
| `Sharding.SplitWithinLargest` | scripts/lib/ui_shards.py:145-152 | Graham's bound for the shards as split |
| `Sharding.SplitIsNearOptimal` | scripts/lib/ui_shards.py:145-152 | the 4/3 bound for the shards as split, against every assignment of the same units |
| `Sharding.ShardCount` | scripts/lib/ui_shards.py:141-142 | the least number of shards with at most 600 seconds each on average, between one and eight and never more than the units |
| `Sharding.Pick` | scripts/lib/ui_shards.py:177-194 | which exit is taken when, and the files handed over |
| `Sharding.EmptyShardExactly` | scripts/lib/ui_shards.py:177-188 | some shard is handed no file exactly when units with time are fewer than shards, not just one fewer with a zero unit left |
| `Sharding.NoShardIsEmpty` | scripts/lib/ui_shards.py:177-188 | with positive times and shards at most units the 'handed no vitest file' exit is unreachable |
| `Sharding.ZeroTimesLeaveAShardEmpty` | scripts/lib/ui_shards.py:177-188 | two units recorded at zero seconds leave a shard of two empty |
| `PngFilter.Paeth` | scripts/acceptance/pngcheck.py:81-90 | the predictor is one of the three neighbours, nearest to left + above - upper left |
| `PngFilter.PredictExactly` | scripts/acceptance/pngcheck.py:76-123 | the five predictions by what they are: nothing, the byte to the left, the byte above, half their sum rounded down, the nearest of three |
| `PngFilter.RowInverse` | scripts/acceptance/pngcheck.py:93-129 | for any predictor and any bytes per pixel undoing a row and filtering it are inverse, both ways round |
| `PngFilter.UndoRow` | scripts/acceptance/pngcheck.py:108-127 | the in-place loop computes the undone row; each byte of it differs from the filtered one by what its type predicts from the bytes before it |
| `PngFilter.UndoneRowExactly` | scripts/acceptance/pngcheck.py:93-129 | a row undoes to exactly the bytes that differ from it so, for each of the five types |
| `PngFilter.SubStartsLate` | scripts/acceptance/pngcheck.py:111-113 | the first pixel of a Sub row is left as it is, as the loop's start at bpp says |
| `PngFilter.Unfilter` | scripts/acceptance/pngcheck.py:93-129 | the row loop's buffer, or its error, is the reference undoing of the whole data |
| `PngFilter.UndoneExactly` | scripts/acceptance/pngcheck.py:93-129 | undoing gives an image exactly when the data's rows are that image's rows, each filtered as its type byte says |
| `PngFilter.UnfilteredExactly` | scripts/acceptance/pngcheck.py:93-129 | undoing gives an image exactly when the data is long enough and its rows are, byte by byte, filters of the rows of the image |
| `PngFilter.UnfilterFailsExactly` | scripts/acceptance/pngcheck.py:93-129 | it fails exactly on data too short, or at the first row of an unknown type |
| `PngFilter.UnfilterUndoesFilter` | scripts/acceptance/pngcheck.py:93-129 | undoing after filtering gives the image back for every size, bytes per pixel and per-row choice of type |
| `PngFilter.FewerRows` | scripts/acceptance/pngcheck.py:93-97 | undoing fewer rows gives exactly the top of the image |
| `Png.ReadChunks` | scripts/acceptance/pngcheck.py:141-160 | the chunk walk's result is the reference walk's, truncation and a malformed header included |
| `Png.Expand` | scripts/acceptance/pngcheck.py:184-212 | the expansion loops give the reference pixels, or the first pixel past the palette |
| `Png.ExpandsWhatWasWritten` | scripts/acceptance/pngcheck.py:184-212 | one pixel expands to a colour exactly when its bytes are what the colour type writes for that colour |
| `Png.ExpandsExactly` | scripts/acceptance/pngcheck.py:184-212 | the whole image likewise, for every colour type |
| `Png.ExpandFailsExactly` | scripts/acceptance/pngcheck.py:200-212 | expansion fails exactly at the first pixel whose entry the palette lacks |
| `Png.Decode` | scripts/acceptance/pngcheck.py:132-212 | decoding gives the reference image or the first error met |
| `Png.LimitGivesTopRows` | scripts/acceptance/pngcheck.py:132-212 | whenever the whole image decodes, decoding with a row limit gives exactly its top rows |
| `Png.WalkGathers` | scripts/acceptance/pngcheck.py:144-160 | the walk reads back exactly the chunks written |
| `Png.CutsDoNotMatter` | scripts/acceptance/pngcheck.py:144-160 | however the compressed stream is cut into IDAT chunks, the file decodes alike |
| `Png.DecodeUndoesEncode` | scripts/acceptance/pngcheck.py:132-212 | for every colour type, data whose rows are byte by byte filters of samples, compressed, cut anywhere and closed, decodes to an image exactly when the samples are what its pixels are written as under the file's palette and transparency |
| `Png.RendersExactly` | scripts/acceptance/pngcheck.py:161-212 | an image comes out exactly of chunks that are taken on, whose data inflates to filtered rows of samples written as its pixels, as many rows as the limit leaves |
| `Png.RefusalSays` | scripts/acceptance/pngcheck.py:161-212 | each refusal names what is wrong with the file |
| `Png.CutShort` | scripts/acceptance/pngcheck.py:144-160 | a chunk cut short in its body fails there; a missing checksum or a few bytes at the end do not |
| `Cidr.NestedOrDisjoint` | kubernetes/network_parity.py:429-433 | two blocks overlap exactly when they share an address, and then one is inside the other |
| `Cidr.SubnetExactly` | kubernetes/network_parity.py:429-435 | comparing first and last addresses is comparing prefixes |
| `Cidr.ContainsExactly` | kubernetes/network_parity.py:367-375 | a block with n open bits holds the 2^n addresses of its version from its first on |
| `Cidr.OverlapIsIntersection` | kubernetes/network_parity.py:432-433 | what the checker calls the overlap is the intersection |
| `Cidr.OneIsEnoughExactly` | kubernetes/network_parity.py:434-435 | for every block inside a given one, being covered means being covered by one entry, exactly when both halves of a block in there are entries only where one entry holds it whole |
| `Cidr.CoverIsOneExactly` | kubernetes/network_parity.py:434-435 | the same for every block there is; nested and repeated entries do no harm |
| `Cidr.CollapsedCoverIsOne` | kubernetes/network_parity.py:434-435 | no list that `collapse_addresses` leaves alone needs two entries for one block |
| `EgressPolicy.CheckPolicy` | kubernetes/network_parity.py:378-441 | the check reports exactly the problems there are; an answer means the ranges were read, and the DNS addresses if there are rules; readable input always gets one |
| `EgressPolicy.Reaches` | kubernetes/network_parity.py:367-375 | a rule reaches an address exactly when some block holds it outside its excepts |
| `EgressPolicy.RangesAreIsolated` | kubernetes/network_parity.py:415-441 | after an empty answer no address of the pod or service range is reachable through an ipBlock of a rule that is not DNS-only |
| `EgressPolicy.ReportIsRight` | kubernetes/network_parity.py:428-440 | for one range the report is right exactly when the range misses the block or, for what they share, being covered means being covered by one entry |
| `EgressPolicy.DnsIsServed` | kubernetes/network_parity.py:401-412 | after an empty answer some rule reaches each DNS address and opens UDP 53 and TCP 53 |
| `EgressPolicy.AllowsExactly` | kubernetes/network_parity.py:350-356 | a rule allows a port exactly when it has no ports or an entry for it, TCP where no protocol is named |
| `EgressPolicy.LacksDnsExactly` | kubernetes/network_parity.py:401-412 | which DNS addresses are reported, by the ports of the rules that reach them |
| `EgressPolicy.DnsOnlyExactly` | kubernetes/network_parity.py:359-360 | which rules are exempt: all ports 53, of UDP or TCP |
| `EgressPolicy.BlocksExactly` | kubernetes/network_parity.py:363-364 | a rule's blocks are those of its peers that have one |
| `EgressPolicy.ExceptedExactly` | kubernetes/network_parity.py:415-421 | which ranges count as excepted from the internet |
| `EgressPolicy.RenderedForThis` | kubernetes/network_parity.py:384-399 | after an empty answer the annotations carry the cluster's four values and no offline render |
| `EgressPolicy.ExposesExactly` | kubernetes/network_parity.py:428-440 | for every range a reported exposure is a reachable address and the other way round, exactly when wherever both halves of something inside the block's cidr are excepted one entry excepts it whole |
| `EgressPolicy.HalvesAreReported` | kubernetes/network_parity.py:434-435 | where that fails: a range excepted half by half is reported and unreachable |
| `EgressPolicy.DnsOnlyAdmitsOnlyDns` | kubernetes/network_parity.py:350-360 | a rule exempted as DNS-only admits only UDP and TCP 53 exactly when no entry carries an `endPort` past 53, which the check does not read |
| `EgressPolicy.DnsOnlyHidesARange` | kubernetes/network_parity.py:350-360 | a DNS-only rule of UDP 53 to 60000 admits 443 |
| `EgressPolicy.OnlyDnsEntersTheRanges` | kubernetes/network_parity.py:378-441 | both together: the only traffic ipBlocks let into the ranges is DNS |
| `IngressPolicy.RulesAdmitOnly` | kubernetes/network_parity.py:185-206 | no problem is reported exactly when every rule is TCP 8080 with only allowed peers |
| `IngressPolicy.CheckLiveIngress` | kubernetes/network_parity.py:225-248 | the exact condition of the relay check's empty answer |
| `IngressPolicy.NamesExactly` | kubernetes/network_parity.py:244-247 | a wanted peer is missing exactly when no rule has it |
| `IngressPolicy.RelayAdmitsExactly` | kubernetes/network_parity.py:225-248 | it fixes the traffic: labelled tenant pods and swarm-api's range on TCP 8080, however the rules are grouped |
| `IngressPolicy.CheckGraphIngress` | kubernetes/network_parity.py:251-281 | empty exactly when the metadata is right and the rules are a permutation of the expected three |
| `IngressPolicy.GraphAdmitsExactly` | kubernetes/network_parity.py:251-281 | it fixes the traffic: tenants on 8080, swarm-api's range and the graph pods on 8081 |
| `IngressPolicy.CheckJevEgressIngress` | kubernetes/network_parity.py:284-336 | empty exactly when the metadata is right and the rules are a permutation of the expected two; the ipBlock messages add nothing to the condition |
| `IngressPolicy.JevAdmitsExactly` | kubernetes/network_parity.py:284-336 | it fixes the traffic: judging pods and swarm-api's range on TCP 8443 |
| `IngressPolicy.PeersSelect` | kubernetes/network_parity.py:118-175 | whom each expected peer selects, pods by their namespaces' and their own labels |
| `IngressPolicy.RelayTraffic` | kubernetes/network_parity.py:225-248 | after the relay's empty answer exactly live-enabled tenant pods and swarm-api's range come in, on TCP 8080 |
| `IngressPolicy.GraphTraffic` | kubernetes/network_parity.py:251-281 | the graph service's: any tenant pod on TCP 8080, swarm-api's range and its own pods on TCP 8081 |
| `IngressPolicy.JevTraffic` | kubernetes/network_parity.py:284-336 | the forwarder's: judging tenant pods and swarm-api's range on TCP 8443 |
| `IngressPolicy.MetadataExactly` | kubernetes/network_parity.py:232-243 | each is a policy of swarm-system for ingress over the pods of its name |
| `IngressPolicy.RecordsExactly` | kubernetes/network_parity.py:235-237 | the relay's policy carries the range it was rendered for |
| `RunLock.AtMostOneHolds` | scripts/bench_contention.py:548-583 | over every interleaving of runs with distinct ids, with no lock-breaking and holders releasing before the stale limit of the time they wrote, at most one run holds the lock |
| `RunLock.OvertakesExactly` | scripts/bench_contention.py:555-568 | while a run holds the lock another takes it exactly when it breaks locks or read its clock the stale limit later |
| `RunLock.RefusedExactly` | scripts/bench_contention.py:548-570 | a ready run takes a lock that is free, broken or 3600 seconds old, and is refused by any other |
| `RunLock.LateHolderOverlaps` | scripts/bench_contention.py:555-568 | a run that outlives the limit overlaps the next |
| `RunLock.ReleaseSparesOthers` | scripts/bench_contention.py:573-583 | with takeover and breaking allowed, a lock stands until its own run releases or another take wins |
| `RunLock.ReleaseFrees` | scripts/bench_contention.py:572-583 | a release by the run that holds leaves the lock free for the next |
| `RunLock.DeadHolderIsReplaced` | scripts/bench_contention.py:555-583 | whatever other runs do in between, the lock of a holder that never releases falls to any run that starts once it is stale and takes it before another does |
| `RunLock.Database.Cleanup` | scripts/bench_contention.py:586-616 | exactly the listed documents this run wrote are deleted, in batches; the count is their number when none is listed twice |
| `RunLock.MineExactly` | scripts/bench_contention.py:599-605 | the run's documents are those with its id and the leases of its tasks |
| `RunLock.PrefixTellsRunsApart` | scripts/bench_contention.py:599-605 | a task id's prefix names its run alone when run ids hold no dash |
| `RunLock.PrefixesCollideExactly` | scripts/bench_contention.py:599-605 | some task id of another run begins with this run's prefix exactly when one of the two prefixes begins the other |
| `RunLock.DashConfusesRuns` | scripts/bench_contention.py:599-605 | a clean-up of run "a" that is handed a lease of run "a-b" deletes it |
| `Closure.Walk` | scripts/gstack_packaging_measure.py:362-383 | whichever file is popped, the walk ends with the least closed set, origins for every file, the packages needed and every stop at a file it does not reach |
| `Closure.Ancestry` | scripts/gstack_packaging_measure.py:341-346 | every reached file's parent links lead, without coming round, along real references to one of the skill's own files |
| `Closure.ChainLeadsBack` | scripts/gstack_packaging_measure.py:341-346 | the reported chain follows real references and, when shorter than twelve, ends at one of the skill's own files |
| `Closure.NothingCutIsReached` | scripts/gstack_packaging_measure.py:314-327 | beyond its own files a skill reaches no template, nothing only an install runs and no page of a skill that is not offered |
| `Closure.CutExactly` | scripts/gstack_packaging_measure.py:314-327 | what the walk stops at: templates, what only an install runs, pages of skills not offered |
| `Closure.LeafExactly` | scripts/gstack_packaging_measure.py:329-338 | what it keeps but does not follow: named markdown pages outside the offered skills |
| `Closure.WalkGoesOn` | scripts/gstack_packaging_measure.py:362-383 | from a reached file with text that is no leaf it goes on to all that is named and not cut |
| `Closure.ReachedThrough` | scripts/gstack_packaging_measure.py:362-383 | and everything beyond the own files is reached so |
| `Closure.UnionIsLeast` | scripts/gstack_packaging_measure.py:396-398 | what the skills reach together is the least closed set of all their own files, and the only one |
| `Closure.Packages` | scripts/gstack_packaging_measure.py:274-304 | the package walk gives the least closed set of installed packages, and exactly the names asked for but not installed |
| `Statistics.NearestRank` | scripts/benchstat.py:154-169 | the percentile is the sample that at least q % are at most and fewer than q % are below, and nothing else is |
| `Statistics.PercentileWithin` | scripts/benchstat.py:154-169 | the percentile is at most b exactly when q % of the samples are |
| `Statistics.PercentileMonotone` | scripts/benchstat.py:154-169 | samples made slower one by one lower no percentile |
| `Statistics.PooledHist` | scripts/live_report.py:287-300 | the loop's totals are the reference pooling's |
| `Statistics.PooledIsHistOfPool` | scripts/live_report.py:287-300 | adding histograms with equal bounds gives the histogram of the pooled samples |
| `Statistics.NoBoundsAddUpExactly` | scripts/live_report.py:287-300 | when no line names a bound, the total is the histogram of the pooled samples exactly when every usable line before the last usable one counts no sample |
| `Statistics.P95Bucket` | scripts/live_report.py:303-313 | the loop names the first bucket that reaches 95 %, by its bound or as past the last; it raises exactly when there are samples and no bounds |
| `Statistics.P95InBucket` | scripts/live_report.py:303-313 | for every sample list with those counts and at least one bound, the exact nearest-rank p95 lies in that bucket and no other |
| `Statistics.TargetIsExact` | scripts/live_report.py:376-403 | when 200 is a bound the target passes exactly when the exact p95 is at most 200 |
| `Statistics.TargetNeedsItsBound` | scripts/live_report.py:380-381 | when it is not, the target fails whatever the samples |
| `Statistics.TargetWithoutSamples` | scripts/live_report.py:376-403 | there is no verdict exactly when there is no sample |
| `RegressionGate.Summarize` | scripts/benchstat.py:226-263 | each metric's summary is that of its own values and missing count |
| `RegressionGate.SummaryExactly` | scripts/benchstat.py:172-199 | the figures of a summary: least and greatest sample, the nearest-rank 50th, 95th and 99th percentiles, the negative ones counted |
| `RegressionGate.EmptySummary` | scripts/benchstat.py:177-187 | without a sample there is no figure, only whether any was missing |
| `RegressionGate.Compare` | scripts/benchstat.py:456-606 | a verdict for every metric of either side, and as many failures counted as metrics that neither pass nor are new |
| `RegressionGate.PassesExactly` | scripts/benchstat.py:456-606 | a measured metric passes exactly when it meets its rule: no anomalies, enough samples, few enough missing, within the bound and within the ratio of the baseline |
| `RegressionGate.VerdictSays` | scripts/benchstat.py:456-606 | what each verdict says of the two measurements and the rule |
| `RegressionGate.PassingWasMeasured` | scripts/benchstat.py:456-606 | a passing verdict on a baseline metric was measured in this run, without anomalies and with enough samples |
| `RegressionGate.OkIsMeasured` | scripts/benchstat.py:172-199 | an ok summary is of at least one sample and its statistic is one of them |
| `RegressionGate.GateMonotone` | scripts/benchstat.py:456-606 | making non-negative samples slower never turns a failing metric into a passing one |
| `RegressionGate.EndToEndMonotone` | scripts/benchstat.py:226-263 | the same from raw samples through grouping and summarising to the verdict |
| `Wilson.ScoreInterval` | scripts/benchstat.py:828-839 | centre plus and minus half are exactly the proportions the score test accepts |
| `Wilson.IntervalExactly` | scripts/benchstat.py:828-839 | for k of n, at 1.959964 standard errors |
| `Wilson.IntervalHoldsRate` | scripts/benchstat.py:828-839 | 0 <= lo <= k/n <= hi <= 1, and the clamps never bite |
| `Wilson.RoundedIntervalHoldsRate` | scripts/benchstat.py:828-839 | the same after any order-keeping rounding |
| `Wilson.ReportedExactly` | scripts/benchstat.py:828-839 | what is reported is that interval rounded |
| `Wilson.NothingOfNothing` | scripts/benchstat.py:831-832 | of no attempt nothing is reported |
| `CacheTtl.PaysExactly` | scripts/benchstat.py:650-659 | with writes at 1.25 and 2 and break-even at 0.75 / (2 - r), the best 1-hour cost is at most the 5-minute cost exactly when the cross-attempt share reaches break-even |
| `CacheTtl.TallyWork` | scripts/benchstat.py:703-733 | the loops leave the reference tally of every profile |
| `CacheTtl.TotalsAddUp` | scripts/benchstat.py:703-733 | a profile's writes and reads are the sums over all attempts of its tasks, in whatever order they come, and every attempt is counted once, as reported or not |
| `CacheTtl.CrossAttemptExactly` | scripts/benchstat.py:703-733 | the cross-attempt writes are those of the attempts that started 5 to 60 minutes after the task's attempt before ended; attempts that wrote after an unknown gap are counted, as are tasks |
| `CacheTtl.OrderOfStarts` | scripts/benchstat.py:710-711 | a task's attempts are taken in order of their starts, those without one last |
| `CacheTtl.StartExactly` | scripts/benchstat.py:665-667 | an attempt starts when it says so, or else when it was made |
| `CacheTtl.SavableIsPart` | scripts/benchstat.py:703-733 | for non-negative token counts the cross-attempt writes lie between none and all of the writes, which are none when nothing was reported |
| `CacheTtl.NoteIsRight` | scripts/benchstat.py:735-770 | then the share is a proportion, and a row says 1 hour could pay exactly when there are writes and its best cost is no more |
| `CacheTtl.NegativeTotalTurnsRound` | scripts/benchstat.py:735-763 | a negative write total would turn the comparison round |
| `BandTimer.OneTimerOneRead` | plugin/hooks/pane.tsx:246-403 | for every interleaving at the awaits at most one timer is live, the one whose handle is kept, and at most one minute's read is in flight |
| `BandTimer.StepKeepsInv` | plugin/hooks/pane.tsx:246-403 | every step of every handler keeps that |
| `BandTimer.OffTickReadsNothing` | plugin/hooks/pane.tsx:379-403 | whatever the other handlers do, a tick that starts while the band is off never gets to its list read while it stays off, and the step that ends it leaves no timer live unless an await rejects |
| `BandTimer.ListSettles` | plugin/hooks/pane.tsx:354-364 | a list read of a band that is on ends with the timer running exactly when something runs |
| `BandTimer.ListWhileOff` | plugin/hooks/pane.tsx:354-356 | a list read of a band that is off leaves the timer as it is |
| `BandTimer.SwitchedOff` | plugin/hooks/pane.tsx:125-145 | a switch to rows or to the pane ends with the band off and no timer live |
| `BandTimer.SwitchedOn` | plugin/hooks/pane.tsx:335-338 | a switch to the band ends with it on and reading its list |
| `BandTimer.SwitchRefused` | plugin/hooks/pane.tsx:125-128 | a switch that is refused changes nothing |
| `BandTimer.FailedReadsWait` | plugin/hooks/pane.tsx:379-403 | a read that fails changes neither band nor timer and lets the next minute read |
| `BandTimer.TickReads` | plugin/hooks/pane.tsx:379-403 | a tick of a band that is on comes to its list read |
| `BandTimer.SessionEndIsOutlivedExactly` | plugin/hooks/pane.tsx:233-403 | after `session.end` some run of answers, rejections and timers alone leaves a timer live exactly when a handler in flight has found the band on and not settled its list read, is switching to the band, or with the band on is yet to ask whether it is (a press's or a switch's list read or a tick's) and does not switch it off first |
| `BandTimer.SessionEndCanBeOutlived` | plugin/hooks/pane.tsx:335-364 | reached from the start: a switch to the band whose store is in flight when the session ends goes on to its list read and starts the timer |
| `BandTimer.StaysStopped` | plugin/hooks/pane.tsx:233-403 | when no such handler is in flight, no answer, rejection or timer in any order starts it |
| `CiReuse.MatrixPassed` | scripts/lib/ci_reuse.py:141-158 | the loop's answer is the reference's |
| `CiReuse.MatrixExactly` | scripts/lib/ci_reuse.py:141-158 | a matrix passed exactly when, under a single N, every shard 1..N is there and succeeded, and there is no other |
| `CiReuse.GreenShardsAreAllGreen` | scripts/lib/ci_reuse.py:141-158 | when no shard is listed twice every job of the matrix succeeded |
| `CiReuse.PullRequestRefinesMain` | scripts/lib/ci_reuse.py:213-241 | any non-empty set a pull request may skip is the set main's rule gives for the same record, run and tree |
| `CiReuse.RulesAgreeOnLanes` | scripts/lib/ci_reuse.py:169-241 | the two rules differ only in the runs they look at |
| `CiReuse.SkippedExactly` | scripts/lib/ci_reuse.py:169-210 | a job is skipped exactly when the run is tied to the tree and the job is recorded as passed and green in the job list: alone of its name, or a matrix with every shard; unit shards only of the whole suite |
| `CiReuse.PullRequestSkipsExactly` | scripts/lib/ci_reuse.py:213-241 | for a pull request the run is a completed, green push of a lane with this tree |
| `CiReuse.JudgedExactly` | scripts/lib/ci_reuse.py:333-350 | which of the two rules an artifact is judged by, and when the tree of its run is asked for |
| `CiReuse.UsableExactly` | scripts/lib/ci_reuse.py:318-325 | the artifacts looked at |
| `CiReuse.ReusableJobs` | scripts/lib/ci_reuse.py:75-131 | the nine reusable jobs, which are matrices, and when a change reaches each |
| `CiReuse.ReusableKeys` | scripts/lib/ci_reuse.py:244-260 | a listed job is accepted exactly when it is one of the nine |
| `CiReuse.Find` | scripts/lib/ci_reuse.py:311-352 | all skips of one lookup come from the run of the one artifact cited, the newest of any use; an empty answer means every usable record was of no use |
| `CiReuse.Gate` | scripts/lib/ci_reuse.py:244-274 | the exact condition under which the gate reports no problem |

## Left out

- Curve.Multiply: equality with k-fold addition, and everything in `Ecdsa` and `ApprovalGate` that
  builds on it, takes the associativity of point addition as a hypothesis (`Curve.GroupLaw`);
  closure, invertibility and the order arguments are proved. That P-256's moduli are prime and its
  generator has order n are hypotheses too (`Ecdsa.Good`).
- Wilson.IntervalHoldsRate: over the reals, with the square root as any number whose square is
  right; floating-point rounding is not modelled, here or in any other statistic.
- CacheTtl.TallyWork: parsing of times and token counts, the prices in dollars and the cost without
  re-use are not modelled.
- EgressPolicy.CheckPolicy: which problems are reported, not their order or wording; parsing of
  address text is a parameter, and rules without a `to` peer or with pod selectors are outside the
  theorem about ipBlocks, as they are outside the check.
- IngressPolicy.CheckGraphIngress: rules are compared as the API types them; keys the NetworkPolicy
  type does not have are not modelled.
- LeaseLifecycle.StepKeepsInv: the guards that only refuse more (`only_from`, `unless_holding_lease`,
  a heartbeat that resumed) are not modelled. A reclaim whose task is gone, or whose lease names
  another task, is a release alone here (`ReleaseLease`, `ReleaseOrphan`). Attempt records, workflow
  copies, events and retry times are not part of the state.
- Admission.Store.AcquireLeases: read counts and quotas of Firestore, and its retries of a
  transaction, are not modelled; a transaction is one atomic step.
- ApprovalGate.Process.Run: regular expressions, JSON, base64, RFC 8785 canonical bytes, SHA-256,
  the metadata server, Firestore's answers and the clock are parameters; the access-token cache of
  `Cloud` and the messages printed are not modelled.
- Png.Decode: inflate is a parameter; chunk checksums are ignored, as the code ignores them. The
  sampled statistics of `analyse` and the blank verdict are not modelled.
- RunLock.AtMostOneHolds: a transaction is one atomic step; the benchmark's load generation and its
  result rows are not modelled.
- Closure.Walk: finding references in text, reading manifests and file sizes are functions of the
  site.
- RegressionGate.Compare: the merging of the thresholds file into one rule per metric is not
  modelled, nor are statistics other than the five of a summary; the order of verdicts is not
  either.
- BandTimer.OneTimerOneRead: rendering, toasts and the queued chat turns are not modelled, nor what
  the pane shows beyond whether anything in the list runs: a press that reads something else ends
  as one whose read failed, and awaits that touch neither the band nor the timer are one await.
- CiReuse.Find: GitHub's API, git and the shard's name pattern are parameters.
- kubernetes/render.py, the label and guard scripts, argument parsing, tables and report layout: they
  would add only easy members.
