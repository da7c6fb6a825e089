# What Heyarr's replicated state, credentials, space keys and streams promise

A Dafny model of five parts of the repository, with proofs of what they keep.

1. **The catalog op-log** (`internal/catalogop`, `internal/catalogtomb`): signed
   delete, restore and acquire ops that sites exchange, their evaluation into a view,
   and the store that keeps an append-only log next to a materialised table of
   tombstoned works. Modules `Dag`, `StringOrder`, `CatalogOp`, `CatalogEvaluate`,
   `CatalogLaws`, `TargetKeys`, `CatalogTomb`, `CatalogRuns`, `CatalogExamples`.
2. **Credentials** (`internal/auth`): the token's one spelling over unpadded base32,
   the table, and the verifier's cache, one call at a time and with every read and
   write of concurrent calls interleaved. Modules `Base32`, `Token`, `Credentials`,
   `TokenVerifier`, `VerifierRuns`, `VerifierExamples`.
3. **Space keys** (`internal/personalstate`, `internal/cli`): the controller's store
   of a space's key chain, rotations that race each other and every change of
   recipients, and the vault write that re-seals after a rotation. Modules
   `SpaceKeys`, `SpaceStore`, `Rotation`, `RotationRuns`, `RotationExamples`, `VaultWrite`.
4. **The cutover** (`internal/cli/space_rewrap_*.go`): which changes a staged key must
   open, and the framing and spelling of the stage's tag. Modules `Rewrap`, `StageMac`.
5. **Streams and pages** (`internal/client`, `internal/cli/events_cmd.go`,
   `internal/api/resources`): the frame reader against the event stream format of the
   HTML Living Standard, a tail that reconnects, what the server sends it of a growing and pruned
   log, and the pagination walk over a collection others are changing. Modules `Sse`,
   `SseStandard`, `SseText`, `EventTail`, `EventServer`, `Paging`.

Code that works by changing things is a method or a class here, proved against a
specification; the laws are lemmas about the specification. A map is walked in an
arbitrary order, so no result may depend on one. Where calls of several parties
interleave, a state machine (`CatalogRuns`, `VerifierRuns`, `RotationRuns`) takes its
steps from the same functions the methods are proved to compute, and the theorems are
about every run of it.

## Assumptions

- Distinct tokens have distinct digests (`Scheme.CollisionFree`, `Crypto.CollisionFree`).
  Judging a token is any function that yields an op under the token's own digest;
  `CatalogOp.VerifyIsFaithful` proves it of the model of `Verify` for every decoder.
- A stored secret hash verifies with the secret it was made from and no other
  (`Crypto.HashOf`). Generated credential ids, space keys and nonces never repeat.
- A sealed value opens only under what it was sealed under; sealing is symbolic.
- Each transaction is one step. Calls to the controller may fail before they take
  effect, never after: a reply is not lost.
- The tag's keyed hash is any function with 32-byte values.

## Where the code and its promises part

- **Content types holding 0x1f.** `internal/catalogop/catalogop.go:83-86` assumes there
  are none, and `Verify` does not check. A row under one is never lifted, because its
  key does not split back into it: `CatalogRuns.ReconcileAgreesIff` has the exact
  condition, and `CatalogExamples.RestoredButStuck` a run for every such work: deleted
  and restored, it stays tombstoned for good (`CatalogExamples.StuckRowReachable` has
  the tokens). Two such targets can share a key, and then which one the view names
  depends on map order: `CatalogLaws.TombstoneTargetsAmbiguous`, again exact.
- **Works written without consulting the tombstone.** The comment at
  `internal/catalogtomb/store.go:296-301` has every tombstoned target's live row
  removed. Targets already in the table are skipped (315-319), so a live row put under
  a standing tombstone survives every later reconciliation
  (`CatalogRuns.UnguardedWorkSurvives`). Two writers read no tombstone: a want that
  creates the work (`internal/api/resources/desired.go:806-811`) and a correction of a
  work's content type (`internal/api/resources/works.go:169-175`).
  `CatalogRuns.SuppressionBreaksIff` says that a transaction breaks suppression if and
  only if it is one of these onto a standing tombstone, and
  `CatalogExamples.CorrectedBackToLife` is a run in which a deleted work comes back by
  the same correction that preceded its deletion.
- **Racing revocations.** `Revoke` is meant to report a second revocation
  (`internal/auth/store.go:297-299`). Of two for one id, both report success if and
  only if each read the row before the other wrote it (`VerifierRuns.BothSucceedIff`,
  and from any state with two asked for, a run in
  `VerifierExamples.RacingRevokesBothSucceed`). One that starts after another
  has returned never does (`VerifierRuns.SecondRevocationReported`).
- **A cached credential whose principal is removed.** Deleting a principal takes its
  tokens (`internal/deviceauth/store.go:402-405`). A call answers what the cacheless code
  would, unless it hits the cache and the row was removed since it was loaded: then it
  accepts where that code finds nothing (`VerifierRuns.RunAnswersAsSlowIff`).
  `VerifierExamples.RemovedButAccepted` has such a run for every configuration and
  every credential.
- **A vault write that meets a rotation and a rival's write.** `vaultPutFresh` re-seals
  after the controller refuses its change. When a change under the newer key is already
  there, loading the drive fails first, and that failure is not retried.
  `VaultWrite.VaultPutFresh` says exactly when it ends so, in terms of what its calls
  meet; `VaultWrite.LoadFailsUnretried` makes the write against rivals that rotate and
  write between its upload and its load. Nothing is recorded in that case.
- **Rewinding.** `vaultPutFresh` rewinds only before its second attempt, so both seal
  the same plaintext if and only if the reader was handed over at its start or has
  nothing to read: the last clause of `VaultWrite.VaultPutFresh`. Every caller does hand
  it over there.
- **Changes stored without naming an epoch.** The controller takes them whatever key
  sealed them (`internal/personalstate/store/changes.go:37-39`). A revoked recipient can
  work out the key of one exactly when a copy of that key, or of a later epoch's, was
  made for it (`RotationRuns.DerivesIff`), as it does in the run of
  `RotationExamples.RevokedReadsUnconditional`; of one stored by naming the epoch, since
  the revocation, it never can (`RotationRuns.RevokedCannotReadLater`).
- **The event stream format.** The reader departs from the standard in these ways: a
  name given in a block without data is carried to the next frame; empty data lines
  before the first non-empty one are lost; a bare `data` or `event` line is passed over;
  a name loses all the spaces around it; and a carriage return of its own ends no line
  (`SseStandard.NameOutlivesItsBlock`, `LeadingEmptyDataIsLost`, `BareDataIsLost`,
  `BareEventIsIgnored`, `NameIsTrimmed`, `SseText.LoneReturnIsKept`). On every text in
  which each carriage return stands before a line feed, and whose lines and frames are
  within the size bound, `SseText.TextReadsAsStandardIff` is exact: the two agree if and
  only if no block with data shows one of the others. `SseStandard.ReadsPlainAsStandardIff` puts it
  more simply for lines where only the first two can occur. The server writes none of
  them (`EventServer.WrittenIsRegular`).
- **Cycles.** A staged key is verified by opening the changes nobody names as a parent.
  That covers the whole log, whichever the key, if and only if every change is one of
  these or in the past of one (`Rewrap.VerifiedAssuresIffUnderFrontier`), which an
  acyclic log meets. In a log of two changes that name each other a key that opens
  nothing is verified (`Rewrap.CycleIsNeverChecked`). Ids are content addresses, and
  such a log then cannot be built, but nothing on this path checks that they are
  (`internal/client/spaces.go:239-245` takes them as sent): it is an assumption.

## Model

| member | source | states |
|---|---|---|
| `Dag.FrontierCovers` | internal/catalogop/catalogop.go:802-820 | in an acyclic graph every present id is on the frontier or in the past of an id that is |
| `Dag.UncitedAdditionsUnreached` | internal/catalogtomb/store.go:225-245 | ids added without anything citing them change no walk that does not start at them |
| `StringOrder.LessIff` | internal/catalogop/catalogop.go:802-820 | strings are ordered by the first character they differ in, the end before any |
| `CatalogOp.VerifyIsFaithful` | internal/catalogop/catalogop.go:499-571 | whatever the decoder answers, an accepted token yields the op it names under its own hash |
| `CatalogOp.VerifyIff` | internal/catalogop/catalogop.go:499-571 | a token is accepted iff its payload has the required form, its signature holds and it is canonical, and the op says what the payload says; a bad signature is reported iff only that is wrong |
| `CatalogOp.NewerTransitive` | internal/catalogop/catalogop.go:765-772 | selection order is transitive |
| `CatalogOp.NewerTotal` | internal/catalogop/catalogop.go:765-772 | of two ops with different hashes exactly one is newer |
| `CatalogOp.LatestWins` | internal/catalogop/catalogop.go:744-772 | a key unbeaten under that order is held by the acquire selected last, of equals the one with the greater hash |
| `CatalogEvaluate.VerifyTokens` | internal/catalogop/catalogop.go:656-678 | pass 1 holds exactly the ops of the non-empty tokens that verify, and a reason against every other |
| `CatalogEvaluate.EvictUnresolved` | internal/catalogop/catalogop.go:680-700 | pass 2 ends, for every map order, with exactly the greatest prev-closed subset, the rest rejected as bad_prev |
| `CatalogEvaluate.GroupByTarget` | internal/catalogop/catalogop.go:702-726 | each key's group holds exactly the accepted deletes and restores of that key |
| `CatalogEvaluate.ClosureContains` | internal/catalogop/catalogop.go:778-801 | terminates on any graph, and finds a target iff a non-empty citation path leads to it |
| `CatalogEvaluate.DecideTombstones` | internal/catalogop/catalogop.go:727-742 | pass 3 tombstones exactly the keys with a delete in the past of no restore of the same key |
| `CatalogEvaluate.PickAcquisitions` | internal/catalogop/catalogop.go:744-760 | pass 4 holds a key iff some acquire of a live work has it, and under it the one selected last, of equals the one with the greater hash, whatever the map order |
| `CatalogEvaluate.Heads` | internal/catalogop/catalogop.go:802-820 | the accepted ops no accepted op cites, in hash order |
| `CatalogEvaluate.PrevForSigning` | internal/catalogop/catalogop.go:291-305 | an op cites the given heads, sorted, once each, or is not signed when there are more than 64 |
| `CatalogEvaluate.Evaluate` | internal/catalogop/catalogop.go:648-763 | the loops compute a view of the token set: each token is accepted or rejected for its one reason, no acquisition is of a tombstoned work and each is the latest, the heads are uncited |
| `CatalogOp.ViewRejects` | internal/catalogop/catalogop.go:656-700 | in every view a token is accepted with its own op, or rejected as a bad signature, malformed, or bad_prev, according to what verifying it says |
| `CatalogEvaluate.Merge` | internal/catalogop/catalogop.go:578-598 | each non-empty token of any set once, in hash order |
| `CatalogLaws.ViewDetermined` | internal/catalogop/catalogop.go:630-763 | two views of one token set agree on every field, on a tombstone's target whenever its key names one |
| `CatalogLaws.TombstoneTargetsAmbiguous` | internal/catalogop/catalogop.go:708-741 | the target filed under a key is independent of map order iff no two accepted targets share a tombstoned key |
| `CatalogLaws.AcquisitionsDetermined` | internal/catalogop/catalogop.go:744-772 | the effective acquisition of a key is unique |
| `CatalogLaws.EvaluateReadsTheSet` | internal/catalogop/catalogop.go:648-678 | order, duplicates and empty tokens change no view |
| `CatalogLaws.MergeDetermined` | internal/catalogop/catalogop.go:573-598 | a merge is a function of the token set |
| `CatalogLaws.MergeCommutative` | internal/catalogop/catalogop.go:573-598 | merging in either order gives the same sequence |
| `CatalogLaws.MergeAssociative` | internal/catalogop/catalogop.go:573-598 | merging in any grouping gives the same sequence |
| `CatalogLaws.MergeIdempotent` | internal/catalogop/catalogop.go:573-598 | merging a log with itself adds nothing |
| `CatalogLaws.MergeThenEvaluate` | internal/catalogop/catalogop.go:573-763 | evaluating a merge is evaluating both logs together |
| `CatalogLaws.AcceptedIffPastPresent` | internal/catalogop/catalogop.go:680-700 | an op stands iff its whole causal past is present |
| `CatalogLaws.AcceptedGrows` | internal/catalogop/catalogop.go:680-700 | more ops never un-accept one |
| `CatalogLaws.UncitedAcquiresInert` | internal/catalogtomb/store.go:225-245 | uncited acquires complete no held restore and change no tombstone |
| `CatalogLaws.RestoreAtFrontierLifts` | internal/catalogop/catalogop.go:608-647 | a restore citing the heads of an acyclic log lifts its target and changes no other |
| `CatalogLaws.FreshDeleteWins` | internal/catalogop/catalogop.go:640-647 | an accepted delete nothing cites tombstones its target and changes no other |
| `TargetKeys.Split` | internal/catalogtomb/store.go:414-423 | the loop cuts at the first separator |
| `TargetKeys.SplitInvertsKey` | internal/catalogtomb/store.go:414-423 | splitting undoes the key iff the content type holds no separator |
| `TargetKeys.KeyInjective` | internal/catalogop/catalogop.go:207-214 | keys tell targets apart when content types hold no separator |
| `TargetKeys.KeyCollides` | internal/catalogop/catalogop.go:83-86 | without that, two works share a key |
| `TargetKeys.AcquireKeyInjective` | internal/catalogop/catalogop.go:624-627 | acquisition keys tell apart targets, scopes and aspects when targets and aspects hold no separator |
| `TargetKeys.AcquireKeyCollides` | internal/catalogop/catalogop.go:624-627 | a separator in a work key lets two acquisitions share a key |
| `CatalogTomb.Store.RecordOps` | internal/catalogtomb/store.go:138-166 | a batch with a token that does not verify changes nothing; any other adds its ops to the log, keeps those there, and is one recording step |
| `CatalogTomb.Store.RecordInto` | internal/catalogtomb/store.go:196-245 | appends, then re-materialises unless nothing is new or the batch is uncited acquires; with nothing new, nothing changes |
| `CatalogTomb.Store.Append` | internal/catalogtomb/store.go:200-222 | the log gains exactly the batch's ops and keeps what it had; reports which were new |
| `CatalogTomb.Store.CitedByRecordedOp` | internal/catalogtomb/store.go:247-266 | whether any recorded op cites one of the given hashes |
| `CatalogTomb.Store.AreOnlyAcquires` | internal/catalogtomb/store.go:269-276 | whether a non-empty batch is all acquires |
| `CatalogTomb.Store.ReconcileTx` | internal/catalogtomb/store.go:302-350 | a row stands on iff its key is tombstoned or does not split back; every tombstoned key has a row; a new row names the first delete of its key and takes the live work, and no other work goes |
| `CatalogTomb.Store.ReconcileAll` | internal/catalogtomb/store.go:278-294 | one reconciliation of the whole log |
| `CatalogTomb.ReconciledSettles` | internal/catalogtomb/store.go:302-350 | what a reconciliation leaves, said of every row, key and work of any state |
| `CatalogTomb.Store.MaterialiseDead` | internal/catalogtomb/store.go:314-340 | a row for every tombstoned key, the existing map consumed down to the rest |
| `CatalogTomb.Store.LiftRows` | internal/catalogtomb/store.go:341-350 | deletes the row each remaining key splits into |
| `CatalogTomb.Store.EarliestDeleteHash` | internal/catalogtomb/store.go:352-373 | the delete of a key issued before every other accepted one, overridden or not, of equals the one with the least hash |
| `CatalogTomb.Store.ResolveWorkRow` | internal/persistence/catalog/catalog.go:505-530 | a tombstoned work is not created |
| `CatalogTomb.Store.WantWorkRow` | internal/api/resources/desired.go:800-811 | a want's creation goes through whatever the tombstone table says |
| `CatalogTomb.Store.DeleteWorkRow` | internal/api/resources/works.go:233-281 | goes through iff the work is live, not followed, and any token verifies; then the row is gone and the op recorded in one step, otherwise nothing changes |
| `CatalogTomb.Store.RelabelRow` | internal/api/resources/works.go:111-175 | a correction of a live work's content type, refused into a rom or onto another live work, moves the row whatever the table says |
| `CatalogRuns.ReconcileAgreesIff` | internal/catalogtomb/store.go:302-350 | the table agrees with the log iff every row to lift has a content type without the separator |
| `CatalogRuns.ReconcileIdempotent` | internal/catalogtomb/store.go:278-280 | reconciling an agreeing table changes nothing |
| `CatalogRuns.SkipIsSound` | internal/catalogtomb/store.go:225-245 | skipping the re-evaluation leaves the whole log's tombstones where they were |
| `CatalogRuns.RecordKeepsInv` | internal/catalogtomb/store.go:196-245 | every recording keeps the table in agreement with the log, and suppression, and loses no op |
| `CatalogRuns.StepKeepsInv` | internal/catalogtomb/store.go:138-350 | every transaction keeps the agreement |
| `CatalogRuns.RunAgrees` | internal/catalogtomb/store.go:138-350 | at every state of every run the table's keys are the tombstoned keys of the whole log |
| `CatalogRuns.UnguardedWorkSurvives` | internal/catalogtomb/store.go:315-340 | a work created under a standing tombstone survives reconciliation |
| `CatalogRuns.SuppressionBreaksIff` | internal/catalogtomb/store.go:110-127 | a live tombstoned work appears iff a want creates one or a correction moves one there |
| `CatalogRuns.DeletedWorkIsTombstoned` | internal/api/resources/works.go:342-363 | a deletion whose op cites the current heads takes the row and tombstones the work, and tombstones no other |
| `CatalogRuns.RunSuppresses` | internal/catalogtomb/store.go:110-127 | a run without such an unguarded write never holds a live tombstoned work |
| `CatalogRuns.LookupAnswersForTheLog` | internal/catalogtomb/store.go:110-127 | the indexed lookup answers for the whole log |
| `CatalogRuns.SameLogSameTombstones` | internal/catalogtomb/store.go:302-350 | stores with the same op hashes hold the same ops and tombstone the same works |
| `CatalogRuns.TwoSitesConverge` | internal/catalogtomb/store.go:138-166 | two runs of any local writes and pushes that end with the same ops end with the same tombstones |
| `CatalogRuns.ExchangeConverges` | internal/catalogtomb/store.go:138-166 | one push and its answer bring both logs to the union and both tables into agreement |
| `CatalogExamples.RestoredButStuck` | internal/catalogtomb/store.go:341-350 | any work whose content type holds the separator, deleted and restored, keeps its row though the log tombstones nothing, and every reconciliation leaves it |
| `CatalogExamples.StuckRowReachable` | internal/catalogop/catalogop.go:83-86 | such a run exists, with its tokens |
| `CatalogExamples.CorrectedBackToLife` | internal/api/resources/works.go:169-175 | a work corrected to another type and deleted comes back live under its standing tombstone by the same correction |
| `Base32.DecodeEncode` | internal/auth/token.go:28-36 | every byte string survives being printed and read |
| `Base32.SameBytesIff` | internal/auth/token.go:63-70 | two spellings of one length read as the same bytes iff they differ only past the last whole byte |
| `Base32.EncodedNumber` | internal/auth/token.go:28-36 | what is printed is the number the bytes spell, moved up by zero bits to fill the last character, in digits of the lower-case alphabet |
| `Base32.DecodeReads` | internal/auth/token.go:28-36 | a string is read iff it is digits of either case and line ends, and reads as it does without the line ends, in one case |
| `Token.ParsesIffPrinted` | internal/auth/token.go:61-108 | a string is accepted for an id and a secret iff it is exactly what minting prints for them |
| `Token.ParsesIffSpelled` | internal/auth/token.go:61-108 | spelled out: the prefix, sixteen bytes, an underscore, thirty-two bytes |
| `Token.OneSpelling` | internal/auth/token.go:63-70 | no credential has two accepted spellings |
| `Token.DecoderAloneIsAmbiguous` | internal/auth/token.go:63-70 | without the re-encoding every secret would have a second spelling |
| `Credentials.SlowAcceptsIff` | internal/auth/verifier.go:161-195 | with no cache a string is accepted iff it was printed for the row, which is neither revoked nor expired |
| `Credentials.SlowRefusesIff` | internal/auth/verifier.go:161-195 | each refusal exactly when, in the order the checks are made |
| `Credentials.MintedIsAccepted` | internal/auth/store.go:136-227 | a credential just minted is accepted until it expires, restricted exactly when minted so |
| `Credentials.StepsKeepKinds` | internal/auth/store.go:185-199 | no step leaves an executor with an unrestricted token, or anyone else with a restricted one |
| `Credentials.StepsLeave` | internal/auth/store.go:161-327 | what minting, revoking, a use and a removal leave of every row: none changes the scopes, expiry, principal, restriction or hash of a row |
| `Credentials.MakeRoom` | internal/auth/verifier.go:258-274 | a cache with room is kept; a full one keeps exactly its unexpired entries if those are under the bound, else none |
| `Credentials.AfterRemember` | internal/auth/verifier.go:258-276 | the bound holds, the new credential hits until its time to live is over, other entries are as they were |
| `Credentials.HitProves` | internal/auth/verifier.go:248-256 | a hit proves the presented secret against the minted hash |
| `Credentials.RememberKeepsMinted` | internal/auth/verifier.go:258-276 | only the one spelling of a minted credential is ever cached |
| `TokenVerifier.Store.Create` | internal/auth/store.go:161-227 | each refusal exactly when the source gives it; otherwise one row is added with what was asked for, and the one string that presents it is returned |
| `TokenVerifier.Store.Revoke` | internal/auth/store.go:297-316 | a first revocation marks the row now and changes nothing else; a second is reported and changes nothing |
| `TokenVerifier.Verifier.constructor` | internal/auth/verifier.go:131-154 | settings that are not positive fall back to ten minutes, ten thousand entries and five minutes |
| `TokenVerifier.Verifier.Verify` | internal/auth/verifier.go:161-195 | answers as the same code with an empty cache would, each answer exactly when; an accepted call changes no field of any row but its own last use, set to the clock iff a use is due; a refusal changes nothing |
| `TokenVerifier.Verifier.Prove` | internal/auth/verifier.go:177-191 | a hit stands in for the check of the secret with the same answer |
| `TokenVerifier.Verifier.Remember` | internal/auth/verifier.go:258-276 | the eviction loop computes the specified cache |
| `TokenVerifier.Verifier.RecordUse` | internal/auth/verifier.go:278-296 | a use is written at most once an interval for each token, and writes the last use alone |
| `VerifierRuns.NextKeepsInv` | internal/auth/verifier.go:161-296 | every step of any interleaving keeps rows, cache and every call's reads genuine and the cache bounded |
| `VerifierRuns.RunAnswersAsSlowIff` | internal/auth/verifier.go:161-195 | in every run a finished call answered what the cacheless code answers from the same reads, except exactly when its row went between a hit's load and lookup; the cache is within its bound |
| `VerifierRuns.RunAnswersAsSlow` | internal/auth/verifier.go:161-195 | in a run without removals there is no exception |
| `VerifierExamples.RemovedButAccepted` | internal/auth/verifier.go:161-195 | for every configuration and credential a run in which a cached credential is accepted after its row went, where the cacheless code answers not found |
| `VerifierRuns.RunAcceptsOnlyMinted` | internal/auth/verifier.go:161-195 | in every run an accepted call presented exactly the string its credential was minted as, before the minted expiry, on an unrevoked row with the minted scopes, name and restriction |
| `VerifierRuns.RowsStayAsMinted` | internal/auth/store.go:297-327 | in every run a row keeps what it was minted with, and its revocation once it has one |
| `VerifierRuns.NoneAcceptedAfterRevoke` | internal/auth/store.go:297-316 | no verification started after a revocation returned accepts that token, whatever is cached and however the clock moves |
| `VerifierRuns.RunConfines` | internal/auth/store.go:136-143 | in every run an accepted caller is restricted exactly when its principal is an executor |
| `VerifierRuns.BothSucceedIff` | internal/auth/store.go:297-316 | in every run two returned revocations of one id both report success iff at some moment both had read the row and neither had written it |
| `VerifierRuns.SecondRevocationReported` | internal/auth/store.go:297-316 | in every run a revocation started after another returned reports it |
| `VerifierExamples.RacingRevokesBothSucceed` | internal/auth/store.go:297-316 | from any state of any run with two revocations asked for, four more steps give both what their reads showed |
| `SpaceStore.Store.KeyEpoch` | internal/personalstate/store/keyepoch.go:404-413 | the greatest row, 0 with none |
| `SpaceStore.Store.RotateKey` | internal/personalstate/store/keyepoch.go:112-248 | refuses for the first reason that holds and writes nothing, or makes the rotation |
| `SpaceStore.Store.CheckRecipients` | internal/personalstate/store/keyepoch.go:250-290 | accepts iff the current holders are exactly the re-wrapped and the revoked |
| `SpaceStore.Store.PutWrappedKey` | internal/personalstate/store/store.go:275-347 | stores a copy of the current epoch only; each refusal exactly when, and then nothing changes |
| `SpaceStore.Store.DeleteWrappedKey` | internal/personalstate/store/store.go:443-472 | takes one recipient's copy and touches nothing else |
| `SpaceStore.Store.PutChangeAtEpoch` | internal/personalstate/store/changes.go:30-118 | stores a change at the end iff its epoch is the current one; one already held is accepted again |
| `SpaceKeys.MalformedIff` | internal/personalstate/store/keyepoch.go:140-170 | each refusal of a request by its form exactly when, for the first wrap or revocation with something wrong with it |
| `SpaceKeys.RotateRefusedIff` | internal/personalstate/store/keyepoch.go:172-290 | each refusal by the space exactly when, in the order they are tried; none iff the epoch stands, nobody wrapped for is barred, the holders are those wrapped for and revoked, and nobody preserved is revoked |
| `SpaceKeys.RotationIsExact` | internal/personalstate/store/keyepoch.go:112-248 | a rotation that lands adds the one row and leaves copies with exactly the holders less the revoked, all at the next epoch, none preserved dropped, no change touched |
| `SpaceKeys.LaterWrapIsKept` | internal/personalstate/store/keyepoch.go:112-248 | of two wraps for one recipient the later is the copy it is left with |
| `SpaceKeys.UnrollIff` | internal/personalstate/client/keyring.go:41-84 | a chain unrolls to a sequence of keys iff it begins with the current one and each row seals the next under the one before |
| `Rotation.PartitionRecipients` | internal/cli/space_cmd.go:817-849 | splits the holders, those that stay in the order listed and those to revoke sorted, or says that one who stays does not parse, that someone named is none, or that nobody would remain |
| `Rotation.PrepareRekey` | internal/cli/space_cmd.go:721-748 | succeeds iff a proper subset is revoked and the rest parse, and then wraps the new key for the rest and seals the current key under it |
| `Rotation.Commit` | internal/cli/space_cmd.go:750-778 | lands only on the epoch and recipients it was prepared for, and then raises the epoch by one |
| `RotationRuns.OpensIff` | internal/personalstate/spaceopen/spaceopen.go:25-77 | a space opens iff the copy was made for this recipient and the rows up to its epoch lead back from its key, and then with exactly those keys |
| `RotationRuns.OpenNeverFails` | internal/personalstate/spaceopen/spaceopen.go:25-77 | a rotation landing between a device's two reads never breaks its open |
| `RotationRuns.NextKeepsInv` | internal/personalstate/store/keyepoch.go:112-248 | every step, unconditional writes included, keeps the chain linear, every copy of the current key, every change under the key noted for it, and everything published accounted for |
| `RotationRuns.LandedIsExact` | internal/cli/space_cmd.go:695-778 | a rotation that lands gives the new key to exactly those holding the current one when it landed, less the revoked |
| `RotationRuns.NoTwoLandFromOneEpoch` | internal/client/spaces.go:160-166 | of two rotations that land in a run the later started from a later epoch |
| `RotationRuns.RecipientReadsEverything` | internal/personalstate/client/client.go:224-286 | at every state of every run a holder of a copy opens the space and decrypts every change |
| `RotationRuns.DerivedWasGiven` | internal/personalstate/client/keyring.go:31-84 | nobody works out a newer key than one it was given, from all that was ever published |
| `RotationRuns.DerivesIff` | internal/personalstate/client/keyring.go:31-84 | from all that was ever published a recipient works out the key of an epoch iff a copy of that key or a later one was made for it |
| `RotationRuns.RevokedCannotRead` | internal/personalstate/store/keyepoch.go:112-248 | a recipient another's rotation revoked, and given no copy since, cannot work out the key of any change sealed at that rotation's epoch or later, whatever its devices attempt |
| `RotationRuns.RevokedCannotReadLater` | internal/personalstate/store/changes.go:37-39 | nor of any change a conditional write stored since |
| `RotationExamples.RevokedReadsUnconditional` | internal/personalstate/store/changes.go:37-39 | a run in which a revoked recipient works out the key of a change stored after its revocation without naming an epoch |
| `VaultWrite.ChainIsLater` | internal/client/spaces.go:207-210 | any interleaving of other devices' steps is an interference the write is proved against |
| `VaultWrite.Controller.Open` | internal/personalstate/spaceopen/spaceopen.go:25-54 | with rivals between its reads, opens iff both calls go through and a copy is there, with the ring of the epoch current at the first |
| `VaultWrite.Controller.LoadDrive` | internal/cli/vault_cmd.go:105-117 | loading succeeds iff no change landed at an epoch later than the keys' |
| `VaultWrite.Controller.PutChangeAtEpoch` | internal/client/spaces.go:207-227 | accepted means recorded at the epoch that sealed it, refused for the epoch means a rotation landed |
| `VaultWrite.VaultPut` | internal/cli/vault_cmd.go:227-290 | one attempt: recorded under the current key iff its three calls go through, no later change is there and the epoch still stands; each other result exactly when, and then nothing is recorded |
| `VaultWrite.Attempt` | internal/cli/vault_cmd.go:302-310 | opening and one write, each result exactly when |
| `VaultWrite.VaultPutFresh` | internal/cli/vault_cmd.go:292-322 | each result exactly when, in terms of what the first attempt and a second after a rewind meet; success records exactly one change, sealed under the key current as it landed, any error none; both attempts seal one plaintext iff the reader began at its start or was empty |
| `VaultWrite.RecordedOnceUnderCurrentKey` | internal/cli/vault_cmd.go:292-298 | what is recorded is stored once, under the current key |
| `VaultWrite.LoadCanFail` | internal/cli/vault_cmd.go:105-117 | rivals that rotate and write between a writer's upload and its load are lawful, and make the load fail |
| `VaultWrite.LoadFailsUnretried` | internal/cli/vault_cmd.go:292-322 | against them the whole write ends undecryptable after one attempt, with nothing recorded |
| `Rewrap.Covered` | internal/cli/space_rewrap_cmd.go:985-996 | the worklist ends on any graph with exactly the frontier and its causal past |
| `Rewrap.VerifyRemoteSpaceKey` | internal/cli/space_rewrap_cmd.go:947-1021 | empty iff there is no snapshot and no change; a mismatch iff the snapshot opens and its envelope is refused; stale iff the snapshot does not open, or a change that must does not; otherwise verified |
| `Rewrap.ParentsIff` | internal/cli/space_rewrap_cmd.go:963-966 | the graph holds exactly the listed ids, each with the parents its last listing gives |
| `Rewrap.VerifiedAssuresIff` | internal/cli/space_rewrap_cmd.go:937-1021 | being verified assures every change, whichever the key, iff each one must be opened, lies under one that must, or is vouched for |
| `Rewrap.VerifiedAssuresIffUnderFrontier` | internal/cli/space_rewrap_cmd.go:1002-1020 | with no frontier vouched for, iff every change is on the log's frontier or in the past of one that is |
| `Rewrap.VerifiedCoversEveryChange` | internal/cli/space_rewrap_cmd.go:937-946 | in an acyclic log, and below the heads of any log, a verified key has every change opened, in the past of one opened, or vouched for |
| `Rewrap.HeadsAreFrontier` | internal/cli/space_rewrap_cmd.go:1002-1014 | the changes nobody names are the graph's frontier |
| `Rewrap.CycleIsNeverChecked` | internal/cli/space_rewrap_cmd.go:1002-1020 | two changes that name each other are verified by a key that opens nothing, and neither is assured |
| `Rewrap.SameSpaceSet` | internal/cli/space_rewrap_cmd.go:1188-1215 | accepts iff the sets are equal, and names what each side lacks, sorted |
| `StageMac.FieldsInjective` | internal/cli/space_rewrap_mac.go:36-41 | equal framings have equal fields, and equally many |
| `StageMac.BigEndianSpells` | internal/cli/space_rewrap_mac.go:90-95 | a length prefix is the length, the most significant byte first |
| `StageMac.MessageSaid` | internal/cli/space_rewrap_mac.go:64-88 | the message is the label, the count and the three files by name, in order, each framed |
| `StageMac.MessageInjective` | internal/cli/space_rewrap_mac.go:64-95 | two stages with one message hold the same files, byte for byte |
| `StageMac.RewrapStageMac` | internal/cli/space_rewrap_mac.go:64-88 | the running hash is given exactly the framed message, and only for exactly the covered files |
| `StageMac.HexAt` | internal/cli/space_rewrap_mac.go:97-102 | a tag is written two digits a byte, the high one first |
| `StageMac.VerifyStageMac` | internal/cli/space_rewrap_mac.go:97-121 | accepts iff the tag file is the one formatting writes for the files' tag, in no other spelling |
| `Sse.Recv` | internal/client/events.go:142-190 | the loop computes the specified reader |
| `Sse.HearsAll` | internal/client/events.go:142-190 | the frames read off any blocks within the size bound, and then the end |
| `Sse.CutHears` | internal/client/events.go:152-163 | any such stream cut at any byte yields exactly the frames of the blocks that arrived whole |
| `Sse.RecvFails` | internal/client/events.go:127-180 | after any lines that fit, the reading fails as the connection ends inside a line, on a line longer than 4 MiB, and on a data line that takes the frame past 4 MiB, and which failure it gives |
| `Sse.TrimSpaceIs` | internal/client/events.go:165-174 | a name loses spaces at its ends, all of them and nothing else |
| `SseStandard.ReadsAsStandardIff` | internal/client/events.go:127-190 | for blocks of lines ended by line feeds, without carriage returns, within the bound, the reader delivers what the standard dispatches iff no block with data holds a bare data line, begins with an empty value or is named otherwise by its lines |
| `SseText.TextReadsAsStandardIff` | internal/client/events.go:127-190 | the same on raw text cut anywhere, its lines ended by a line feed or a carriage return and a line feed in any mix |
| `SseText.LoneReturnIsKept` | internal/client/events.go:127-135 | any data line with a carriage return inside reads otherwise than in the standard |
| `SseStandard.ReadsPlainAsStandardIff` | internal/client/events.go:165-183 | for plain lines iff each block's data begins with a non-empty value and it names its own event or no name is left over |
| `SseStandard.RoundTrip` | internal/client/events.go:127-190 | regular blocks yield exactly the frames the standard dispatches, then the end |
| `SseStandard.Truncated` | internal/client/events.go:152-163 | a regular stream cut at any byte yields exactly the frames that arrived whole, then an ordinary end |
| `SseStandard.NameOutlivesItsBlock` | internal/client/events.go:165-174 | a name without data reaches the next frame |
| `SseStandard.LeadingEmptyDataIsLost` | internal/client/events.go:175-183 | leading empty data lines are dropped |
| `SseStandard.BareDataIsLost` | internal/client/events.go:165-183 | a data line with no colon is passed over |
| `SseStandard.BareEventIsIgnored` | internal/client/events.go:165-174 | an event line with no colon does not empty the name |
| `SseStandard.NameIsTrimmed` | internal/client/events.go:165-174 | a name loses the spaces the standard keeps |
| `EventTail.EventStream.Recv` | internal/client/events.go:138-212 | delivers the stream's messages in order and moves the resume point to the highest seen |
| `EventServer.MessagesAre` | internal/client/events.go:138-212 | a connection carries the decoded frames in order up to the first that does not decode |
| `EventTail.ExactAtAllTimesIff` | internal/client/events.go:138-140 | what is printed is at every moment exactly the matching events up to the resume point iff the server is honest |
| `EventTail.Pump` | internal/cli/events_cmd.go:154-167 | takes the messages of the stream in order and prints the events of what it took, all of them unless the limit stops it, and says which |
| `EventTail.TailEvents` | internal/cli/events_cmd.go:81-147 | connects again and again until it ends, each connection but one stopped by the limit taken whole; ends for each reason exactly when; prints, across any number of reconnects and cuts, in order, exactly the events that matched when a connection moved the resume point past them |
| `EventTail.PiecedIsExactly` | internal/cli/events_cmd.go:81-147 | where the same events match throughout, the matching events past the start up to the resume point, no hole or repeat |
| `EventServer.WrittenIsRegular` | internal/api/resources/stream.go:295-325 | every block the server writes is one the reader takes as the standard does, carrying its one frame |
| `EventServer.IdNamesTheEvent` | internal/api/resources/stream.go:298-312 | an event names its sequence number as the stream id, and a notice names none |
| `EventServer.CutStreamReads` | internal/api/resources/stream.go:295-325 | a connection cut at any byte reads back as exactly the messages that arrived whole, and ends ordinarily |
| `EventServer.CutStreamIsHonest` | internal/api/resources/stream.go:50-63 | cutting an honest connection at any byte leaves one the tail may rely on |
| `EventServer.CatchUpIsHonest` | internal/api/resources/stream.go:161-183 | sending the log in order from the first event past the resume point is honest, as far as it gets |
| `EventServer.StreamIsHonest` | internal/api/resources/stream.go:125-183 | what a connection sends of a retained log, the notice of pruned history included, is honest from any resume point |
| `EventServer.NoticeIff` | internal/api/resources/stream.go:125-151 | the pruning notice comes first, iff the resume point is positive and before the oldest event, and counts what was lost |
| `EventServer.LogServerIsHonest` | internal/api/resources/stream.go:50-183 | a server whose log grows and is pruned between connections, heartbeats between and cut anywhere, is one the tail may rely on |
| `EventServer.TailOfLog` | internal/cli/events_cmd.go:81-147 | a tail of such a server ends for each reason exactly when, and prints, across reconnects and cuts, exactly the recorded matching events past the start up to its resume point, but those pruned before the connection that would have sent them |
| `Paging.List` | internal/client/paging.go:36-101 | asks for one page after another, each for what is wanted of it and with the cursor of the one before, and ends for each reason exactly when; against an honest server, whatever is added or removed meanwhile: in order, so no row twice, none invented, none missing that was there throughout short of a full limit, the repeat check never firing |
| `Paging.RequestsSaid` | internal/client/paging.go:62-101 | each request is for a page, or for what is left of the limit |
| `Paging.EndSaid` | internal/client/paging.go:36-101 | a listing ends iff there is no next page or the limit is reached, and then holds the pages' items, cut to the limit if there was more |
| `Paging.UnchangingIsWhole` | internal/client/paging.go:36-60 | when nobody changes the collection that is all of it, or the first limit rows |
| `Paging.ServedStretch` | internal/api/resources/paging.go:150-177 | a page is the stretch of rows from the first past the cursor, and names the last of them as its cursor iff there are more |
| `Paging.ServedPagesAreHonest` | internal/api/resources/paging.go:14-25 | the pages served, over keys of any number of columns, meet what the walk needs while rows come and go, the cursor's own included |

## Left out

- Ed25519, SHA-256, HMAC, argon2 and AEAD are uninterpreted functions with the laws listed above.
- JSON and base64 text: op payloads, events and gaps are what a decoder, any decoder, answers. No claim is made of one token for each payload.
- Validation of acquire fields, scope ordering, names and kinds beyond what `create` checks.
- The other fields of a work's correction, and everything a work's deletion cascades to.
- The `op_hash` column as a function of the log: kept rows are not re-attributed.
- Token ids are their sixteen bytes; their UUID text is not part of the model.
- Spaces other than the one at hand, unknown spaces, events emitted, and history rows arriving by replication.
- Whether a recipient may be wrapped for, and which ones a rotation must preserve, are parameters of each call.
- SpaceKeys.UnrollRows: the chain is unrolled by recursion, where the source fills a map and loops.
- RotationRuns.RevokedCannotRead: a revoked recipient that made the rotation itself still knows its key, and the lemma excludes it.
- Rewrap.VerifiedAssuresIffUnderFrontier: for ids that name one change each and ciphertexts that differ; `Rewrap.VerifiedAssuresIff` needs neither.
- VaultWrite.VaultPut: content and manifest are one upload, and the drive entry stands for both; parents of the change are not modelled.
- Sse.Recv: the text is a sequence of characters; what is read while connecting, up to the ready comment, is not part of it.
- SseText.TextReadsAsStandardIff: no exact condition is given for texts with a carriage return of its own; `SseText.LoneReturnIsKept` is of data lines that hold one.
- EventTail.TailEvents: a run stops after any given number of connections, as a cancelled one does; how a line is printed is left out.
- Paging.List: a walk may be stopped after any number of requests, since a server that invents new cursors would never let it end; a last page longer than its limit is returned untrimmed, as in the source.
- StageMac.MessageInjective: for contents shorter than 2^64 bytes, which is every content the prefix can describe.
- EventServer.LogServerIsHonest: each connection is sent the log as it is when it opens. Notices of a failed read, and the live phase after the catch-up, are not part of it.
- Each collection's query and filters: rows, order and cursor codec of `Paging.Collection` are any that its `Lawful` allows.
- Deriving the tag's key, staging and uploading, pairing, custody, and the HTTP transport.
