# QIHSE verification

A Dafny model of the stateful kernels of QIHSE, with the properties they exist for proved for
all inputs, all runs and all reachable states. `dafny verify dfyconfig.toml` covers the whole
project.

- **Durable authority.** `DurableCommit` is the commit protocol as a state machine over system
  calls, failures, kills, machine crashes and restarts, and `Recovery` carries it through to the
  started service. `AuthTable` and `AuthService` are the
  in-memory principal table and its mutations, each committed as a whole image before memory
  changes; the parallel tables `users`, `authz_states` and `rate_limits` are one array of slots.
  `Login` is the two-phase password login. `ImportMerge` and `Import` are the archive import with
  its retry records. `AuthImage`, `KeyOrder`, `ImageBlocks`, `ImageCodec`, `ImageRows` and
  `ImageFile` are the QAIMAGE1 validator and codec.
- **Replicated registry.** `Principal`, `RecordBlocks` and `PrincipalRecord` are the QPR1 record
  codec and its authority rule, `Registry` the state machine over the committed log,
  `PrincipalStore` the mutable store, `RegistryReplay` the two replay drivers. `ByteCodec` holds
  the cursors both codecs advance, `Layout` the byte positions of all fields.
- **Audit.** `AuditChain` is the hash chain and the start-up scan, `AuditPipeline` producers,
  queue, signer, fallback, shutdown and crash recovery as atomic steps, `AccessBuckets` the
  access counters.
- **Search.** `TrieModel`, `TrieHeap` and `Trie` are the ternary search trie over its node pool;
  `AnchorSearch` the anchor interpolation search; `Tryte`, `TryteDot`, `TryteKernels`,
  `TryteSearch` and `TopK` the tryte codec, the vector kernels and both top-k selectors.
- **Quota.** `QuotaTable` is the open-addressed table, `QuotaPolicy` its meaning as a map.

Foreign calls are abstracted: the audit hash is a free injective constructor, a sealed archive
stands for its image or is unreadable, a password check is a function of secret and verifier, the
digest of an import request is a parameter. Clocks, allocator answers, disk answers and the
granularity of blob reads are parameters or steps. `qsort` is modelled by one sort;
`KeyOrder.AnySortDecides` and `AuthImage.AscendingUnique` say that every other sort leads to the
same verdict and the same rows. A null-pointer argument is outside the model.

Where the code does less than its surroundings suggest, the exact condition is stated.
`AnchorSearch.LocalSearch` finds a key in a long window only at its first element; the bracket
fallback makes the search complete. `TryteDot.LaneAgreesExactly` says on which invalid bytes the
vector kernels and the table differ. `AuditPipeline.SignerWake` shows the signer's idle-tick branch
unreachable, and `AccessBuckets.RunningWindowIsDue` that a sweep without a flush also takes the running
window. An authority image recovered after a failed directory sync can still be lost to a
machine crash; `DurableCommit.ServedImageIsSafeIff`
says exactly when a served image is safe. A quota cleanup shows through some later
reconfigurations; `QuotaPolicy.ReconfigurationSafeIff` says exactly which. The five-guess bound on
logins fails exactly for a failure counter at its 32-bit limit (`Login.FiveAtMostIff`), which only
an import can bring about.

## Model

| member | source | states |
|---|---|---|
| DurableCommit.StepKeeps | core/qihse_auth_durable.c:341-390 | every system call of a commit, succeeding or failing, every kill, machine crash and restart keeps the disk invariant: each thing the state file's name may mean is a whole synced image some commit was given, one generation after the one before |
| DurableCommit.RunKeeps | core/qihse_auth_durable.c:223-390 | the same over every sequence of steps |
| DurableCommit.RecoveryFindsAcknowledged | core/qihse_auth_durable.c:281-338 | after any sequence of commits, kills, crashes and restarts, whatever a crash keeps is a whole image: the last acknowledged one, the one an earlier crash settled on, or one renamed into place since, in commit order; never a mixture and never older than the acknowledged one |
| DurableCommit.SingleInFlight | core/qihse_auth_durable.c:341-390 | while no service was restarted on a name a crash could still undo, at most one image is undecided and none between commits: a crash leaves the last acknowledged image, the one the last crash settled on, or the single one in flight |
| DurableCommit.ServedImageIsSafeIff | core/qihse_auth_durable.c:281-390 | in every reachable state between commits the served image cannot vanish in a crash exactly if the name is decided, and that is exactly if the service was not restarted on an undecided name |
| DurableCommit.RecoveryHeeds | core/qihse_auth_durable.c:294-335 | a recovered service holds what the name means, no older than the operator demands, and nothing else is recovered |
| DurableCommit.IssuedByRun | core/qihse_auth_durable.c:341-390 | every image of the history was handed to a commit of the run |
| Recovery.SurvivorServes | core/qihse_auth_durable.c:294-335 | every image a run of service commits leaves under the name is valid and ordered |
| Recovery.Restart | core/qihse_auth_maintenance.c:51-59 | a machine crash after any run, then a restart: the service that starts is ready, holds and captures exactly the image the crash kept, which is never older than the one acknowledged; nothing starts exactly if nothing was kept or it is older than the configured minimum |
| DurableCommit.CommitAdvances | core/qihse_auth_durable.c:341-390 | an acknowledged commit raises the generation by exactly one, and held, acknowledged and stored image are the same |
| DurableCommit.FailureFences | core/qihse_auth_durable.c:375-386 | after a failed write, sync, rename or directory sync no step short of a kill or crash changes the acknowledged image or the names, and the service stays fenced |
| DurableCommit.FencedUntilRestart | core/qihse_auth_durable.c:36-39 | a fenced service starts no commit until it is killed and recovered |
| DurableCommit.RevivedImageCanVanish | core/qihse_auth_durable.c:281-338 | the restriction in SingleInFlight is needed: after a failed directory sync a restarted service serves an image a machine crash can still take back, and its next commit makes two images undecided, so that a crash may leave any of three |
| DurableCommit.GenerationsRise | core/qihse_auth_durable.c:341-390 | the names a crash may keep carry consecutive generations |
| AuthTable.CaptureAfterWrite | core/qihse_auth.c:2494-2533 | changing one occupied slot changes the captured rows by exactly that row, in id order |
| AuthTable.PlaceRow | core/qihse_auth.c:2563-2580 | the search, append and bubbling of the staging code put a row where strict id order wants it |
| AuthTable.RowOfAgreeing | core/qihse_auth.c:2510-2531 | an active principal whose handle agrees with its shadow is captured as its own handle, token presence aside |
| AuthTable.ShadowDecides | core/qihse_auth.c:757-771 | whatever a handle says, what is staged and captured is the shadow's policy |
| AuthTable.MirrorsWrite | core/qihse_auth.c:2545-2586 | writing one fitting slot moves the table and the image it stands for together |
| AuthTable.MirrorsSame | core/qihse_auth.c:1497-1500 | writing a slot that is captured the same leaves the image right |
| AuthTable.RebuiltCaptures | core/qihse_auth.c:2622-2640 | capturing a table rebuilt from rows gives back those rows |
| AuthTable.SlotOfFits | core/qihse_auth.c:2630-2640 | the slot made from a valid row agrees with its shadow and is captured as that row |
| AuthService.StagedMirrors | core/qihse_auth.c:2545-2586 | if the installed slot is captured as what was staged, the new table stands for the staged image |
| AuthService.Authority.Capture | core/qihse_auth.c:2494-2533 | the capture loop collects one row per occupied slot in id order, with the root's counters and the durable metadata |
| AuthService.Authority.CaptureReady | core/qihse_auth.c:2534-2544 | capturing a ready service yields the committed image, the root being what the table holds |
| AuthService.Authority.constructor | core/qihse_auth.c:2471-2493 | before publication the table holds the recovered root alone and nothing is served |
| AuthService.Authority.Launch | core/qihse_auth.c:2618-2646 | publication at start-up commits nothing, succeeds exactly on ordered rows, and leaves a ready service whose table stands for the recovered image |
| AuthService.Start | core/qihse_auth_maintenance.c:51-59 | starting from any valid recovered or provisioned image with ordered rows gives a ready service that holds exactly it |
| AuthService.Authority.Candidate | core/qihse_auth.c:2554-2581 | the capture with one row placed, or the root replaced, seals to the committed image with just that change |
| AuthService.Authority.Relist | core/qihse_auth.c:757-771 | staging a snapshot with another access list keeps everything else of the principal |
| AuthService.Authority.Commit | core/qihse_auth_durable.c:341-390 | succeeds exactly if the disk stores it, the generation is not exhausted and the sealed image is valid; a disk failure fences the service, a refusal or a failure to make the nonce or the seal does not; without success the old image stays |
| AuthService.Authority.Stage | core/qihse_auth.c:2545-2586 | memory does not change; succeeds exactly if nothing would change or the staged image can be stored, and then that image is the committed one |
| AuthService.Authority.Change | core/qihse_auth.c:781-826 | a mutation is staged and, once committed, installed: it succeeds exactly if its image can be stored, one generation on, and otherwise table and image are as they were |
| AuthService.Authority.Rotate | core/qihse_auth.c:781-826 | succeeds exactly if an allocation may be retired and the changed image can be stored; then the slot holds the candidate under the next generation and no other slot changes; otherwise table and image are as they were |
| AuthService.Authority.Destroy | core/qihse_auth.c:1299-1326 | never destroys the root; succeeds exactly for a live principal whose tombstone can be stored one generation on; otherwise table and image are as they were |
| AuthService.Authority.Create | core/qihse_auth.c:1154-1208 | succeeds exactly for a never-used slot, tombstones counting as used, whose image can be stored; otherwise table and image are as they were |
| AuthService.Authority.SetTokenPresent | core/qihse_auth.c:1486-1500 | handle and shadow change together in nothing but token presence, and the committed image not at all |
| AuthService.Authority.GrantObject | core/qihse_auth.c:1680-1697 | succeeds exactly if the list has room or an entry for the object and the changed image can be stored; then only the principal's list changes, under the next generation |
| AuthService.Authority.RevokeObject | core/qihse_auth.c:1734-1750 | fails if there is no entry; otherwise succeeds exactly if the changed image can be stored, and then only that entry goes, the last one moving into its place |
| AuthService.Authority.CountLogin | core/qihse_auth.c:1832-1857 | succeeds exactly if nothing would change or the new counters can be stored; then a match leaves failures and lockout at zero, a mismatch counts one more, and the fifth locks for 300 seconds and starts over; nothing else changes |
| AuthService.Authority.CheckRows | core/qihse_auth.c:2596-2605 | publication accepts exactly valid rows in strictly rising id order |
| AuthService.Authority.Rebuild | core/qihse_auth.c:2622-2640 | every row gets its slot, every other slot but the root's is cleared |
| AuthService.Authority.Publish | core/qihse_auth.c:2587-2652 | succeeds exactly for ordered rows whose image can be stored while the retired allocations fit; then that image, one generation on, is committed and the rebuilt table stands for it; otherwise table and image are as they were |
| AuthService.Authority.Replace | core/qihse_auth.c:2622-2643 | rebuilding gives a table that stands for the image, the root keeping its principal |
| AuthService.Authority.ImportArchive | core/qihse_auth_maintenance.c:207-300 | an import answers, refuses or follows the plan made from the captured image; it succeeds exactly if that plan can be stored, and keeps all retry records |
| AuthService.Authority.ImportThenRun | core/qihse_auth_maintenance.c:209-215 | after an import and any later operations, whatever the disk answers, the same request under the identity on record is planned as the same answer, which changes nothing |
| AuthService.Authority.Perform | core/qihse_auth.c:781-826 | any one operation, whatever the disk answers, keeps a ready service's table standing for the committed image, and keeps every retry record |
| AuthService.Authority.RunAll | core/qihse_auth.c:781-826 | after any sequence of create, modify, destroy, grant, revoke, login outcomes, token changes and imports, a service that is still ready holds exactly the committed image, and every retry record is still there |
| AuthService.GrantedLaws | core/qihse_auth.c:1681-1691 | a grant changes what the list says of its own object only and keeps the list valid |
| AuthService.DroppedLaws | core/qihse_auth.c:1735-1742 | a revocation removes its object's entry and changes no other |
| AuthService.PublishMirrors | core/qihse_auth.c:2622-2643 | the table built from an image stands for it |
| Login.StepMoves | core/qihse_auth.c:1777-1857 | each step leaves an account's policy as it was or raises its generation, and never revives a destroyed one |
| Login.AttemptsHaveBegun | core/qihse_auth.c:1777-1806 | every attempt under way was begun by a step of the run against the account as it then was |
| Login.SuccessWasUndisturbed | core/qihse_auth.c:1804-1831 | whenever a login succeeds a step of the run began it against an unlocked account, and at every moment from then on the account was active with the very handle, generation and verifier that were copied; the secret matches and the account is not locked |
| Login.LockHolds | core/qihse_auth.c:1791-1829 | no login to a locked account succeeds or is counted before the lockout ends, in any interleaving with other logins, policy changes, imports and destruction |
| Login.SuccessClears | core/qihse_auth.c:1832-1844 | after a success it takes five counted failures or an import to lock the account |
| Login.GuessesAreBounded | core/qihse_auth.c:1832-1853 | within 300 seconds and without a success at most five failed guesses are counted against an account, however attempts, policy changes and imports interleave: one more if its counter stands at the 32-bit limit, and five more for each import that puts it there |
| Login.FiveAtMostIff | core/qihse_auth.c:1832-1853 | without such an import the bound of five holds of an account that can be guessed at exactly if its counter is below the 32-bit limit; at the limit six guesses are counted |
| Login.OnlyImportsSaturate | core/qihse_auth.c:1832-1853 | nothing but an import brings a counter to its limit |
| Login.SaturationBreaksFive | core/qihse_auth_maintenance.c:265-271 | one import that carries a counter at the limit breaks the bound of five for every account that can be guessed at |
| ImportMerge.MergeRows | core/qihse_auth_maintenance.c:247-272 | the two-pointer loop computes the merge, and its output table never runs out of room |
| ImportMerge.MergeAscends | core/qihse_auth_maintenance.c:247-272 | merging two lists in rising id order gives one in strictly rising id order |
| ImportMerge.MergeIds | core/qihse_auth_maintenance.c:247-272 | the merged ids are exactly the union |
| ImportMerge.MergeExplained | core/qihse_auth_maintenance.c:252-271 | each merged row is exactly explained: an id on both sides takes the incoming principal, one generation after the later, the longer lockout and the larger count; an id that did not come in is retired one generation on; a new id is taken as it came; nothing is weakened |
| ImportMerge.MergeSucceeds | core/qihse_auth_maintenance.c:256-268 | the merge succeeds exactly when no row is weakened and no generation is exhausted |
| ImportMerge.RowsFitTable | core/qihse_auth_maintenance.c:250-250 | distinct ids below 65536 never exceed the row table, so the capacity branch is unreachable |
| Import.PlanImport | core/qihse_auth_maintenance.c:209-297 | a request not on record is committed exactly if it expects the live position, a record fits, its keys are pinned, its archive opens, has no root, is of the same history and epoch and, unless relocating, node, is no older than the authority, exceeds neither the caller's delegation nor its token, can be merged, and keeps the caller a system operator |
| Import.CommitsIff | core/qihse_auth_maintenance.c:216-297 | the same of the plan itself |
| Import.OnRecordAnswers | core/qihse_auth_maintenance.c:209-215 | a request on record is answered exactly for the recorded caller and contents and refused as a conflict otherwise |
| Import.ImportKeepsRoot | core/qihse_auth_maintenance.c:275-283 | the root's generation, failures and lockout survive an import, which adds one record: this request, its contents, its caller and the new position |
| Import.OperatorByArchive | core/qihse_auth_maintenance.c:286-296 | the merge keeps the caller a system operator exactly if the archive does |
| Import.ImportValid | core/qihse_auth_maintenance.c:273-297 | a committed import is a valid image exactly one generation later, rows in strictly rising id order, the new retry record valid |
| Import.ImportRows | core/qihse_auth_maintenance.c:247-272 | nobody is lost by an import, and each existing id gets a successor row that is never weaker |
| Import.AnsweredAgain | core/qihse_auth_maintenance.c:209-297 | a request that was answered or committed is on record with the answer it got |
| Import.RecordLasts | core/qihse_auth_maintenance.c:209-215 | as long as records are only added, repeating a recorded request under the identity on record is planned as the same answer |
| Import.RecordedIdentity | core/qihse_auth_maintenance.c:286-297 | the identity recorded for a non-root caller is its committed row's generation |
| KeyOrder.SortLaws | core/qihse_auth_archive.c:151-162 | sorting by key orders the rows and neither makes nor hides a duplicate |
| KeyOrder.NeighbourCheckDecides | core/qihse_auth_archive.c:190-198 | comparing neighbours after the sort decides whether any two live keys are equal |
| KeyOrder.AnySortDecides | core/qihse_auth_archive.c:189-199 | whatever the sort: any ordered arrangement of the keys lets the neighbour check decide uniqueness |
| AuthImage.NameKeysTell | core/qihse_auth_archive.c:157-162 | equal sort keys are exactly equal live names |
| AuthImage.CheckRows | core/qihse_auth_archive.c:189-199 | the two sorts with neighbour checks accept exactly rows with distinct ids, distinct live names and no row named like the root, and return them in id order |
| AuthImage.Validate | core/qihse_auth_archive.c:166-218 | accepts exactly valid images, stated with quantifiers instead of sorts, and returns the rows in strictly rising id order |
| AuthImage.ValidateRetries | core/qihse_auth_archive.c:200-212 | accepts exactly well-formed retry records with distinct request ids |
| AuthImage.AscendingUnique | core/qihse_auth_archive.c:196-198 | there is only one arrangement of rows in strictly rising id order |
| ByteCodec.FromOfBig | core/qihse_auth_archive.c:31-52 | writing a number big-endian and reading it gives the number |
| ByteCodec.BigOfFrom | core/qihse_auth_archive.c:31-52 | reading a number big-endian and writing it gives the bytes |
| ByteCodec.FromOfLittle | core/qihse_principal_record.c:31-77 | writing a number little-endian and reading it gives the number |
| ByteCodec.LittleOfFrom | core/qihse_principal_record.c:31-77 | reading a number little-endian and writing it gives the bytes |
| ByteCodec.Reader.GetBytes | core/qihse_principal_record.c:46-53 | a read succeeds exactly if enough is left and nothing failed before, and advances by what it took |
| ByteCodec.Reader.GetLittle | core/qihse_principal_record.c:55-77 | the byte loop reads the little-endian number at the cursor |
| ByteCodec.Reader.GetBig | core/qihse_auth_archive.c:46-52 | the byte loop reads the big-endian number at the cursor |
| ByteCodec.Writer.PutBytes | core/qihse_principal_record.c:22-29 | a write succeeds exactly if it fits and nothing failed before, and appends |
| ByteCodec.Writer.PutLittle | core/qihse_principal_record.c:31-44 | the byte loop appends the little-endian number |
| ByteCodec.ImageWriter.Write | core/qihse_auth_archive.c:25-29 | measuring and filling passes advance alike; a filling pass also holds the bytes |
| ByteCodec.ImageWriter.WriteNumber | core/qihse_auth_archive.c:31-38 | the byte loop appends the big-endian number |
| ImageCodec.PrincipalEq | core/qihse_auth_archive.c:99-149 | encoded principals of any access-list length can be split off a byte string in only one way |
| ImageCodec.ReadPrincipal | core/qihse_auth_archive.c:122-149 | reading a principal succeeds exactly on bytes that begin with the encoding of a clean principal, and consumes just that |
| ImageCodec.WritePrincipal | core/qihse_auth_archive.c:99-120 | appends the principal's encoding, or fails for lack of room |
| ImageRows.RowsEq | core/qihse_auth_archive.c:235-243 | row lists of equal count can be split off in only one way, inactive and active rows mixed |
| ImageRows.ReadRow | core/qihse_auth_archive.c:321-329 | reading a row succeeds exactly on bytes that begin with a clean row |
| ImageRows.ReadRows | core/qihse_auth_archive.c:320-331 | the row loop succeeds exactly on bytes that begin with that many clean rows in strictly rising id order |
| ImageRows.WriteRows | core/qihse_auth_archive.c:235-243 | appends the encodings of all rows |
| ImageRows.ReadRetries | core/qihse_auth_archive.c:332-339 | reads that many retry records or fails for lack of bytes |
| ImageFile.ImageInjective | core/qihse_auth_archive.c:220-252 | different canonical images have different bytes |
| ImageFile.CanonLaws | core/qihse_auth_archive.c:83-89 | every valid image has a canonical form: rows in id order, nothing behind terminators, no binding in transfer images |
| ImageFile.OrderedEncode | core/qihse_auth_archive.c:254-282 | writing any valid image's rows in id order gives the bytes of its canonical form |
| ImageFile.TwoPasses | core/qihse_auth_archive.c:265-276 | the measuring pass predicts exactly what the filling pass writes |
| ImageFile.EncodeImage | core/qihse_auth_archive.c:254-282 | succeeds exactly for a valid image with context and memory, answers the canonical bytes, and never finds a valid image too large or the two passes different |
| ImageFile.HeaderPasses | core/qihse_auth_archive.c:309-313 | the size checks on the header never refuse a canonical image |
| ImageFile.DecodeImage | core/qihse_auth_archive.c:284-352 | given memory, accepts exactly the bytes of canonical images, and answers the one image with those bytes, so accepted bytes re-encode to themselves |
| ImageFile.RoundTrip | core/qihse_auth_archive.c:254-352 | decoding an encoded image gives its canonical form |
| Layout.ImageLayout | core/qihse_auth_archive.c:220-252 | an image is its header, its root if local, its rows and its retry records, in this order |
| Layout.HeaderLayout | core/qihse_auth_archive.c:223-233 | where each field of the header stands |
| Layout.RowPlace | core/qihse_auth_archive.c:235-243 | each row stands behind the rows before it |
| Layout.RowLayout | core/qihse_auth_archive.c:236-242 | where each field of a row stands |
| Layout.RetryPlace | core/qihse_auth_archive.c:244-251 | retry records stand 124 bytes apart |
| Layout.RetryLayout | core/qihse_auth_archive.c:245-250 | where each field of a retry record stands |
| Layout.ImagePrincipalLayout | core/qihse_auth_archive.c:99-120 | where each field of a principal stands |
| Layout.ImagePrincipalVerifierLayout | core/qihse_auth_archive.c:109-113 | where each field of its verifier stands |
| Layout.ImageAclLayout | core/qihse_auth_archive.c:115-119 | where each field of each access-list entry stands |
| Layout.BigDigits | core/qihse_auth_archive.c:31-38 | which byte of a big-endian number holds which digit |
| Principal.BoundedString | core/qihse_principal_record.c:79-90 | accepts exactly terminated buffers, non-empty or zero-padded where asked |
| Principal.ValidateAcls | core/qihse_principal_record.c:117-126 | accepts exactly lists with flags 1 to 7 and no object twice |
| Principal.ValidateFields | core/qihse_principal_record.c:92-128 | accepts exactly principals with valid fields |
| Principal.PaddedIsCanonical | core/qihse_principal_record.c:175-182 | clearing what follows the terminator keeps the string and is idempotent |
| PrincipalRecord.ValidateRecord | core/qihse_principal_record.c:136-147 | accepts exactly valid records |
| PrincipalRecord.EncodeInjective | core/qihse_principal_record.c:149-201 | different canonical records have different bytes |
| PrincipalRecord.EncodeRecord | core/qihse_principal_record.c:149-201 | fails exactly for an invalid record or a short buffer; otherwise the buffer starts with the record's encoding; a short buffer is left cleared |
| PrincipalRecord.DecodeRecord | core/qihse_principal_record.c:203-267 | accepts exactly the encodings of valid canonical records and answers the one record with those bytes, so accepted bytes re-encode to themselves |
| PrincipalRecord.RoundTrip | core/qihse_principal_record.c:149-267 | decoding what was encoded gives the record back up to bytes behind terminators |
| Layout.RecordHeadLayout | core/qihse_principal_record.c:156-165 | where each field of a record's head stands |
| Layout.PrincipalLayout | core/qihse_principal_record.c:168-188 | where each field of a put principal stands |
| Layout.PrincipalVerifierLayout | core/qihse_principal_record.c:183-187 | where each field of its verifier stands |
| Layout.LogAclLayout | core/qihse_principal_record.c:189-193 | where each field of each access-list entry stands |
| Layout.LittleDigits | core/qihse_principal_record.c:31-44 | which byte of a little-endian number holds which digit |
| PrincipalRecord.CanonEncodes | core/qihse_principal_record.c:175-182 | bytes behind a terminator never reach the encoding |
| PrincipalRecord.BareGuestPowerless | core/qihse_principal_record.c:269-330 | a zero-clearance guest without delegation is never authorised to do anything |
| Registry.ApplyKeepsInv | core/qihse_principal_store.c:222-287 | every committed entry keeps distinct live usernames, valid fields, the bootstrap operator and generation = sum of the other slots' generations |
| Registry.ReplayInv | core/qihse_principal_store.c:222-287 | so does every sequence of entries |
| Registry.ReplayAges | core/qihse_principal_store.c:222-287 | between any two moments an id's generation never falls, its role and tenant never change while it lives, and a tombstone never revives |
| Registry.TakesOnce | core/qihse_principal_store.c:235-242 | no request id takes effect twice and no two records expecting the same generation both take effect |
| Registry.LastWriterWins | core/qihse_principal_store.c:262-284 | after any entries a slot holds exactly what the last entry that took effect on it put there: the whole principal or none, under the generation named |
| Registry.UntouchedStays | core/qihse_principal_store.c:222-287 | while no entry takes effect on an id its slot stays what it is |
| Registry.RequestsExact | core/qihse_principal_store.c:235-242 | the registry remembers exactly the request ids of the records it has seen, taken or not |
| Registry.GenerationCounts | core/qihse_principal_store.c:280-286 | the registry generation counts the entries that took effect |
| Registry.OperatorRule | core/qihse_principal_record.c:274-329 | an operator's timely record takes effect exactly if it stays in reach, keeps role and tenant of what it changes, and puts nothing beyond its author |
| Registry.DelegateRule | core/qihse_principal_record.c:274-329 | anyone else's takes effect exactly if its author may create principals and it creates a bare guest in reach |
| Registry.UntimelyRefused | core/qihse_principal_record.c:274-286 | a record that does not name the present generations, a live actor and a fresh request is refused |
| Registry.ActorsStay | core/qihse_principal_record.c:269-330 | if every named actor is absent or in one non-system tenant at the start, no principal outside that tenant is ever created, changed or deleted |
| Registry.BelowOperator | core/qihse_principal_record.c:291-329 | if every named actor is absent or below operator at the start, nothing that exists changes and all that is added are zero-clearance guests |
| Registry.NewcomersNeverAct | core/qihse_principal_record.c:298-330 | in such a sequence whoever acts was there from the start, and all they do is create bare guests |
| PrincipalStore.NewStore | core/qihse_principal_store.c:44-68 | a store is made exactly for a full-clearance system operator with id 0, and holds only it |
| PrincipalStore.Store.UsernameTaken | core/qihse_principal_store.c:212-220 | the slot scan finds a live namesake other than the given id exactly if there is one |
| PrincipalStore.Store.ApplyRecord | core/qihse_principal_store.c:235-286 | a decoded record takes one step of the registry, or an allocation error changes nothing |
| PrincipalStore.Store.ApplyCommitted | core/qihse_principal_store.c:222-287 | either an error that changes nothing, or exactly one step of the registry at the next index |
| PrincipalStore.Store.ExportRows | core/qihse_principal_store.c:133-163 | the export loop computes the snapshot's entries |
| PrincipalStore.ExportLists | core/qihse_principal_store.c:154-163 | an entry is exported exactly for a used id other than the root, with that slot's generation and principal |
| PrincipalStore.ExportAscends | core/qihse_principal_store.c:154-163 | exported ids strictly rise |
| PrincipalStore.ExportAddsUp | core/qihse_principal_store.c:154-163 | the exported generations add up to the sum of the registry's |
| RegistryReplay.ReadPieces | core/qihse_principal_startup_replay.c:36-46 | a prefix read in arbitrary pieces is the prefix |
| RegistryReplay.FullPayload | core/qihse_principal_replay.c:26-62 | the full read yields the entry's meaning, exactly on readable entries of at most 16 MiB |
| RegistryReplay.PrefixPayload | core/qihse_principal_startup_replay.c:21-61 | the bounded prefix yields the entry's meaning exactly on readable entries |
| RegistryReplay.ReplayCommitted | core/qihse_principal_replay.c:13-73 | succeeds on readable logs of small transactions and leaves the fold of the registry step over the prefix |
| RegistryReplay.StartupReplay | core/qihse_principal_startup_replay.c:94-127 | succeeds on readable logs and leaves the fold of the registry step over the whole log |
| RegistryReplay.ReplaysAgree | core/qihse_principal_startup_replay.c:93-128 | for transactions up to 16 MiB both drivers succeed on the same logs and build the same registry |
| AuditChain.TipDeterminesChain | core/qihse_audit.c:745-824 | two linked chains with the same tip are the same chain |
| AuditChain.ScanLinked | core/qihse_audit.c:745-824 | the scan accepts an intact linked log and ends at its last hash |
| AuditChain.ScanTells | core/qihse_audit.c:761-820 | the scan accepts exactly such logs and ends with what its variables say of them |
| AuditChain.CutIsNoticed | core/qihse_audit.c:800-808 | a log with a record cut out of the middle is refused |
| AuditChain.LoadContinuity | core/qihse_audit.c:826-916 | over every log: with records it resumes exactly if every entry is a banner or a correctly hashed line, every record after the first carries the hash before it or starts over from zero after a banner, and the stored tip is the hash or predecessor of a record since the chain last started over; it goes on from the last record; without records it starts exactly if no tip is stored |
| AuditPipeline.SignerWake | core/qihse_audit.c:1200-1227 | the signer never reaches its idle-tick branch: it wakes for work, a ping or a stop only |
| AuditPipeline.RecoveryExact | core/qihse_audit.c:826-916 | from a quiescent state recovery succeeds exactly if no line was torn and a tip was ever published or no record written, and resumes at the last record |
| AuditPipeline.StepKeeps | core/qihse_audit.c:1124-1352 | every atomic step keeps file ++ in-flight ++ queue ++ fallback equal to the issued chain |
| AuditPipeline.LogIsOneChain | core/qihse_audit.c:1200-1352 | in every interleaving of producers, signer, fallback, shutdown, crashes and restarts the file is one linked chain, a prefix of what was issued, and the queue never exceeds 128 |
| AuditPipeline.EveryEventIssued | core/qihse_audit.c:1297-1352 | between crashes exactly the events producers asked for are issued, in the order asked |
| AuditPipeline.FlushIsBarrier | core/qihse_audit.c:1256-1264 | when a flush can return every record issued so far is in the file, and stays there in every later state |
| AuditPipeline.RunOnlyAppends | core/qihse_audit.c:1124-1198 | no step ever removes or rewrites a record of the file |
| AuditPipeline.CrashThenRestart | core/qihse_audit.c:826-916 | after a crash at any point the next start resumes the same chain unless a line was torn or the first tip never published |
| AccessBuckets.SummariesExact | core/qihse_audit.c:1429-1447 | summaries report every access exactly when no bucket outgrew 32 bits, and never more |
| AccessBuckets.SweepConserves | core/qihse_audit.c:410-425 | a sweep moves counts and loses none |
| AccessBuckets.SweepLeaves | core/qihse_audit.c:410-425 | a sweep empties exactly the used buckets whose window number plus window length has passed, or all of them, and leaves every other as it was |
| AccessBuckets.SweepTakes | core/qihse_audit.c:410-425 | it takes out exactly those, each as often as the table holds it |
| AccessBuckets.RunningWindowIsDue | core/qihse_audit.c:417-418 | the comparison mixes window numbers and seconds: after two window lengths since the clock's origin the running window counts as finished too |
| AccessBuckets.FirstStopNone | core/qihse_audit.c:1387-1409 | the probe fails exactly when every slot on its way counts something else |
| AccessBuckets.GrantAccounts | core/qihse_audit.c:1378-1423 | one granted access adds exactly one to its key, full table included |
| AccessBuckets.AccessLands | core/qihse_audit.c:1387-1408 | an access that finds a slot changes that slot alone and counts one more for its key in its window |
| AccessBuckets.NoAccessLost | core/qihse_audit.c:1378-1447 | live plus reported counts equal the grants in every sequence that keeps buckets within 32 bits |
| AccessBuckets.AccessTable.Collect | core/qihse_audit.c:410-425 | the sweep loop takes exactly the due buckets and clears them |
| AccessBuckets.AccessTable.Emit | core/qihse_audit.c:1429-1447 | every taken bucket becomes one record |
| AccessBuckets.AccessTable.Access | core/qihse_audit.c:1378-1423 | probing, counting and the full-table retry refine the grant step, and the retry ends |
| TrieModel.LookupOfPut | algorithms/qihse_trinary_trie.c:101-149 | an insert changes the lookup of its key only |
| TrieModel.LookupOfDel | algorithms/qihse_trinary_trie.c:218-254 | a delete changes the lookup of its key only |
| TrieModel.EntriesAscend | algorithms/qihse_trinary_trie.c:256-268 | the visiting order is strictly ascending |
| TrieModel.EntriesFound | algorithms/qihse_trinary_trie.c:256-268 | a key is visited exactly if it is live, with its value |
| TrieModel.DelLeavesEnd | algorithms/qihse_trinary_trie.c:218-247 | after a delete every leaf still ends a key |
| TrieModel.PutLeavesEnd | algorithms/qihse_trinary_trie.c:101-149 | after an insert every leaf still ends a key |
| TrieModel.RunAgrees | algorithms/qihse_trinary_trie.c:101-268 | after any sequence of inserts and deletes lookups and visits are those of a map, levels are search trees and every leaf ends a key |
| TrieHeap.PlugRep | algorithms/qihse_trinary_trie.c:105-119 | a subtree hung into the hole of a represented context gives a represented tree on both footprints together |
| TrieHeap.ChildReplaced | algorithms/qihse_trinary_trie.c:221-233 | replacing a child by one inside its own cells changes nothing else |
| TrieHeap.PutFollows | algorithms/qihse_trinary_trie.c:105-119 | inserting a key is inserting its rest where the descent has got to |
| TrieHeap.UnboundAtHole | algorithms/qihse_trinary_trie.c:106-110 | where an insert gives up for lack of memory its key is unbound and every other binding is unchanged |
| Trie.TrinaryTrie.Alloc | algorithms/qihse_trinary_trie.c:40-64 | a node comes from the free list, then the newest chunk, then a new one, and every pool cell stays in exactly one of tree, free list and unused tail |
| Trie.TrinaryTrie.Free | algorithms/qihse_trinary_trie.c:66-73 | a freed node moves from the tree to the free list |
| Trie.TrinaryTrie.Search | algorithms/qihse_trinary_trie.c:192-216 | the descent answers the lookup |
| Trie.TrinaryTrie.Locate | algorithms/qihse_trinary_trie.c:105-119 | whatever nodes the descent adds, inserting the key afterwards gives the same trie; it reaches the key's last node unless memory fails |
| Trie.TrinaryTrie.Insert | algorithms/qihse_trinary_trie.c:101-149 | inserts as the map does; a failed allocation leaves the key unbound and every other binding; succeeds when memory is granted; pool and order are kept |
| Trie.TrinaryTrie.DeleteNode | algorithms/qihse_trinary_trie.c:218-247 | deletes in the subtree, returns pruned nodes to the free list and touches no other cell |
| Trie.TrinaryTrie.Delete | algorithms/qihse_trinary_trie.c:249-254 | deletes as the map does, reports whether the key was live, keeps leaves, pool and order |
| Trie.TrinaryTrie.Visit | algorithms/qihse_trinary_trie.c:256-268 | the recursive walk reports the subtree's keys under the buffered prefix until the callback refuses |
| Trie.TrinaryTrie.ForEach | algorithms/qihse_trinary_trie.c:270-274 | a callback that refuses after so many calls has seen exactly the live keys up to there, in ascending order, each once with its value |
| TrieModel.HeightTells | algorithms/qihse_trinary_trie.c:256-273 | where every leaf ends a key, a trie fits the key buffer exactly if every live key does |
| TrieModel.LongKeyOverruns | algorithms/qihse_trinary_trie.c:270-273 | one key as long as the buffer or longer makes any trie too high for it |
| AnchorSearch.ChunkedSearch | algorithms/qihse_anchor_search.c:450-615 | for any lane width the scan finds the first match; a build whose vector path is compiled in but not detected finds nothing beyond four elements |
| AnchorSearch.AnchorLower | algorithms/qihse_anchor_search.c:618-659 | finds the last anchor not above the key, except that tables of four or more may answer the last but one instead of the last |
| AnchorSearch.PredictionInBracket | algorithms/qihse_anchor_search.c:662-683 | between bracketing anchors the prediction stays in the bracket, is exact at both ends, and the 128-bit product cannot overflow |
| AnchorSearch.LocalSearch | algorithms/qihse_anchor_search.c:686-713 | sound always; finds a present key exactly in windows of at most 32 elements that the scan covers, or at the first element of a longer one |
| AnchorSearch.BracketSearch | algorithms/qihse_anchor_search.c:879-892 | the fallback finds the first match in the bracket exactly if there is one |
| AnchorSearch.ProbeBracket | algorithms/qihse_anchor_search.c:840-892 | between two samples that bracket it a key is found exactly if the array holds it, and what may be learned lies strictly inside |
| AnchorSearch.Probe | algorithms/qihse_anchor_search.c:829-892 | a key is found exactly if it is present and between the end anchors |
| AnchorSearch.InsertionSampled | algorithms/qihse_anchor_search.c:758-776 | learning keeps the anchors true samples in strictly rising positions |
| AnchorSearch.AnchorTable.Learn | algorithms/qihse_anchor_search.c:716-778 | learns exactly when the prediction was off by more than the tolerance, pruning the least recently used at the limit, within capacity |
| AnchorSearch.AnchorTable.SetMemoryLimit | algorithms/qihse_anchor_search.c:1034-1045 | accepts limits from 2 to 1048576, even below what is in use |
| AnchorSearch.AnchorTable.Search | algorithms/qihse_anchor_search.c:781-912 | a hit is always right; in arrays of 32 or more a key is found exactly if present and covered by the end anchors; anchors stay true samples, and below the limit they keep spanning the array |
| AnchorSearch.AnchorTable.SearchRun | algorithms/qihse_anchor_search.c:781-912 | in any sequence of searches every hit is right and a key is found exactly if present and covered at that moment; as long as no search starts at the limit, exactly if present; tables never shrink, so one that ends below its limit was below it throughout |
| AnchorSearch.SearchOnce | algorithms/qihse_anchor_search.c:795-912 | without a table a search finds exactly the present keys, but for the small arrays a blind scan does not cover |
| Tryte.Pack5 | codecs/qihse_trinary_tryte_codec.c:158-178 | packs exactly valid trits, in 8-bit arithmetic without overflow |
| Tryte.PackedExpands | codecs/qihse_trinary_tryte_codec.c:168-175 | the packed byte is the base-3 number of its trits, the first the lowest digit |
| Tryte.Unpack | codecs/qihse_trinary_tryte_codec.c:180-193 | yields the five base-3 digits of every byte up to 242 |
| Tryte.UnpackOfPack | codecs/qihse_trinary_tryte_codec.c:158-193 | unpacking packed trits gives them back |
| Tryte.PackOfUnpack | codecs/qihse_trinary_tryte_codec.c:158-193 | packing unpacked trits gives the byte back |
| Tryte.ValidateRow | codecs/qihse_trinary_tryte_codec.c:195-247 | accepts exactly rows of trytes with neutral padding |
| Tryte.EncodeRow | codecs/qihse_trinary_tryte_codec.c:278-308 | the encoded row is valid and its components are -1 exactly for negative numbers, +1 exactly for positive ones, and 0 for zero and NaN |
| TryteDot.ScalarByteIsTritSum | codecs/qihse_trinary_tryte_codec.c:554-563 | the table step of one byte pair is the sum of its five signed products |
| TryteDot.UnpackLanes | codecs/qihse_trinary_tryte_codec.c:351-383 | multiply-by-19 shift 9, multiply-by-29 shift 8 and the lookups unpack both bytes of every 16-bit word as division does |
| TryteDot.LaneSumSmall | codecs/qihse_trinary_tryte_codec.c:404-413 | the five products of any byte pair sum to at most five |
| TryteDot.ProductsAdd | codecs/qihse_trinary_tryte_codec.c:410-413 | no 8-bit addition of the products wraps |
| TryteDot.LaneIsScalar | codecs/qihse_trinary_tryte_codec.c:386-436 | on trytes a vector lane equals the table step |
| TryteDot.LaneAgreesExactly | codecs/qihse_trinary_tryte_codec.c:351-563 | on arbitrary bytes lane and table agree exactly if both are trytes or the one that is has cancelling high trits |
| TryteKernels.QuadIsTable | codecs/qihse_trinary_tryte_codec.c:415-418 | the saturating 16-bit and the 32-bit pair additions give the table sum of four bytes, at most 20 |
| TryteKernels.AddBlock | codecs/qihse_trinary_tryte_codec.c:395-421 | a block adds its table sum to the lanes, each lane within 20 for each block and without a wrap |
| TryteKernels.ScalarFrom | codecs/qihse_trinary_tryte_codec.c:554-563 | the scalar loop and the tails compute the table sum with no 32-bit addition out of range |
| TryteKernels.ReduceIsTotal | codecs/qihse_trinary_tryte_codec.c:423-427 | the wrapping horizontal additions sum all lanes when each lane holds at most 20 for each block |
| TryteKernels.LaneDot | codecs/qihse_trinary_tryte_codec.c:386-537 | the 16- and 32-lane kernels, with their wrapping and saturating arithmetic and their tail loop, equal the table sum for every row length and sum that fits 32 bits |
| TryteKernels.DotProduct | codecs/qihse_trinary_tryte_codec.c:565-576 | the 32-bit result is the table sum on every processor, for every row length and sum that fits 32 bits |
| TryteKernels.TableSumIsDotTrits | codecs/qihse_trinary_tryte_codec.c:554-563 | the table sum of whole trytes is the signed-trit dot product |
| TryteKernels.PaddingIsSilent | codecs/qihse_trinary_tryte_codec.c:211-247 | on valid rows the sum is over the real dimensions only |
| TryteKernels.RowFitsInt32 | codecs/qihse_trinary_tryte_codec.c:578-601 | valid rows of at most 2^31-1 dimensions fit, so no kernel overflows on them |
| TryteKernels.TableSumBounded | codecs/qihse_trinary_tryte_codec.c:554-563 | each byte adds at most five to the sum |
| TryteKernels.DotTritsBounded | codecs/qihse_trinary_tryte_codec.c:578-601 | the sum over n dimensions lies in [-n, n] |
| TryteSearch.Similarity | codecs/qihse_trinary_tryte_codec.c:578-601 | succeeds exactly for valid rows of at most 2^31-1 dimensions and answers their dot product, within [-dims, dims] |
| TryteSearch.CheckedAddNeverFails | codecs/qihse_trinary_tryte_codec.c:113-119 | the dimension bound keeps every partial weighted sum in 64 bits, so the overflow branch is unreachable |
| TryteSearch.WeightedSimilarity | codecs/qihse_trinary_tryte_codec.c:691-748 | refused exactly for too many dimensions, an invalid row or a negative weight; otherwise the weighted dot product |
| TryteSearch.SelectTopK | codecs/qihse_trinary_tryte_codec.c:611-689 | the output arrays hold exactly the best min(k, rows) rows, or the input is refused exactly as stated |
| TryteSearch.SelectTopKWeighted | codecs/qihse_trinary_tryte_codec.c:758-846 | the same for weighted scores |
| TopK.PushKeepsTopK | codecs/qihse_trinary_tryte_codec.c:662-684 | one more row keeps the selection the exact top k under descending score, ascending row |
| TopK.TopKUnique | codecs/qihse_trinary_tryte_codec.c:603-609 | there is only one such selection |
| TopK.TopKIsBest | codecs/qihse_trinary_tryte_codec.c:603-609 | the selection is the best rows, higher scores first and lower rows first among equals, and every row left out comes after every row taken |
| TopK.InsertCandidate | codecs/qihse_trinary_tryte_codec.c:662-684 | the search, shift and store in the two arrays perform that step |
| QuotaTable.Table.Find | core/qihse_quota.c:39-47 | finds a tenant's slot from its home exactly if it is in the table |
| QuotaTable.Table.GetOrCreate | core/qihse_quota.c:49-64 | answers the tenant's slot, creating it unless the table is full or memory fails |
| QuotaTable.Table.SlotDelete | core/qihse_quota.c:69-85 | backshift deletion removes just that tenant and leaves every other findable from its home without a gap, wrap-around included; no tenant moves further from the cleared slot |
| QuotaTable.Table.ShiftOnce | core/qihse_quota.c:72-83 | one step of the shift keeps the table right but for the moving hole, and moves tenants only closer to where the deletion began |
| QuotaTable.Table.Configure | core/qihse_quota.c:116-147 | configures as the map does |
| QuotaTable.Table.Allow | core/qihse_quota.c:149-177 | answers and counts as the map does |
| QuotaPolicy.AllowMeans | core/qihse_quota.c:149-177 | a limited class passes exactly while its window has counted fewer than its limit, starting over once its seconds are up; only a call that passes is counted; system tenant, unknown tenant and unlimited class always pass |
| QuotaPolicy.ConfigureMeans | core/qihse_quota.c:116-147 | a configuration gives one class its policy, or none and a fresh counter, changes nothing else, and fails exactly as stated |
| QuotaTable.Table.Cleanup | core/qihse_quota.c:189-215 | every tenant the pass does not skip keeps a policy and has exactly its finished windows dropped, every tenant with a policy stays, and no more tenants are skipped than removed |
| QuotaTable.Table.RemoveSlot | core/qihse_quota.c:208-212 | removing the tenant of a slot skips at most the one shifted into it |
| QuotaPolicy.PassIsExpiry | core/qihse_quota.c:196-213 | where every tenant has a policy a pass keeps everyone and drops exactly the counters whose windows are over |
| QuotaPolicy.PassRemoves | core/qihse_quota.c:208-212 | as long as a tenant without a policy is left a pass removes at least one |
| QuotaPolicy.CleanupKeepsVerdicts | core/qihse_quota.c:116-215 | through any sequence of calls, safe reconfigurations and cleanups under a clock that never goes back, no verdict depends on whether the cleanups were carried out |
| QuotaPolicy.ReconfigurationSafeIff | core/qihse_quota.c:116-147 | giving a class a new policy leaves all later verdicts independent of earlier cleanups exactly if it lifts the limit or is refused, or the class has the same counter in both tables or a window that is over under the new policy too, and the table has room for the tenant with and without the cleanups alike |
| QuotaPolicy.NarrowingIsSafe | core/qihse_quota.c:116-147 | read off the live table alone: for a tenant in both tables a window that is not widened is always safe |
| QuotaPolicy.SafeKeeps | core/qihse_quota.c:116-147 | such a reconfiguration keeps a cleaned table indistinguishable from one never cleaned |
| QuotaPolicy.AllowTidy | core/qihse_quota.c:149-177 | a call keeps unlimited classes idle and open windows used |
| QuotaPolicy.ConfigureTidy | core/qihse_quota.c:116-147 | so does a reconfiguration |
| QuotaPolicy.CleanupTidy | core/qihse_quota.c:189-215 | and a cleanup |
| QuotaPolicy.ReconfigurationBetraysCleanup | core/qihse_quota.c:116-147 | one that is not: widening a window after a cleanup dropped its counter |
| QuotaPolicy.WindowBudget | core/qihse_quota.c:149-177 | in an open window no more operations get through than the policy has left |
| QuotaPolicy.OpeningBudget | core/qihse_quota.c:149-177 | from the call that opens a window to its end no more operations get through than the policy allows |

## Left out

- Cryptography, key files, FIPS checks and sealed-envelope formats (core/qihse_auth_archive_crypto.c): foreign calls, abstracted as described above.
- The bootstrap file codec QABOOT01 and provisioning of that file (core/qihse_auth_durable.c): another fixed-layout codec of the same kind as the two that are modelled.
- The username hash map of core/qihse_auth.c: the uniqueness it serves is enforced again by the image validator, which is modelled.
- The authority checks of create, modify, grant and revoke in core/qihse_auth.c: they only narrow the candidates the modelled mutations accept; the registry's authority rule is modelled in full.
- The volatile (non-durable) mode of core/qihse_auth.c, borrowed-handle reference counts and the verifier cache.
- Import guards before the current image is captured (context, readiness, binding of source and target): they refuse before anything modelled happens; a request is modelled from the retry lookup on.
- Audit file rotation, pruning, the webhook, fork handlers and the idle-tick summary writer.
- Recovery of a log with a torn line or before its first tip: the code aborts, and AuditPipeline.RecoveryExact says so.
- Completeness of anchor search once pruning has removed an end anchor: AnchorSearch.AnchorTable.Search states the exact coverage condition instead. The batch and parallel search paths are not modelled.
- Trie.TrinaryTrie.ForEach: requires a trie of fewer than 512 levels, because the source's buffer holds no more and what happens beyond it is undefined; TrieModel.HeightTells says which tries these are.
- The insert that takes over the caller's buffer (qihse_trinary_trie_insert_nocopy): the same descent with another assignment at its end.
- QuotaTable.Table.constructor: requires at most 2^62 tenants, because doubling a larger number wraps and the source then has no empty slot to stop at.
- Which tenants a quota cleanup skips: those shifted into a slot being cleared; QuotaTable.Table.Cleanup bounds their number by the tenants removed.
- qihse_quota_reset and qihse_quota_table_destroy: plain clearing loops.
- qihse_trinary_tryte_encode_matrix and payload sizing beyond the overflow check: loops over the modelled row operations.
- Floating-point heuristics (algorithms/qihse_rff.c and similar), benchmarks, dashboards and launchers.
