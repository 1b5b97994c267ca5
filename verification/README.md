# A verified model of taskchain-task-manager

A Dafny model of seven parts of taskchain-task-manager, with proofs of what they are for. Every part takes the
form of its source: the queue store, the JSON parser, the fence scanner, the path budget and the cycle check
are classes whose methods update fields; loops over maps and slices are methods with invariants; each is tied to a
specification function or relation, about which the theorems are then proved.

| part | files | what is proved |
|---|---|---|
| integration request queue | `Integration*.dfy` | the store refines a transition system in which any number of workers interleave and crash; FIFO, at-most-once start, fencing and mutual exclusion hold on all runs; which request is answered to which call, when each command succeeds, and that a current worker always gets on |
| maintenance plans | `Maintenance*.dfy` | an accepted plan is a renaming that keeps everything else, with its cards below the board; its reverse is accepted; freezing is a canonical form, in order and without loss |
| role protocol | `Bytes.dfy`, `Json*.dfy`, `Encoding*.dfy`, `Selection*.dfy`, `History*.dfy` | the parser accepts exactly the JSON grammar, which has its own tables; the encoding is uniquely decodable, and a reader written from the format alone gives it back; so do the bytes that are hashed for a history |
| snapshots | `Snapshot*.dfy` | early-break and single-pass loops agree with the naive definitions of ancestors and tracked directories |
| probe operands | `Operand*.dfy` | an accepted operand never leads the system's path resolution out of the root, and the check is exact: for all operands, missing and refused ones included |
| status patch | `Status*.dfy` | the patch is a lens on raw bytes; fences, status lines and the frontmatter by what a reader sees |
| intent documents | `DraftCycles.dfy`, `Iterations.dfy`, `IterationLineage.dfy` | the cycle check is exact; local checks on iteration records are as strong as checks on the whole lineage |

`Wrappers.dfy`, `Text.dfy`, `Sorting.dfy` and `Paths.dfy` hold what the parts share (results, strings, sorting by a
key, `path.Clean` and ancestors). `dafny verify dfyconfig.toml` checks everything.

Where code and documentation differ, the model follows the code. Some facts the proofs settled:

- The refusal inside the queue's `write` can fire only for a wrapping counter: `MutateKeepsValidity` and
  `EnqueueKeepsValidity` give the exact condition.
- `ResumeRevalidation` does not look for earlier queued requests. It does not need to: in no reachable state are there any
  (`ResumeNeverOvertakes`).
- One active worker per resource depends on a truthful liveness answer. Without it there is still at most one
  worker that can change anything (`AtMostOneUnfencedInside`), but one false answer lets a second worker into the
  adapter from every state in which a first one is there (`FalseDeathLetsTwoIn`), and a run from the empty queue with
  a single false answer gets that far (`OneFalseAnswerBreaksExclusion`).
- A file on the board is refused, but a reference file above the board is not (`FileAboveTheBoard`); only a plan without
  cards can have one (`NothingAboveTheBoard`).
- An operand may name a file with a slash behind it: it is accepted, because it is cleaned first, although resolving it
  as written is refused (`SlashedFileAllowed`). That is the only disagreement: it happens if and only if the accepted operand
  ends in an empty part or a dot and its cleaned form ends at a plain file (`AllowedAsWritten`).
- `ValidateHistoryExtension` promises to refuse a target that holds different bytes under a source key, but it drops
  the errors of `Canonical`, so one invalid binding may be replaced by another (`InvalidBindingReplaced`). The promise is
  kept if and only if no invalid source binding stands against a different one (`KeepsBindingsExactly`), so for every
  source whose bindings are valid (`ValidSourceIsKept`).

Assumptions: each store method is one step, because it runs under the lock; JSON persistence of the queue is the identity; times are
opaque values, and the clock, the adapter's answers, liveness answers and cancellations are inputs of a step. SHA-256 is an arbitrary function
that gives lower-case hexadecimal digests. Lower-casing, policy parsing and the canonical spelling of unknown card fields are arbitrary
functions (the last one idempotent where that is needed).

## Model

| member | source | states |
|---|---|---|
| IntegrationStore.ValidatePersisted | internal/integrationqueue/store.go:217-242 | the scan with four maps accepts exactly the states with pairwise distinct ids, keys and sequences, one active request per resource, and a claim exactly in the claim-holding states |
| IntegrationStore.Store.Write | internal/integrationqueue/store.go:131-134 | only a valid state is ever made durable; otherwise nothing changes |
| IntegrationStore.Store.Enqueue | internal/integrationqueue/store.go:250-290 | the durable state and the answer are those of the enqueue step of the transition system, with every refusal |
| IntegrationStore.Store.MutateWithState | internal/integrationqueue/store.go:463-496 | likewise for every mutation, through the compare-and-swap on the revision |
| IntegrationStore.Store.Get | internal/integrationqueue/store.go:291-307 | the view of the request with that id, and no change |
| IntegrationStore.ComputeView | internal/integrationqueue/store.go:325-349 | the counting loop computes position and wait reason of the specified view |
| IntegrationInvariants.EnqueueKeepsValidity | internal/integrationqueue/store.go:250-290 | a valid state stays valid, and publication is refused exactly when the sequence counter would wrap |
| IntegrationInvariants.MutateKeepsValidity | internal/integrationqueue/store.go:463-496 | the same for every command, refused exactly when the revision would wrap |
| IntegrationInvariants.PositionsAreExactly | internal/integrationqueue/store.go:325-349 | the queued requests of a resource have the positions 1..k, each taken once |
| IntegrationInvariants.PositionsAreOrdered | internal/integrationqueue/store.go:325-349 | positions follow the enqueue order |
| IntegrationInvariants.NoWaitMeansAdmissible | internal/integrationqueue/store.go:366-383 | a queued request shows no wait reason if and only if admitting it with a valid claim would succeed |
| IntegrationInvariants.NoWaitMeansResumable | internal/integrationqueue/store.go:431-444 | a request to be revalidated shows none if and only if its owner could resume it |
| IntegrationSafety.MutateKeepsFifo | internal/integrationqueue/store.go:366-383 | no mutation lets a started request stand behind a queued one of its resource |
| IntegrationSafety.EnqueueKeepsFifo | internal/integrationqueue/store.go:250-290 | nor does a new request |
| IntegrationSafety.StepKeepsInv | internal/integrationqueue/executor.go:51-171 | every step of every worker, client or crash keeps the inductive invariant of store and workers |
| IntegrationTheorems.AdmissionsFollowSequence | internal/integrationqueue/store.go:366-383 | on every run from the empty queue first admissions on a resource happen in enqueue order |
| IntegrationTheorems.ResumeNeverOvertakes | internal/integrationqueue/store.go:431-444 | in every reachable state a successful resume has no earlier queued request before it |
| IntegrationTheorems.OneStartPerAdmission | internal/integrationqueue/executor.go:51-100 | on every stretch of every run the adapter is started at most once per entry into Admitted |
| IntegrationTheorems.OneStartWithoutResume | internal/integrationqueue/executor.go:51-100 | so at most once ever plus once per resume, with one start still in hand while the request waits |
| IntegrationTheorems.SupersededForever | internal/integrationqueue/store.go:384-399 | a worker whose revision was superseded stays so, and none of its steps changes the durable state |
| IntegrationTheorems.ReplacedClaimSupersedes | internal/integrationqueue/store.go:400-427 | losing the claim means being superseded |
| IntegrationTheorems.AtMostOneUnfencedInside | internal/integrationqueue/executor.go:102-155 | whatever liveness answers, of two workers inside the adapter for a resource one is superseded |
| IntegrationTheorems.AtMostOneInside | internal/integrationqueue/executor.go:102-155 | with truthful liveness at most one worker is inside the adapter for a resource, across recovery, cancellation and revalidation |
| IntegrationLifecycle.ReplayIsAnswered | internal/integrationqueue/store.go:271-280 | a stored request sent again unchanged answers the stored request and stores nothing |
| IntegrationLifecycle.RepeatIsAnswered | internal/integrationqueue/store.go:271-280 | so does the same request under its key with an id that is free |
| IntegrationLifecycle.CollisionIsRefused | internal/integrationqueue/store.go:271-280 | every other use of an id or key that is taken is an identity conflict |
| IntegrationLifecycle.NewIsQueued | internal/integrationqueue/store.go:282-289 | a request with a free id and key goes to the end of the queue, field by field |
| IntegrationLifecycle.SentAgain | internal/integrationqueue/store.go:250-290 | on every run a request that was answered once is answered again in every later state by the request as it then stands; refused exactly when it was sent under another id that was taken since |
| IntegrationLifecycle.CancelDecides | internal/integrationqueue/store.go:350-365 | cancelling succeeds exactly for the owner of a queued, admitted or revalidation request, and leaves it cancelled without a claim |
| IntegrationLifecycle.AdmitDecides | internal/integrationqueue/store.go:366-383 | admission succeeds exactly for a queued request with a claim for it, nobody at its resource and nobody queued before it |
| IntegrationLifecycle.MarkDecides | internal/integrationqueue/store.go:384-399 | marking succeeds exactly for whoever carries the claim, to the states that follow, and records state, reason and exit code |
| IntegrationLifecycle.RecoverDecides | internal/integrationqueue/store.go:400-427 | recovery replaces the claim exactly for the owner, after a report of death, with the held claim named |
| IntegrationLifecycle.ResumeDecides | internal/integrationqueue/store.go:431-444 | resuming succeeds exactly for the owner with the held claim when nobody is at the resource |
| IntegrationLifecycle.OnlyTheLifeCycle | internal/integrationqueue/store.go:452-462 | no command changes a state except along the thirteen ways of the life cycle |
| IntegrationLifecycle.EveryWayIsOpen | internal/integrationqueue/store.go:452-462 | and each of these ways can be gone from every valid state, the admissions when the resource is free |
| IntegrationLifecycle.RunsFollowTheLifeCycle | internal/integrationqueue/store.go:452-462 | on every run a request enters as queued and changes along the life cycle only |
| IntegrationLifecycle.CurrentIsGranted | internal/integrationqueue/executor.go:51-171 | what a worker that is not superseded asks of the queue is granted; only an admission may wait, and only a wrong replacement claim is refused |
| IntegrationLifecycle.PublicationIsRecorded | internal/integrationqueue/executor.go:157-171 | on every run the publication of a worker that is not superseded is recorded as it stands |
| IntegrationLifecycle.AnswerIsRecorded | internal/integrationqueue/executor.go:93-97 | what the adapter answers is recorded: a fitting answer as it is, exit code 4 as a revalidation, anything else as running with an unknown result |
| IntegrationLifecycle.ExecuteQueued | internal/integrationqueue/executor.go:51-98 | Execute of a queued request whose turn it is reaches the adapter, with the claim recorded |
| IntegrationLifecycle.ExecuteAdmitted | internal/integrationqueue/executor.go:51-98 | so does Execute of an admitted request with the held claim, as after a resume |
| IntegrationLifecycle.ExecuteOther | internal/integrationqueue/executor.go:51-75 | Execute of anything else leaves the queue alone and returns a repeated outcome, a demand for revalidation or a failure |
| IntegrationLifecycle.ReconcileDead | internal/integrationqueue/executor.go:102-155 | Reconcile of a dead worker's request takes it over: a running one into recovery, an admitted one into its start |
| IntegrationLifecycle.ReconcileOther | internal/integrationqueue/executor.go:102-136 | unless the worker is known to be dead, and for every other request, the queue is left alone and the adapter is not reached |
| IntegrationLifecycle.ReadsAs | internal/integrationqueue/executor.go:200-212 | how a request in each state reads as an outcome |
| IntegrationLifecycle.ValidSpecIsSound | internal/integrationqueue/store.go:163-194 | a request is accepted exactly when it is a delivery of one owner with absolute paths, full object ids and nothing blank |
| IntegrationLifecycle.StoredIsSound | internal/integrationqueue/store.go:217-242 | on every run all stored requests are such, with a claim of their owner exactly in the three claim-holding states |
| IntegrationOutcomes.FalseDeathLetsTwoIn | internal/integrationqueue/executor.go:102-155 | the liveness assumption is needed in every state: one false answer of death leads to two workers inside in four steps |
| IntegrationOutcomes.AdapterIsReached | internal/integrationqueue/executor.go:51-100 | such states are reached: a truthful run of five steps from the empty queue puts any valid request inside the adapter |
| IntegrationOutcomes.OneFalseAnswerBreaksExclusion | internal/integrationqueue/executor.go:102-155 | so mutual exclusion fails on a run from the empty queue that is truthful in every step but one |
| IntegrationOutcomes.NormalizeIsConsistent | internal/integrationqueue/executor.go:173-196 | a normalized outcome always has an exit code that agrees with its state |
| IntegrationOutcomes.RunKeepsOutcomes | internal/integrationqueue/executor.go:157-171 | on every run state, exit code and recorded reason of every request agree |
| IntegrationOutcomes.PublicationReadsBack | internal/integrationqueue/executor.go:200-212 | a published outcome is what a later read of the request gives back |
| IntegrationOutcomes.TerminalOutcomeIsReplayed | internal/integrationqueue/executor.go:51-75 | after the end every later Execute answers the recorded outcome, unchanged, on every continuation of the run |
| MaintenanceValidator.ValidatePlan | internal/boardruntime/maintenance_validate.go:10-70 | the separate loops together accept exactly the plans that satisfy the declarative acceptance predicate |
| MaintenanceValidator.PlanFiles | internal/boardruntime/maintenance_validate.go:72-96 | exactly the non-empty lists of well-formed files without two paths equal after lower-casing and without a file below a file |
| MaintenanceValidator.PlanRefs | internal/boardruntime/maintenance_validate.go:98-109 | exactly the sets whose references are distinct and resolve |
| MaintenanceValidator.PreserveClosure | internal/boardruntime/maintenance_validate.go:111-132 | exactly the pairs in which cards lie on the board and every other file is the same before and after |
| MaintenanceValidator.PlanMappings | internal/boardruntime/maintenance_validate.go:157-187 | exactly the mappings of card files, with distinct ends, that make the renaming of all files a bijection that keeps kinds |
| MaintenanceValidator.PreserveRefs | internal/boardruntime/maintenance_validate.go:134-155 | exactly the moves that carry the references of every file, as multisets, onto those of its image |
| MaintenanceValidator.PlanCards | internal/boardruntime/maintenance_validate.go:189-219 | exactly the lists with distinct identities and paths, one card for each card file, and parents and dependencies among them |
| MaintenanceValidator.CompareCards | internal/boardruntime/maintenance_validate.go:221-257 | exactly the card lists that agree up to the moved paths |
| MaintenanceTheorems.ReverseIsAccepted | internal/boardruntime/maintenance_validate.go:10-70 | the reverse of an accepted plan is accepted |
| MaintenanceTheorems.ReverseTwice | internal/boardruntime/maintenance_types.go:44-80 | and reversing twice gives the plan back |
| MaintenanceTheorems.AcceptedIsRenaming | internal/boardruntime/maintenance_validate.go:111-187 | an accepted plan is a bijection of paths that keeps kinds, carries reference multisets onto each other and fixes every other file |
| MaintenanceTheorems.AcceptedKeepsCards | internal/boardruntime/maintenance_validate.go:221-257 | the cards after are exactly the cards before with their paths moved |
| MaintenanceMeaning.CardsLieOnTheBoard | internal/boardruntime/maintenance_validate.go:111-132 | in an accepted plan every card and card file lies below the board, before and after, and no file is the board |
| MaintenanceMeaning.NothingAboveTheBoard | internal/boardruntime/maintenance_validate.go:88-94 | and a file above the board is accepted only in a plan without cards |
| MaintenanceMeaning.FileAboveTheBoard | internal/boardruntime/maintenance_validate.go:111-132 | such a plan there is: the board check refuses a file on the board and a card off it, not a reference file above it |
| MaintenanceMeaning.SafeMeans | internal/boardruntime/maintenance_types.go:103-112 | a path is safe exactly when its parts are no dots, not padded, without a dot at the end, not the directory of git, and free of backslash, colon and controls |
| MaintenanceMeaning.HeaderMeans | internal/boardruntime/maintenance_validate.go:10-30 | version, repository at a full commit, board, and five named authorities with digests, and no more, is asked of the header |
| MaintenanceMeaning.NamesAreSound | internal/boardruntime/maintenance_validate.go:72-109 | every file, reference, mapping and card of an accepted plan is named safely, and references are distinct and resolve on their side |
| MaintenanceMeaning.FilesAreApart | internal/boardruntime/maintenance_validate.go:81-94 | no two files of a side have one path up to case, and none lies below another |
| MaintenanceMeaning.ControllerBound | internal/boardruntime/maintenance_validate.go:53-55 | a controller that names a file names a reference file with its digest |
| MaintenanceMeaning.AuthoritiesStay | internal/boardruntime/maintenance_validate.go:45-52 | policy, rule and both schemas are each bound to a reference file that is the same before and after |
| MaintenanceMeaning.MovedCards | internal/boardruntime/maintenance_validate.go:157-187 | what is moved is a card that keeps its state and is otherwise the same after |
| MaintenanceMeaning.GraphIsClosed | internal/boardruntime/maintenance_validate.go:189-219 | on both sides identities and paths tell cards apart, and parents and dependencies are cards of that side |
| MaintenanceFreeze.FreezePlan | internal/boardruntime/maintenance_decode.go:45-61 | answers a frozen plan, and refuses only when no frozen plan exists, whichever permutation the unstable sorts produce |
| MaintenanceFreeze.FreezeIgnoresOrder | internal/boardruntime/maintenance_decode.go:169-200 | any reordering of files, mappings, cards, references or dependencies freezes to the same plan |
| MaintenanceFreeze.FreezeIsIdempotent | internal/boardruntime/maintenance_decode.go:169-200 | a frozen plan freezes to itself |
| MaintenanceMeaning.FrozenIsInOrder | internal/boardruntime/maintenance_decode.go:169-200 | a frozen plan lists files, mappings, cards, references and dependencies strictly upwards |
| MaintenanceMeaning.FrozenKeepsContent | internal/boardruntime/maintenance_decode.go:45-61 | and holds what was frozen, one to one: only orders change, and unknown fields are in their canonical spelling |
| JsonParser.ParseJson | internal/roleprotocol/json.go:42-65 | the moving parser computes the specified function of the whole text |
| JsonParser.Parser.Value | internal/roleprotocol/json.go:83-95 | one value is read from the unread bytes, with its size, leaving the rest |
| JsonParser.Parser.Object | internal/roleprotocol/json.go:133-178 | an object with distinct keys is read up to its brace, or refused |
| JsonParser.Parser.Array | internal/roleprotocol/json.go:180-208 | likewise an array |
| JsonParser.Parser.Number | internal/roleprotocol/json.go:210-245 | likewise a number, keeping its literal |
| JsonParser.Parser.Str | internal/roleprotocol/json.go:247-308 | likewise a string, with its escapes and surrogate pairs resolved |
| JsonParser.Parser.Hex4 | internal/roleprotocol/json.go:310-330 | four hexadecimal digits as a number, or no progress |
| JsonTheorems.ParseIffSpelled | internal/roleprotocol/json.go:42-330 | a text parses to a value if and only if it is valid UTF-8 within the limit and some syntax tree of RFC 8259 (sections 2 to 7), with distinct unescaped keys, paired surrogates and nesting at most 16, spells it and denotes that value |
| JsonTheorems.OneValuePerText | internal/roleprotocol/json.go:42-65 | the grammar is unambiguous: a text denotes one value |
| JsonAgreement.CharComplete | internal/roleprotocol/json.go:247-308 | every character of the grammar, by its own table of escapes, hexadecimal digits and UTF-16 pairs, is read as the bytes it denotes |
| JsonAgreement.CharSound | internal/roleprotocol/json.go:247-308 | and every character that is read is one of the grammar with that meaning |
| JsonTables.RuneReadsBack | internal/roleprotocol/json.go:300-303 | what is written for a code point is one well-formed UTF-8 sequence that stands for it |
| JsonTables.DepthIsLimited | internal/roleprotocol/json.go:83-95 | the limit on nesting asks only that no value has more than 16 brackets around it |
| JsonSizes.SizeIsSpelling | internal/roleprotocol/json.go:37-95 | the size of every value at any depth is the length of a substring that parses alone to the same value |
| JsonEncoding.ParsedFits | internal/roleprotocol/json.go:133-178 | parsed values have distinct keys at every level and lengths that 32 bits hold |
| JsonEncoding.ParsedIsKeyed | internal/roleprotocol/encoding.go:47-50 | whatever the parser returns meets what the encoder asks of its argument |
| JsonEncoding.TextsEncodeAlike | internal/roleprotocol/encoding.go:47-50 | two texts have one encoding if and only if they denote the same value up to key order |
| EncodingE.EncodeE | internal/roleprotocol/encoding.go:51-90 | appends the encoding, or refuses exactly when a number at any depth is no canonical unsigned 32-bit integer |
| EncodingE.Decodable | internal/roleprotocol/encoding.go:38-90 | unique decodability: equal bytes with any continuations mean equal values up to key order and equal continuations |
| EncodingE.SameEncodings | internal/roleprotocol/encoding.go:76-87 | the order of object keys never changes the encoding |
| EncodingE.EncodingDecides | internal/roleprotocol/encoding.go:47-90 | equal encodings if and only if equal values up to key order |
| EncodingReader.EncodedIsRead | internal/roleprotocol/encoding.go:38-90 | a reader written from the format alone (letters for kinds, big-endian lengths and counts, keys strictly ascending) gives back every encoded value and leaves what follows |
| JsonEncoding.EncodableMeans | internal/roleprotocol/encoding.go:58-66 | refused exactly when some number at any depth is no plain decimal spelling of 32 bits |
| EncodingE.LiteralIsDecimal | internal/roleprotocol/encoding.go:92-108 | a literal is read as v if and only if it is the decimal spelling of v below 2^32 |
| EncodingE.LDecodes | internal/roleprotocol/encoding.go:42-45 | a length prefix determines the bytes and where they end |
| SelectionTheorems.BindingRoundTrip | internal/roleprotocol/selection.go:133-181 | parsing and decoding the canonical text of any valid binding gives that binding |
| SelectionTheorems.CanonicalInjective | internal/roleprotocol/selection.go:133-143 | no two valid bindings share a canonical text |
| SelectionTheorems.CanonicalSelectorExact | internal/roleprotocol/selection.go:79-90 | exactly the canonical texts of the valid selectors are accepted, each as its selector |
| HistoryMeaning.BindingSpelled | internal/roleprotocol/selection.go:133-143 | the canonical text of a binding, character by character |
| HistoryMeaning.BindingDecodesExactly | internal/roleprotocol/selection.go:155-181 | a node decodes to a binding exactly when it is the object of its three members in order |
| HistoryMeaning.SelectorSpelled | internal/roleprotocol/selection.go:49-66 | the four selectors and their canonical text, character by character |
| History.Validate | internal/roleprotocol/history.go:95-181 | the loops and the two count comparisons accept exactly the histories whose entries stand under their own digests and whose policies and selections are all bound |
| History.AppendHistoryMap | internal/roleprotocol/history.go:202-208 | appends count, keys in byte order and length-prefixed values |
| History.DigestInput | internal/roleprotocol/history.go:186-200 | the bytes before hashing, or an error for an invalid binding |
| History.MapDecodes | internal/roleprotocol/history.go:202-208 | though keys have no length prefix, the bytes determine the map and where it ends |
| History.PreimageInjective | internal/roleprotocol/history.go:183-208 | valid histories with equal bytes before hashing are equal, in every mode |
| HistoryReader.PreimageIsRead | internal/roleprotocol/history.go:183-208 | a reader of policies, selections and bindings in that order, with keys strictly ascending, gives the history back |
| HistoryMeaning.ValidMeans | internal/roleprotocol/history.go:95-181 | a history is valid exactly within its limits, with every entry under its own digest, every policy and selection used and every binding between entries that are there |
| History.ValidateHistoryExtension | internal/roleprotocol/history.go:226-248 | accepts exactly the targets that keep every policy and selection, and every binding or, for an invalid one, any invalid one in its place |
| History.KeepsBindingsExactly | internal/roleprotocol/history.go:236-246 | an accepted target alters no source binding if and only if no invalid one stands against a different one |
| History.ValidSourceIsKept | internal/roleprotocol/history.go:226-248 | when the source bindings are valid, comparing bindings as texts accepts exactly the targets that keep every source entry |
| History.InvalidBindingReplaced | internal/roleprotocol/history.go:236-246 | two invalid bindings under one key for which the promise is broken |
| History.LegacySourceHistory | internal/roleprotocol/history.go:250-284 | one unselected binding for every policy in a valid history, or a reason to refuse |
| History.LegacyIsDetermined | internal/roleprotocol/history.go:250-284 | order and repetition of the policies do not show in the result |
| SnapshotBuild.NewCardsOnlySnapshot | internal/boardfiles/cards_only_snapshot.go:59-146 | accepts exactly the acceptable entries and builds exactly the snapshot that the naive definitions describe, with sorted paths |
| SnapshotBuild.FillAncestors | internal/boardfiles/cards_only_snapshot.go:104-120 | stopping at the first known ancestor still adds every ancestor, and refuses exactly when one is no directory |
| SnapshotBuild.PropagateTracked | internal/boardfiles/cards_only_snapshot.go:128-144 | one pass over the sorted paths backwards gives every directory the mark of all its descendants |
| SnapshotBuild.TrackedByChildren | internal/boardfiles/cards_only_snapshot.go:128-144 | what is tracked anywhere below a directory shows in its children |
| Snapshot.AncestorClosed | internal/boardfiles/cards_only_snapshot.go:104-120 | every ancestor of a path in a snapshot is a directory in it |
| Snapshot.DirectoryTracked | internal/boardfiles/cards_only_snapshot.go:97-144 | a directory is tracked if and only if a worktree's index or what it hides says so, the source is not Git, or something below it is tracked |
| Snapshot.LeafKept | internal/boardfiles/cards_only_snapshot.go:94-103 | anything else is kept as it was given and is tracked if and only if its entry says so or the source is no worktree |
| Snapshot.DirectoryKept | internal/boardfiles/cards_only_snapshot.go:104-120 | a directory is kept as it was given, or inferred and empty, from what lies below it |
| Snapshot.EntryMeans | internal/boardfiles/cards_only_snapshot.go:71-93 | what is accepted of one entry: path, kind, bytes, hidden tracked files and missing leaves |
| Snapshot.NothingEmpty | internal/boardfiles/cards_only_snapshot.go:136-138 | an accepted index or tree has no directory without anything tracked |
| Snapshot.OrderIsIrrelevant | internal/boardfiles/cards_only_snapshot.go:59-146 | the order of the entries does not show in the result |
| SnapshotCapture.TrackedDescendants | internal/boardfiles/cards_only_capture_unix.go:309-326 | exactly the proper ancestors of the tracked paths, in any iteration order |
| SnapshotCapture.PathBudget.Add | internal/boardfiles/cards_only_capture_unix.go:144-156 | a path counts once, and count, bytes and verdict stay in step |
| SnapshotCapture.NewCapturePathBudget | internal/boardfiles/cards_only_capture_unix.go:124-142 | refuses exactly when all tracked paths with their ancestors pass a limit, in any iteration order, and otherwise retains exactly those |
| SnapshotCapture.LimitsAre | internal/boardfiles/cards_only_capture_unix.go:124-142 | the limits are 100 000 paths and 16 MiB of names |
| OperandWalk.SnapshotPathAllowed | internal/taskflow/admission_probe.go:178-232 | terminates on every tree, cyclic links included, and computes the specified acceptance |
| OperandTheorems.AllowedStaysInside | internal/taskflow/admission_probe.go:174-232 | resolving an accepted operand as written, with any link limit, visits only directories inside the root and ends inside it |
| OperandTheorems.RestStaysInside | internal/taskflow/admission_probe.go:234-252 | after a missing name the rest is accepted if and only if it would stay inside the root with every missing name there as a directory |
| OperandTheorems.AllowedIffContained | internal/taskflow/admission_probe.go:178-252 | for every list of parts, acceptance is equivalent to a resolution within 40 links that is not refused, stays inside the root, follows admissible links only, and behind a missing name would stay inside as well |
| OperandTheorems.AllowedAsWritten | internal/taskflow/admission_probe.go:174-232 | the same for the operand as written, except exactly where it ends in a slash or dot and names a file: that is accepted though resolution refuses it |
| OperandTheorems.SlashedFileAllowed | internal/taskflow/admission_probe.go:174-232 | the exception happens: a file named with a slash behind it |
| OperandTheorems.LexicalMeans | internal/taskflow/admission_probe.go:161-172 | the text check asks for no flag, nothing absolute and no dot-dot between slashes of either kind; its clause about the cleaned operand adds nothing |
| StatusPatch.SetStatusCell | internal/card/codec.go:126-173 | the line loop with its fence state patches the first Status cell outside fenced code of the specified text, or refuses |
| StatusPatch.SplitFrontmatterWithOffset | internal/card/codec.go:180-209 | the body starts right behind the closing line of the frontmatter, or there is none |
| StatusCell.FenceState.Consume | internal/card/codec.go:475-507 | one line moves the fence state and counts as fenced as specified |
| StatusLaws.SetIsLocal | internal/card/codec.go:137-173 | every byte before and after the value stays, the reason behind the dash stays, the cell stays the first, and a change is reported exactly when the value differs |
| StatusLaws.SetTwice | internal/card/codec.go:168-170 | setting the same status again reports no change |
| StatusLaws.SetSet | internal/card/codec.go:126-173 | setting one status and then another equals setting the other directly |
| StatusLaws.SetThenRead | internal/card/codec.go:153-161 | the first cell outside fenced code then reads as the status that was set |
| StatusLaws.SetRefusesOrKeeps | internal/card/codec.go:128-136 | refused exactly for an unknown status or missing frontmatter; without a cell nothing changes |
| StatusLaws.StatusIsMark | internal/card/codec.go:451-468 | every status is written as a bracketed label that stays within its cell, so the laws apply to it |
| StatusMeaning.MarksAre | internal/card/codec.go:451-468 | which mark each status name gets, and that no other name is known |
| StatusMeaning.FenceReaches | internal/card/codec.go:475-507 | a fence reaches from a line with a run of markers to the first line with at least as many of the same and nothing else |
| StatusMeaning.NoFence | internal/card/codec.go:475-507 | a line that opens no fence where none is open is not in fenced code |
| StatusMeaning.FirstCell | internal/card/codec.go:137-152 | the patch goes to the first line of the body that has a cell and is not in fenced code |
| StatusMeaning.CellMeans | internal/card/codec.go:124 | a line has a cell exactly when it starts with bar, **Status**, bar among blanks, and its value ends at a bar or line end |
| StatusMeaning.WrittenMeans | internal/card/codec.go:153-161 | what is written is the mark, the old value from its first dash on without blanks at the end, and one space |
| StatusMeaning.FrontmatterMeans | internal/card/codec.go:180-209 | the body is what follows the second line of three dashes, the first being the first line |
| StatusMeaning.SpacesAre | internal/card/codec.go:475-480 | the white space that is trimmed is that of unicode |
| DraftCycles.ValidateDraftCycles | internal/intentdoc/bundle_validation.go:187-218 | accepts if and only if the key dependencies have no cycle, in any iteration order, and then an order exists in which dependencies come first |
| DraftCycles.CycleCheck.Visit | internal/intentdoc/bundle_validation.go:193-211 | a failed visit means a cycle; a successful one orders the key after all it depends on |
| DraftCycles.OrderedIsAcyclic | internal/intentdoc/bundle_validation.go:187-218 | a graph with such an order has no cycle |
| DraftCycles.EdgeMeans | internal/intentdoc/bundle_validation.go:187-206 | for distinct keys a draft depends on exactly the keys it lists |
| Iterations.ValidateIteration | internal/intentdoc/iteration.go:82-130 | exactly the well-formed records, with the rules for roots, idle records and progress |
| Iterations.ValidateIterationEvaluation | internal/intentdoc/iteration.go:132-182 | exactly the evaluations with distinct keys, evidence where required and a fitting stop reason |
| Iterations.ValidatePredecessor | internal/intentdoc/iteration_references.go:96-134 | exactly the records that follow the predecessor, with both overflow cases refused |
| Iterations.ValidateIterationReferences | internal/intentdoc/iteration_references.go:38-94 | exactly the records whose references, trigger and observations fit |
| Iterations.EveryCriterionObserved | internal/intentdoc/iteration_references.go:60-71 | comparing counts suffices: an accepted record observes every criterion of its intent exactly once and no other |
| IterationLineage.DecisionsAre | internal/intentdoc/iteration.go:166-176 | the eight pairs of a decision and its reason |
| IterationLineage.EvaluationMeans | internal/intentdoc/iteration.go:132-182 | accepted exactly with 1 to 128 criteria, each once, and evidence for what is asserted |
| IterationLineage.RecordMeans | internal/intentdoc/iteration.go:82-130 | a record is the first exactly when it names no predecessor, never its own; idle ones have no batch and no progress |
| IterationLineage.AcceptedAgainst | internal/intentdoc/iteration_references.go:38-134 | accepted exactly when it names its documents exactly, answers a declared trigger and all criteria of a maintenance intent, and continues its predecessor |
| IterationLineage.OrdinalIsPosition | internal/intentdoc/iteration_references.go:110-112 | along a lineage the ordinal is the position |
| IterationLineage.TotalsGrow | internal/intentdoc/iteration_references.go:110-118 | the intent never changes and totals never decrease between any two records |
| IterationLineage.TerminalIsLast | internal/intentdoc/iteration_references.go:113-115 | a record that stops or asks for a revision is only ever last |
| IterationLineage.CountIsStreak | internal/intentdoc/iteration_references.go:119-132 | the count kept in a record is the number of non-idle records since the last progress |
| IterationLineage.AcceptedIffExtends | internal/intentdoc/iteration_references.go:96-134 | the check against one predecessor accepts exactly what a check against the whole lineage would |

## Left out

- Creating, opening and listing a queue, files, locks and fsync: a step of the model is what happens under the lock.
- The text of errors: a refusal is a value of a small datatype or a boolean, so which of several failing checks reports first is modelled for the queue only.
- Aliasing of slices and defensive copies (`clonePlan`, `bytes.Clone`): values in the model cannot be shared.
- IntegrationStore.Store.MutateWithState: takes the command as a value instead of a closure, because the callers' closures are the commands of one datatype.
- The executor as objects: `Execute` and `Reconcile` are processes with a program counter in the transition system, because their meaning lies in how they interleave.
- MaintenanceValidator.ValidatePlan: takes the lower-casing of a character as a parameter and requires only that nothing but a slash becomes a slash and nothing but a dot a dot, as in Unicode.
- MaintenanceFreeze.FreezePlan: the digest of the frozen plan and the strict JSON decoding of plans are not modelled.
- JsonParser.Parser.Object: one turn of its loop is a method of its own, and an object is the sequence of its members where the source keeps a key list beside a map.
- JsonParser.Parser.Number: fraction and exponent are methods of their own.
- EncodingE.Decodable: lengths of 2^32 and more, for which the length prefix wraps, are excluded as the format excludes them.
- History.Validate: policy parsing and policy lineage are parameters; base64 and the JSON form of a whole history are not modelled.
- Adoption, acknowledgement, role, source and support documents of the role protocol: chains of equality checks.
- SnapshotBuild.NewCardsOnlySnapshot: permission bits and cancellation by a context are not modelled.
- SnapshotCapture.NewCapturePathBudget: requires clean relative paths, as the callers check before.
- OperandWalk.SnapshotPathAllowed: the root is absolute and clean, and the tree does not change during the walk.
- StatusPatch.SetStatusCell: lower-casing of a status name is a parameter; the YAML frontmatter is only delimited.
- Iterations.ValidateIteration: checks of single texts (identifiers, references, evidence lists) are one parameter.
- DraftCycles.ValidateDraftCycles: dependencies by task id are not followed, as in the source; the other checks of a bundle are not modelled.
- The command line, Git subprocesses, task storage and run-time, rendering, diagnostics, receipts and recovery of file moves.
