# Canonfig, modelled in Dafny

Canonfig publishes signed configuration revisions from a Source to Followers. This project models the parts of
it whose correctness rests on logic rather than on the operating system, and proves what those parts promise.
`dafny verify dfyconfig.toml` checks everything.

| file | what it models |
|---|---|
| `visibility.dfy` | which resources of a revision a follower's groups may see, and the projection it receives |
| `revision_cache.dfy` | the bounded cache in front of revision validation |
| `credential_migration.dfy` | several processes moving a Source's credentials to names of one state directory, as a state machine over their interleaved steps |
| `enrollment.dfy` | two-phase enrollment: invitations, pending rows, finalization, cancellation, revocation and recovery, over every run |
| `enrollment_history.dfy` | exactly when the Source lets an enrollment through, and the history behind each follower |
| `redaction.dfy`, `redaction_twice.dfy` | hiding known values in text, and doing it again |
| `cycles.dfy` | the cycle search in dependency graphs and synchronization plans |
| `target_paths.dfy`, `path_conflicts.dfy`, `path_safety.dfy` | normalized target paths, the check that resources own disjoint trees, and that accepted paths stay below their targets |
| `config_path.dfy` | the escape grammar of config key paths, and the check that keys own disjoint values |
| `utf8.dfy`, `text_composition.dfy` | the streaming check of appended text, and the file that holds Source and local text together |
| `scheduler_command.dfy`, `xml_text.dfy` | reading back the commands written into scheduler files |
| `executable_header.dfy`, `header_examples.dfy` | the ELF, Mach-O and PE checks, and the smallest file each accepts |
| `controlled_process.dfy` | the event handling of a bounded child process, and the output budget of a whole resolution |
| `systemctl.dfy`, `systemctl_meaning.dfy` | the systemctl argument grammar and the restart and reboot capabilities derived from it |
| `blob_store.dfy`, `blob_transfer.dfy` | blobs cut into chunks, served and fetched in byte ranges, and the download order |
| `compiler.dfy`, `authored_projection.dfy` | compiled revisions against the follower's checks, and what a follower receives of an authored profile |
| `metadata_budget.dfy`, `json_text.dfy` | metadata size against its budget, and the text that is measured |
| `options.dfy`, `binary.dfy`, `sequences.dfy`, `strings.dfy`, `sorting.dfy` | what the others share |

Code that changes state step by step is a method or a class proved against a specification function; the
properties are lemmas about that function. Digests, signatures, credential checks, Unicode normalization and
lower-casing are parameters. The assumptions on them are named predicates: `DigestsAreInjective` and `NulFree`
key ids in the cache, `DigestFixesLength` in the compiler, `IsFaithful` for paths.

Four things the code does not promise came out of the proofs, each with its exact condition:

- A cancellation lists the pending row and later removes its credential. A finalization in between loses the new
  follower's credential (`FinalizeBetweenReadAndCancel`, and `RaceLosesCredential` from the empty repository); the
  removal is safe exactly when no unrevoked follower names that credential (`LateCancelIsSafeIff`). A retry of the
  same invitation makes the same late writes, and is then refused (`FinalizeBetweenReadAndRetry`). Recovery at
  server start makes them for each row (`LateWritesOfRecovery`), under the exclusive server lease. Over whole runs
  each request is one atomic step.
- An enrollment that fails can leave its credential in the store (`FailedEnrollmentLeavesCredentialIff`), even when
  no call fails: a code already pending for another follower is enough (`ReplayLeavesCredential`).
- The overlap test on path text misses a filesystem root or `.` against a path below it (`RootIsMissed`), and
  nothing else (`OverlapIsNesting`).
- Redacting twice can hide more than redacting once, when a secret holds a bracket and a marker's end and the text
  behind it spell it (`BracketReachesOut`); it changes nothing exactly when no secret does so (`RedactingTwiceIff`).

A blob is fetched whole exactly when its longest range fits the server's limit, which is weaker than asking for a
client limit no larger than the server's (`TransferIsExact`).

## Model

| member | source | states |
|---|---|---|
| Visibility.PruneDependents | src/enrollment/enrollment.layer.ts:118-136 | the delete-until-unchanged loop ends with the greatest dependency-closed part of the ids it starts from, in every graph, cyclic ones included |
| Visibility.VisibleResources | src/enrollment/enrollment.layer.ts:108-137 | returns, in order, exactly the resources whose whole dependency closure is authorized |
| Visibility.AuthorizedResources | src/enrollment/enrollment.layer.ts:139-147 | returns the visible resources with their group names narrowed to the follower's |
| Visibility.VisibleIffReachableAuthorized | src/enrollment/enrollment.layer.ts:108-137 | with unique ids, a resource is visible exactly when every id a chain of dependencies reaches from it exists and is authorized |
| Visibility.VisibleIsGreatest | src/enrollment/enrollment.layer.ts:118-136 | the visible ids are dependency-closed and authorized, and contain every other such set |
| Visibility.VisibleIgnoresOrder | src/enrollment/enrollment.layer.ts:125-136 | listing the resources in any other order gives the same visible ids |
| Visibility.VisibleIsMonotone | src/enrollment/enrollment.layer.ts:100-106 | more groups never hide a resource |
| Visibility.ProjectionMembers | src/enrollment/enrollment.layer.ts:139-147 | a resource is in the projection exactly when it is the narrowed copy of a visible one |
| Visibility.ProjectionComposes | src/enrollment/enrollment.layer.ts:139-147 | with unique ids, projecting a projection again for fewer groups is projecting once for the fewer groups |
| Visibility.ProjectionIsIdempotent | src/enrollment/enrollment.layer.ts:139-147 | projecting twice for the same groups changes nothing |
| RevisionCache.CacheKeyIsInjective | src/enrollment/enrollment.layer.ts:405-436 | two requests share a key only when the revision, key id and public key agree, given injective digests and key ids without NUL |
| RevisionCache.ValidatedRevisions.Get | src/enrollment/enrollment.layer.ts:405-436 | finds the remembered profile of a key, or nothing |
| RevisionCache.ValidatedRevisions.CacheSet | src/enrollment/enrollment.layer.ts:390-403 | moves the key to the newest place and evicts only the oldest entry when the bound is passed |
| RevisionCache.ValidatedRevisions.CachedRevision | src/enrollment/enrollment.layer.ts:405-442 | answers as the specification of one request does and leaves the cache it leaves |
| RevisionCache.BoundCommutesWithTouch | src/enrollment/enrollment.layer.ts:390-403 | evicting after each use keeps the same entries as never evicting and keeping the newest at the end |
| RevisionCache.CacheIsMostRecentlyUsed | src/enrollment/enrollment.layer.ts:373-442 | after every request sequence the cache holds exactly the most recently used successes, at most the bound |
| RevisionCache.RememberedAreSuccesses | src/enrollment/enrollment.layer.ts:405-442 | only successful validations are ever remembered, each under one key |
| RevisionCache.HitIsFresh | src/enrollment/enrollment.layer.ts:405-442 | an answer from the cache is what a fresh validation would give |
| RevisionCache.CachedAnswerIsFresh | src/enrollment/enrollment.layer.ts:405-442 | after any history, any request is answered as a fresh validation would |
| RevisionCache.CacheIsOfHistory | src/enrollment/enrollment.layer.ts:373-442 | after any requests the entries are the verdicts of the last successful uses of each key, read off the history alone, in order and as far back as the bound allows |
| CredentialMigration.StepKeepsInv | src/enrollment/enrollment.layer.ts:484-545 | one step of one process keeps the invariant of all of them, whatever fails |
| CredentialMigration.RecordedItemsAreStored | src/enrollment/enrollment.layer.ts:444-545 | in every interleaving the recorded references name stored items that match the recorded identity, and a record is never lost |
| CredentialMigration.ReturnedCredentialsBelong | src/enrollment/enrollment.layer.ts:484-545 | what a process returns matches the identity, and so do the items stored under the record it returns |
| CredentialMigration.ReturnedCredentialsAreStored | src/enrollment/enrollment.layer.ts:484-545 | a process that returns through its own save returns exactly the items stored under its record, and they are still stored at every later state, whatever the others do |
| CredentialMigration.PublishedItemsNeverChange | src/enrollment/enrollment.layer.ts:444-545 | once a namespace was recorded, its items are never changed or removed in any interleaving |
| CredentialMigration.GlobalItemsUntouched | src/enrollment/enrollment.layer.ts:444-482 | no process changes or removes the global items, and a migrated record never becomes a global one again |
| CredentialMigration.CleanRunLeavesOnlyPublished | src/enrollment/enrollment.layer.ts:477-545 | when no save is interrupted and no removal fails, only copies that were once recorded remain at the end |
| CredentialMigration.SoloRunMigrates | src/enrollment/enrollment.layer.ts:484-545 | a process alone and without failures reaches a record under its own namespace with copies of the global items |
| CredentialMigration.MigratedSourceLoads | src/enrollment/enrollment.layer.ts:484-519 | in every interleaving, a process that has read a record under its own namespace loads the three items stored under it and at its fourth action returns exactly these, whatever the others do |
| CredentialMigration.SoloRunReturns | src/enrollment/enrollment.layer.ts:484-519 | a lone process of a migrated Source returns the three stored items at its fifth action and changes nothing |
| CredentialMigration.FailsIffCause | src/enrollment/enrollment.layer.ts:444-545 | a process fails exactly when it is stopped, a call of its own fails, there is no record, or the account-global items it was to copy are gone or another's |
| CredentialMigration.SparedProcessReturns | src/enrollment/enrollment.layer.ts:484-545 | in every interleaving a process makes at most thirteen actions, and one that met no such cause and has ended has returned |
| CredentialMigration.MigrationReplacedOnlyInRace | src/enrollment/enrollment.layer.ts:526-545 | a migrated record is replaced only by a process that reread it before anyone had migrated |
| Enrollment.SourceMachine.EnrollFollower | src/enrollment/enrollment.layer.ts:705-842 | the request changes the Source as the specification of enrollment does and returns its answer; what that is, in terms of the request, EnrollmentAcceptedIff and AcceptedEnrollmentWrites say |
| Enrollment.SourceMachine.CheckRequest | src/enrollment/enrollment.layer.ts:705-790 | the refusals before the credential is stored, in the order the program tests them |
| Enrollment.SourceMachine.FinalizeFollower | src/enrollment/enrollment.layer.ts:844-880 | finalization with its retry answer and the retirement of the replaced credential |
| Enrollment.SourceMachine.CancelPendingEnrollment | src/enrollment/enrollment.layer.ts:882-900 | deletes the pending row and removes its credential |
| Enrollment.SourceMachine.RevokeAndRetire | src/enrollment/enrollment.layer.ts:902-912 | revokes the record and removes its credential |
| Enrollment.SourceMachine.StartServerSession | src/enrollment/enrollment.layer.ts:357-372 | cancels every row an interrupted server left pending, and stops at the first failure |
| Enrollment.EnrollKeepsInv | src/enrollment/enrollment.layer.ts:705-842 | enrollment, with a failure at any store, keeps the invariant on pending rows, followers and credentials |
| Enrollment.FinalizeKeepsInv | src/enrollment/enrollment.layer.ts:844-880 | finalization keeps the invariant |
| Enrollment.LateFinalizeKeepsInv | src/state/state-repository.layer.ts:949-1147 | the finalization transaction keeps the invariant whatever row it is given, one that is gone included |
| Enrollment.TransactionOfListedRow | src/state/state-repository.layer.ts:949-1147 | given a row listed in the same state, the transaction promotes exactly that row or refuses |
| Enrollment.CancelKeepsInv | src/enrollment/enrollment.layer.ts:882-900 | cancellation keeps the invariant |
| Enrollment.RevokeKeepsInv | src/enrollment/enrollment.layer.ts:902-912 | revocation keeps the invariant |
| Enrollment.RecoverKeepsInv | src/enrollment/enrollment.layer.ts:357-372 | recovery at server start keeps the invariant, complete or not |
| Enrollment.StepKeepsInv | src/enrollment/enrollment.layer.ts:646-912 | every step of the Source keeps the invariant |
| Enrollment.LiveCredentialsSurviveEveryRun | src/enrollment/enrollment.layer.ts:357-372 | over every run each pending row and each unrevoked follower names a stored credential, each code has at most one pending row, and no pending row names a spent invitation |
| Enrollment.CompletedRestartLeavesNonePending | src/enrollment/enrollment.layer.ts:357-372 | a restart that completes leaves no pending row |
| Enrollment.InvitationEnrollsOnce | src/state/state-repository.layer.ts:949-1147 | in any run an invitation code turns at most one pending row into a follower |
| Enrollment.PreparedEnrollmentFinalizes | src/enrollment/enrollment.layer.ts:705-880 | an enrollment that succeeded can be finalized with its credential before the invitation expires, which stores exactly that follower |
| Enrollment.RetryReplacesPending | src/enrollment/enrollment.layer.ts:790-842 | a retry with the same code and name replaces its pending row and retires the earlier credential |
| Enrollment.FailedEnrollmentLeavesCredentialIff | src/enrollment/enrollment.layer.ts:781-842 | a failed enrollment leaves its credential behind exactly when listing or the withdrawal fails, or when the insertion is refused and the removal fails |
| Enrollment.ReplayLeavesCredential | src/enrollment/enrollment.layer.ts:790-842 | a run from the empty repository in which no call fails, and an enrollment refused as a replay leaves its credential stored under no row |
| Enrollment.LateCancelIsSafeIff | src/enrollment/enrollment.layer.ts:882-900 | cancelling a row read earlier keeps every live credential exactly when no unrevoked follower names the row's credential |
| Enrollment.FinalizeBetweenReadAndCancel | src/enrollment/enrollment.layer.ts:882-900 | a finalization between the read and the removal of a cancellation loses a live credential |
| Enrollment.RaceLosesCredential | src/enrollment/enrollment.layer.ts:844-900 | a row reached from the empty repository whose finalization falls into a cancellation: the follower is enrolled and nothing is stored for it |
| Enrollment.FinalizeBetweenReadAndRetry | src/enrollment/enrollment.layer.ts:790-842 | a finalization between the read of a retry and its writes makes the retry fail and loses the credential of the follower just enrolled |
| EnrollmentHistory.EnrollmentAcceptedIff | src/enrollment/enrollment.layer.ts:705-842 | an enrollment is accepted exactly when no call it needs fails, it names this Source and proves with its nonce an unspent invitation open at both clocks, its name is usable, enrolled for nobody and pending for nobody else, and its credential is new |
| EnrollmentHistory.AcceptedEnrollmentWrites | src/enrollment/enrollment.layer.ts:748-842 | an accepted enrollment leaves one row with the normalized name, the groups of the invitation and the drawn credential, stores that credential, withdraws the rows of the same code, and changes nothing else |
| EnrollmentHistory.EnrollmentErrorIsTruthful | src/enrollment/enrollment.layer.ts:705-842 | each error an enrollment reports is what is wrong with the request or with a call |
| EnrollmentHistory.FinalizationSucceedsIff | src/enrollment/enrollment.layer.ts:844-880 | a finalization succeeds exactly when the credential's pending row can be promoted, or it has none and is that of an unrevoked follower |
| EnrollmentHistory.PromotionWrites | src/enrollment/enrollment.layer.ts:844-880 | a promotion enrolls exactly the row's follower, spends its invitation, removes the row and retires the replaced credential; all else stays |
| EnrollmentHistory.CancelledCannotFinalize | src/enrollment/enrollment.layer.ts:882-900 | after a cancellation the row and its stored credential are gone, all others are there, and the credential cannot be finalized |
| EnrollmentHistory.StoredCredentialsMatchEveryRun | src/enrollment/enrollment.layer.ts:646-912 | over every run, what is stored for a pending row or a follower is the credential with the digest on record |
| EnrollmentHistory.RowHasOrigin | src/enrollment/enrollment.layer.ts:705-842 | over every run, each pending row was left by an enrollment that proved an open invitation, and holds that request's name and that invitation's groups |
| EnrollmentHistory.FollowerHasOrigin | src/enrollment/enrollment.layer.ts:844-880 | over every run, each follower was enrolled in time by a finalization with the credential of a pending row, from which it has all but groups given later |
| EnrollmentHistory.FollowerHasHistory | src/enrollment/enrollment.layer.ts:646-880 | over every run, behind each follower stand, in this order, an invitation with its groups, a request that proved it, and a finalization with the credential drawn for that request |
| EnrollmentHistory.RevocationWrites | src/enrollment/enrollment.layer.ts:902-912 | a revocation revokes exactly that follower and removes exactly its stored credential |
| EnrollmentHistory.RevokedUntilEnrolledAgain | src/enrollment/enrollment.layer.ts:844-912 | over every run, a revoked follower is in force again only after a new enrollment of it was finalized |
| EnrollmentHistory.NonceNamesOneInvitation | src/state/state-repository.layer.ts:649-676 | over every run, no two invitations share a nonce |
| Redaction.RedactKnownValues | src/cli/redaction.ts:74-75 | the output replaces exactly the covered positions, one marker for each maximal run |
| Redaction.LiteralRanges | src/cli/redaction.ts:40-72 | the ranges cover exactly the positions in some occurrence, overlapping ones included, of a non-empty secret or a marker |
| Redaction.MarkerRanges | src/cli/redaction.ts:44-49 | finds every marker already in the text |
| Redaction.SecretRanges | src/cli/redaction.ts:50-71 | finds every occurrence of one secret that markers do not already cover |
| Redaction.MergeRanges | src/cli/redaction.ts:19-31 | the merged ranges are sorted, never touch, and cover the same positions |
| Redaction.RenderRanges | src/cli/redaction.ts:32-38 | copies the gaps and writes one marker for each merged range |
| Redaction.KeptTextHoldsNoSecret | src/cli/redaction.ts:40-75 | every position of every occurrence of a secret or a marker is covered |
| Redaction.OutputCoverage | src/cli/redaction.ts:15-75 | when no secret holds a bracket, the covered positions of the output are exactly those of its written markers |
| Redaction.OnlyTheSecretsMatter | src/cli/redaction.ts:74-75 | order and repetition of the secrets, empty ones and the marker itself never matter |
| Redaction.RedactingTwice | src/cli/redaction.ts:15-75 | when no secret holds a bracket, redacting twice equals redacting once |
| RedactionTwice.OutputHoldsNoSecret | src/cli/redaction.ts:40-75 | when no secret holds a bracket, the output holds none of the secrets, except one the marker itself spells |
| RedactionTwice.OtherTextIsKept | src/cli/redaction.ts:15-75 | text that holds no secret and no marker stays as it is |
| RedactionTwice.RedactingTwiceIff | src/cli/redaction.ts:15-75 | for every text and all secrets, redacting again changes nothing exactly when no secret in the output reaches beyond the markers written; otherwise it shortens the text |
| RedactionTwice.BracketReachesOut | src/cli/redaction.ts:15-75 | a text and a secret with a bracket for which redacting again does change the output |
| Cycles.CycleFinder.Visit | src/domain/synchronization.ts:661-675 | the search returns a cycle of the graph, or finishes the node and keeps the path; the measure is the set of unfinished nodes |
| Cycles.CycleFinder.Search | src/domain/synchronization.ts:676-680 | visiting every node finds a cycle or finishes all nodes in an order with every edge pointing back |
| Cycles.FindCycle | src/domain/profile.ts:1122-1151 | no cycle is returned exactly when no walk from a node to one its last definition lists comes back to its start, which is exactly when the nodes can be put in order; a returned list is such a walk, through distinct nodes |
| Cycles.EdgeIffPoints | src/domain/synchronization.ts:654-680 | the searched graph has an edge exactly where the last node of an id lists a known id |
| Cycles.CheckActions | src/domain/synchronization.ts:626-637 | reports exactly the repeated ids and the kinds that differ from their details |
| Cycles.CheckReferences | src/domain/synchronization.ts:638-648 | reports exactly the references to actions the plan does not have |
| Cycles.ValidateSynchronizationPlan | src/domain/synchronization.ts:626-652 | reports only real defects, every defect but cycles, a cycle exactly when actions must precede each other in a circle, and nothing exactly when the actions can be put in an order that has every action before all its `before` entries |
| Cycles.PostorderIsAcyclic | src/domain/synchronization.ts:654-680 | a graph whose nodes finish after their successors has no cycle |
| Cycles.ReversedPostorder | src/domain/synchronization.ts:654-680 | the finishing order reversed respects every edge |
| Cycles.OrderExcludesCycle | src/domain/synchronization.ts:654-680 | no graph has both a linear order and a cycle |
| Cycles.DefectPreventsExecution | src/domain/synchronization.ts:626-652 | each reported defect is a reason the plan cannot be executed |
| TargetPaths.NormalizedTargetPath | src/domain/profile.ts:831-854 | the program's loop writes the text of the location a path denotes, lower-casing and normalization changing any segment as a whole |
| TargetPaths.SplitJoin | src/domain/profile.ts:843-847 | joining segments without slashes and splitting again gives them back |
| TargetPaths.LocationIsWellFormed | src/domain/profile.ts:831-854 | a normalized path has no empty, current-directory or slashed segment |
| TargetPaths.EntryIsWithinTarget | src/domain/profile.ts:935-943 | a path joined to a target keeps the target's root and segments and adds its own after them |
| TargetPaths.OverlapIsPrefix | src/domain/profile.ts:1008-1011 | the overlap test on text is the prefix test on segments |
| TargetPaths.OverlapIsNesting | src/domain/profile.ts:1008-1011 | the overlap test agrees with nesting of the two trees exactly when not one path alone is its root |
| TargetPaths.RootIsMissed | src/domain/profile.ts:1008-1011 | the test finds no overlap between `/` and `/a` |
| TargetPaths.DisjointIffNotNested | src/domain/profile.ts:1008-1011 | two trees share no location exactly when neither contains the other |
| PathConflicts.CanonicalResourcePathClaims | src/domain/profile.ts:919-947 | the valid entries become claims and the others errors, in the order of their paths |
| PathConflicts.CollectClaims | src/domain/profile.ts:957-974 | every resource's own errors, and its entry claims under its id |
| PathConflicts.CompareWithLater | src/domain/profile.ts:1012-1061 | the inner loop over the later claims |
| PathConflicts.ValidateResourcePathConflicts | src/domain/profile.ts:953-1063 | the nested loops produce the errors of comparing all pairs in order |
| PathConflicts.NoErrorIffConsistent | src/domain/profile.ts:953-1063 | with unique ids and targets below their roots, nothing is reported exactly when all paths are valid, resources own disjoint trees, and entries of one resource overlap only below a declared directory |
| PathConflicts.ManagedPathsAreDisjoint | src/domain/profile.ts:953-1063 | without errors, any claims of two resources have places, and wherever they are placed no location lies below both |
| PathConflicts.EntriesOfTwoAreDisjoint | src/domain/profile.ts:953-1063 | without errors, the location of an entry of one resource and that of an entry of another are disjoint trees |
| PathConflicts.ConflictIffOverlap | src/domain/profile.ts:1047-1060 | whatever else is wrong, two resources are reported exactly when some of their claims overlap |
| PathConflicts.OneConflictPerPair | src/domain/profile.ts:1047-1060 | two resources are reported as conflicting at most once, whichever way round |
| PathConflicts.QuietIffCompatible | src/domain/profile.ts:1022-1045 | two entries of one resource pass exactly when they are apart or one is a declared directory around the other |
| PathConflicts.OwnConflictIffDisturbed | src/domain/profile.ts:1022-1045 | one resource is reported against itself exactly when two of its claims may not both stand |
| PathSafety.TargetAcceptedIff | src/domain/profile.ts:805-820 | a target is accepted exactly when it is not blank and holds no NUL, no glob and no parent component between separators of either kind; the reason names what is wrong |
| PathSafety.EntryAcceptedIff | src/domain/profile.ts:856-904 | an entry is accepted exactly when it names something below any directory in one way only, and on Windows in names Windows allows |
| PathSafety.ReasonIsTruthful | src/domain/profile.ts:856-904 | the reason given for a refused entry names something wrong with it |
| PathSafety.ReservedIffDevice | src/domain/profile.ts:893-895 | a segment is reserved exactly when it is a device name in any case, alone or before a dot |
| PathSafety.EntryStaysBelowTarget | src/domain/profile.ts:919-947 | read component by component, an accepted entry leads from its target to its own components and so strictly below it |
| PathSafety.LocationIsReached | src/domain/profile.ts:831-854 | the location of an accepted target is the place its components lead to, with case and composition folded |
| PathSafety.ClaimsAre | src/domain/profile.ts:975-1007 | every resource but tools and credentials claims its target and exactly its accepted entries |
| PathSafety.InvalidPathsAreReported | src/domain/profile.ts:957-974 | exactly the invalid targets and entries are reported, each with its reason |
| PathSafety.ConflictsAreTruthful | src/domain/profile.ts:1012-1061 | every reported conflict names two overlapping claims, and says which |
| ConfigPath.ParseConfigPath | src/domain/config-path.ts:13-44 | the index loop reads the path as the escape grammar does and reports the same issue |
| ConfigPath.FormatThenParse | src/domain/config-path.ts:49-57 | formatting valid segments and parsing gives them back |
| ConfigPath.ParseThenFormat | src/domain/config-path.ts:13-57 | formatting what a valid path parses to gives the path back |
| ConfigPath.EscapeStep | src/domain/config-path.ts:56-57 | the two successive replacements escape character by character |
| ConfigPath.ConfigPathsOverlap | src/domain/config-path.ts:60-69 | two paths overlap exactly when one segment list is a prefix of the other |
| ConfigPath.IssueNamesFault | src/domain/config-path.ts:13-44 | each issue says what is wrong: a NUL, no reading at all, an empty segment in the one reading, or a reserved one, in this order |
| ConfigPath.OverlapIsSharedKey | src/domain/config-path.ts:60-69 | two valid keys overlap exactly when some key is, or lies below, both; an invalid path overlaps only itself |
| ConfigPath.ValidateConfigKeys | src/domain/profile.ts:629-654 | reports exactly the invalid paths, the inexact numbers and every overlapping pair, each under the path that sorts later, and no path error exactly when the keys are valid and prefix-free |
| ConfigPath.ReportIsExact | src/domain/profile.ts:629-654 | the report of the sorted entries names exactly the invalid, inexact and overlapping keys of the list in any order |
| ConfigPath.CleanReportMeansDisjoint | src/domain/profile.ts:629-654 | a report without path errors is exactly valid, prefix-free keys |
| Utf8.StreamConcat | src/domain/text-composition.ts:52-74 | decoding a concatenation is decoding its parts one after the other, wherever it is cut |
| Utf8.DecodeEncoded | src/domain/text-composition.ts:24-31 | encoding and decoding gives the text back exactly when the text is well formed |
| Utf8.EncodeDecoded | src/domain/text-composition.ts:13-14 | encoding what bytes decode to gives the bytes back |
| TextComposition.ChunkScanner.Scan | src/domain/text-composition.ts:59-65 | after each text, `previous` is the last carried characters seen and the flags describe everything seen |
| TextComposition.ChunkScanner.DecodeChunk | src/domain/text-composition.ts:66-73 | decodes one chunk on from the open sequence and scans what it completes, or reports invalid bytes |
| TextComposition.SourceChunksIssue | src/domain/text-composition.ts:52-74 | every way of cutting the bytes gives the answer of the whole |
| TextComposition.WindowSeesMarker | src/domain/text-composition.ts:55-65 | the carried characters and the new text together hold exactly the new occurrences of a marker |
| TextComposition.NoIssueIffAdmissible | src/domain/text-composition.ts:24-31 | a text has no issue exactly when it is well formed and holds no NUL and no marker |
| TextComposition.IssueNamesFault | src/domain/text-composition.ts:24-31 | the issue named is the first of a NUL, a lone surrogate and a marker |
| TextComposition.BytesPassIffEncodeAdmissible | src/domain/text-composition.ts:34-42 | bytes pass exactly when they encode an admissible text, and are reported as no UTF-8 exactly when they encode no text |
| TextComposition.ComposeThenParse | src/domain/text-composition.ts:81-111 | parsing a composition of an admissible source and local text returns both |
| TextComposition.ManagedIsComposed | src/domain/text-composition.ts:81-103 | a managed file is the composition of what it parses to, and both parts are admissible |
| TextComposition.ParseThenCompose | src/domain/text-composition.ts:81-111 | composing a managed parse rebuilds the file byte for byte |
| TextComposition.ParsedLocalIsAdmissible | src/domain/text-composition.ts:81-103 | the local text of any accepted file can be composed again |
| TextComposition.UpdatesKeepLocalText | src/domain/text-composition.ts:81-111 | over any sequence of Source updates the local text never changes and only the last source remains |
| TextComposition.UnmanagedIff | src/domain/text-composition.ts:81-84 | a file without NUL and markers is local text as a whole, and no other file is |
| TextComposition.ManagedIff | src/domain/text-composition.ts:81-103 | a file is managed exactly when it is a source between the delimiters at its start and local text behind them |
| TextComposition.RefusedIffNeither | src/domain/text-composition.ts:81-103 | a file is refused exactly when it is neither, and the reason says whether it is no UTF-8 or holds a NUL |
| TextComposition.AdoptionKeepsWholeFile | src/domain/text-composition.ts:105-111 | after first adoption and any updates the whole original file stands, byte for byte, behind the last published source |
| TextComposition.UpdatesReplaceHead | src/domain/text-composition.ts:105-111 | updating a managed file replaces its source and keeps every byte behind it |
| SchedulerCommand.InstalledWindowsCommand | src/machine/installed-scheduler-command.ts:68-93 | the index loops read the command line as the quoting grammar does, and always advance |
| SchedulerCommand.WordFrom | src/machine/installed-scheduler-command.ts:73-90 | one word of the command line and where it ends |
| SchedulerCommand.SkipFrom | src/machine/installed-scheduler-command.ts:73-90 | the spaces before a word |
| SchedulerCommand.ReadQuotedBody | src/machine/installed-scheduler-command.ts:68-93 | a quoted argument reads back as itself, with any run of backslashes before a quote |
| SchedulerCommand.WindowsRoundTrip | src/machine/installed-scheduler-command.ts:68-93 | every executable and argument list is recovered from its quoting, empty strings, quotes and backslashes included |
| SchedulerCommand.WindowsReadIff | src/machine/installed-scheduler-command.ts:68-93 | a command line is read exactly when both texts are there, the executable is not empty and the number of unescaped quotes is even |
| SchedulerCommand.InstalledSystemdCommand | src/machine/installed-scheduler-command.ts:17-47 | the index loop reads an ExecStart line as the quoting grammar does |
| SchedulerCommand.QuotedFrom | src/machine/installed-scheduler-command.ts:24-40 | one quoted word of the line and whether it closes |
| SchedulerCommand.SystemdRoundTrip | src/machine/installed-scheduler-command.ts:17-47 | every executable and argument list is recovered from the line the unit file holds |
| SchedulerCommand.SystemdReadIff | src/machine/installed-scheduler-command.ts:17-47 | a line is read as a command exactly when it is that command, each word quoted as the writer quotes it, with spaces between them |
| XmlText.DecodeReadsEachEntityOnce | src/machine/installed-scheduler-command.ts:49-53 | the successive replacements read every entity once: the text means what its entities spell |
| XmlText.XmlRoundTrip | src/machine/installed-scheduler-command.ts:49-53 | decoding what the property list writer escapes gives the text back |
| XmlText.DecodedIffRead | src/machine/installed-scheduler-command.ts:49-53 | text is decoded exactly when every `&` starts one of the five entities, and then to what its pieces stand for |
| ExecutableHeader.LinuxExecutableHeader | src/machine/installed-scheduler-command.ts:102-137 | reads only inside the buffer and accepts exactly when the header, the segment table and the entry point are those of a native ELF file |
| ExecutableHeader.ElfEntryIsInFile | src/machine/installed-scheduler-command.ts:102-137 | an accepted ELF entry point lies in the file bytes of an executable loadable segment, which is an entry of the file's own table |
| ExecutableHeader.MachoUniversalSlice | src/machine/installed-scheduler-command.ts:142-157 | selects the first slice for the processor when every slice lies in the file, and none otherwise |
| ExecutableHeader.CollectCommands | src/machine/installed-scheduler-command.ts:163-181 | walks the load commands as the declarative reader does and stops at the first that is not admissible |
| ExecutableHeader.MachoThinExecutableHeader | src/machine/installed-scheduler-command.ts:159-186 | accepts exactly when the load commands fill their area, lie in the file and place the entry in an executable segment |
| ExecutableHeader.MachoEntryIsInFile | src/machine/installed-scheduler-command.ts:159-186 | an accepted Mach-O file has exactly one entry command, whose offset lies after the commands and in an executable segment, both among the commands read from the file |
| ExecutableHeader.WindowsExecutableHeader | src/machine/installed-scheduler-command.ts:195-220 | accepts exactly when the headers and sections lie in the file and an executable section holds the entry |
| ExecutableHeader.PeEntryIsInFile | src/machine/installed-scheduler-command.ts:195-220 | an accepted PE entry lies in the file bytes of an executable section, which is an entry of the file's own table |
| ExecutableHeader.DarwinExecutableHeader | src/machine/installed-scheduler-command.ts:190-194 | a universal file is judged by its selected slice, any other as a thin file |
| ExecutableHeader.SelectedSliceDecides | src/machine/installed-scheduler-command.ts:190-194 | at most one slice is selected, so it alone decides |
| ExecutableHeader.NativeExecutableHeader | src/machine/installed-scheduler-command.ts:188-222 | each platform accepts exactly its own native format, and no other platform accepts anything |
| HeaderExamples.ElfIsAccepted | src/machine/installed-scheduler-command.ts:102-137 | the smallest ELF file, byte by byte, is accepted exactly for its processor and byte order and when the file is all there |
| HeaderExamples.MachoIsAccepted | src/machine/installed-scheduler-command.ts:159-186 | the same for the smallest thin Mach-O file |
| HeaderExamples.PeIsAccepted | src/machine/installed-scheduler-command.ts:195-220 | the same for the smallest PE file |
| HeaderExamples.EachOnItsOwnPlatform | src/machine/installed-scheduler-command.ts:188-222 | each of the three is accepted on its own platform and on no other |
| ControlledProcess.Process.Dispatch | src/agent/controlled-executor.ts:683-816 | each event changes the state as the specification of one event does |
| ControlledProcess.ExecuteControlledProcess | src/agent/controlled-executor.ts:683-816 | the outcome of any event sequence is that of the specification, which OutcomeOfEvents reads off the events alone |
| ControlledProcess.CaptureIsExact | src/agent/controlled-executor.ts:683-816 | every delivered byte is counted; the kept output is the whole of each stream while the limit holds, and past it a prefix of each, never longer than the limit together |
| ControlledProcess.RunSettlesOnce | src/agent/controlled-executor.ts:683-816 | once settled, no later event changes the outcome |
| ControlledProcess.SuccessIsBounded | src/agent/controlled-executor.ts:683-816 | a successful result holds exactly the bytes delivered before it settled, counted by `outputBytes` and within the limit, and no time-out, cancellation or failed start is among the events up to then |
| ControlledProcess.OutcomeOfEvents | src/agent/controlled-executor.ts:683-816 | the caller gets the answer to the shortest run of events that can be answered: a failed start, a cancellation, a time-out, excess output, a failed input or the result, in this order |
| ControlledProcess.OpenIffUnanswerable | src/agent/controlled-executor.ts:683-816 | there is no outcome exactly while no prefix of the events holds a failed start, or a close with whatever ended the process finished |
| ControlledProcess.SuccessIffUndisturbed | src/agent/controlled-executor.ts:683-816 | a run succeeds exactly when that prefix holds no failed start, cancellation, time-out or excess output, and no failed input but an early exit's with a failing code |
| ControlledProcess.ClosedRunIsSettled | src/agent/controlled-executor.ts:683-816 | a process that closed and whose termination finished has settled |
| ControlledProcess.SucceededBytes | src/agent/agent-resolution.layer.ts:156-299 | the bytes a step is charged are the raw bytes its process delivered |
| ControlledProcess.RunActions | src/agent/agent-resolution.layer.ts:201-250 | all actions run exactly when each is admitted, succeeds and fits what the earlier ones left |
| ControlledProcess.RunResolution | src/agent/agent-resolution.layer.ts:156-299 | a resolution is applied exactly when harness, actions and verifier can all succeed one after another within the budget, where the actions are what the harness output decodes to |
| ControlledProcess.AppliedStaysWithinLimit | src/agent/agent-resolution.layer.ts:156-299 | the raw output of an applied resolution, over harness, actions and verifier, never exceeds the limit |
| Systemctl.ParseSystemctlArguments | src/agent/agent-resolution.service.ts:2370-2437 | the index loops classify the arguments as the grammar does |
| Systemctl.ReadCluster | src/agent/agent-resolution.service.ts:2416-2434 | one cluster of short options: its names and whether the next argument is its value |
| Systemctl.EachIndexIsConsumedOnce | src/agent/agent-resolution.service.ts:2370-2437 | an accepted list has roles that follow the grammar's rules: the separator is the first `--` where an item starts, everything after it is positional, an option value stands exactly after an option of two arguments; the reported positionals and options are those the roles give |
| Systemctl.RolesAreDetermined | src/agent/agent-resolution.service.ts:2370-2437 | no other assignment of roles to the arguments follows the rules |
| Systemctl.AcceptedIffRolesFollow | src/agent/agent-resolution.service.ts:2370-2437 | a list is accepted exactly when some assignment of roles follows the rules |
| Systemctl.CapabilitiesReadCommands | src/agent/agent-resolution.service.ts:2517-2544 | the capabilities depend only on the positional commands and on whether `--now` was given |
| Systemctl.InsertedOptionChangesNothingElse | src/agent/agent-resolution.service.ts:2370-2437 | an option inserted where an item starts, before any separator, adds its names and changes no positional command |
| Systemctl.InsertedOptionKeepsCapabilities | src/agent/agent-resolution.service.ts:2517-2544 | inserting any well-formed known option other than `--now` at such a place keeps the positionals and the derived capabilities |
| SystemctlMeaning.ArgumentMeans | src/agent/agent-resolution.service.ts:2380-2434 | where an item starts, an argument is the separator, a positional, one known long option with or without its value, or a cluster of known short options of which only the last takes a value |
| SystemctlMeaning.UnknownIsUnsafe | src/agent/agent-resolution.service.ts:2522-2526 | an argument list the grammar does not explain derives both capabilities |
| SystemctlMeaning.VerbDecides | src/agent/agent-resolution.service.ts:2527-2544 | otherwise the first positional decides: reboot exactly when it changes the power state, or starts, or with `--now` enables, a unit that does; else only `restart` derives restart |
| SystemctlMeaning.NowIsSpelled | src/agent/agent-resolution.service.ts:2388-2411 | `--now` is given exactly where an option spells it, in any case and without a value |
| BlobStore.StoreResourceBlob | src/state/state-repository.layer.ts:1331-1405 | a new file is stored exactly when its length and digest are the declared ones, and then as the file cut every chunk length; a stored blob is kept exactly when its own length and digest are the declared ones |
| BlobStore.StoredChunkedBlobDigest | src/state/state-repository.layer.ts:1305-1324 | hashing the rows one at a time gives the digest of their concatenation, when all are there and have the recorded length |
| BlobStore.StoredDigestIsFiles | src/state/state-repository.layer.ts:1305-1405 | the digest read back from a stored file is the file's |
| BlobStore.ReadResourceBlobRange | src/state/state-repository.layer.ts:1638-1704 | a range is served exactly when every chunk it touches is stored, is no longer than a chunk and reaches as far as the range needs, for any rows |
| BlobStore.ReadRows | src/state/state-repository.layer.ts:1673-1694 | the byte count after the loop is complete exactly when no chunk is missing, too long or too short |
| BlobStore.StoredRangeIsExact | src/state/state-repository.layer.ts:1638-1704 | any range of a stored file is served, and its pieces are the file's bytes there |
| BlobStore.AnyRangeIsExact | src/state/state-repository.layer.ts:1638-1704 | whatever the rows are, a range is served exactly when each of its bytes is stored and no row it touches is too long, and then as exactly these bytes |
| BlobTransfer.SourceServer.RouteBlob | src/enrollment/source-server.ts:450-518 | answers one bounded range of an authorized blob, refuses the rest, and counts exactly the bounded requests |
| BlobTransfer.ServedIsExact | src/enrollment/source-server.ts:459-518 | a bounded range inside a stored file is answered with exactly its bytes, range and total |
| BlobTransfer.ServedMeans | src/enrollment/source-server.ts:450-518 | which of 200, 206, 400, 404 and 500 a request gets, and with 206 exactly the stored bytes up to the end of the blob |
| BlobTransfer.RetrieveBlob | src/enrollment/follower-client.ts:1175-1254 | the result is that of the specification; only planned ranges are requested, all of them on success, and progress reports the end of each |
| BlobTransfer.Retrieved | src/enrollment/follower-client.ts:1175-1254 | whatever the network returns, bytes are only accepted with the signed length and digest |
| BlobTransfer.AcceptedIffParts | src/enrollment/follower-client.ts:1175-1254 | bytes of a blob that is not empty are accepted exactly when every planned request is answered with its whole part and the parts in order have the signed digest |
| BlobTransfer.RetrievalErrorIsTruthful | src/enrollment/follower-client.ts:1175-1254 | a failed retrieval reports a bad limit, missing metadata, the first faulty answer, or bytes without the signed digest |
| BlobTransfer.RangesPartition | src/enrollment/follower-client.ts:1213-1245 | the ranges follow one another from the first byte to the last, each but the last as long as the limit |
| BlobTransfer.PartitionRebuilds | src/enrollment/follower-client.ts:1213-1245 | the bytes of the ranges, in order, are the blob |
| BlobTransfer.RangeCount | src/enrollment/follower-client.ts:1213-1245 | a blob is fetched in as many ranges as the table has chunks of the limit: the length divided by it, rounded up, and one for an empty blob |
| BlobTransfer.TransferIsExact | src/enrollment/follower-client.ts:1175-1254 | fetching from a Source that stores the file gives the file exactly when the longest range is within the server's limit |
| BlobTransfer.DownloadMissing | src/enrollment/follower-client.ts:1395-1456 | fetches in order; after a failure of the network or of the cache exactly the blobs before it are kept, each with its signed length and digest, and the failure is that of the next one; the events are a prefix of the plan, and all of it on success |
| BlobTransfer.CompleteOnlyAtTheEnd | src/enrollment/follower-client.ts:1401-1444 | in any order, only the last event reports everything received exactly when the last blob is not empty |
| BlobTransfer.SmallestFirstCompletesLast | src/enrollment/follower-client.ts:1401-1444 | smallest first, `received` equals `total` only in the last event |
| Compiler.MaterializeResources | src/profile/compiler.ts:66-116 | every resource is compiled from its resolved files, or the first unresolved source fails the profile; the stored blobs are exactly those of its files, once each |
| Compiler.IndexBlobs | src/enrollment/follower-client.ts:1350-1377 | accepted exactly when every resource lists exactly its distinct blobs and no blob has two lengths; the index then names them with their lengths |
| Compiler.CompiledIndexMatches | src/profile/compiler.ts:101-112 | a compiled resource lists each blob it refers to, once |
| Compiler.ProjectionIsAccepted | src/enrollment/follower-client.ts:1350-1377 | when a digest fixes a length, every projection of a compiled profile passes the follower's index and length checks |
| Compiler.AuthorizedIffReferenced | src/enrollment/enrollment.layer.ts:1047-1087 | a follower is allowed a blob exactly when its projection refers to it |
| Compiler.ReferencedBlobsAreStored | src/profile/compiler.ts:66-116 | publication stores every blob a projection refers to, with its length |
| Compiler.CompleteVerification | src/profile/compiler.ts:146-170 | succeeds exactly when every digest-verified resource has content and agrees with its declared digest; fills every omitted digest and otherwise reports exactly the mismatches |
| Compiler.RecompilingIsStable | src/profile/compiler.ts:177-196 | compiling a completed profile again publishes the same resources, and its digests all agree |
| AuthoredProjection.ReceivedIffNeedsAreFor | src/enrollment/enrollment.layer.ts:108-147 | a follower receives an authored resource exactly when whatever it depends on, through others and itself included, is in the profile and names no groups or one of the follower's |
| AuthoredProjection.ReceivedIsAuthored | src/profile/compiler.ts:66-116 | every received resource is an authored one: its own fields, the default policy where it gives none, its files with the resolved contents, its dependencies, and of its groups only the follower's |
| AuthoredProjection.SelectConcat | src/enrollment/enrollment.layer.ts:136-137 | selecting the visible resources moves none of them |
| AuthoredProjection.IndexMatchesIff | src/enrollment/follower-client.ts:1350-1367 | the check on the sorted lists passes exactly when the index lists each referenced blob once and no other |
| AuthoredProjection.FilledDigestIsOfContent | src/profile/compiler.ts:123-170 | a completed resource is verified by what it publishes: a file by its source's blob, a config by the digest of its document |
| AuthoredProjection.SkillDigestDeterminesContent | src/profile/compiler.ts:123-139 | two skills share a digest only when they have the same paths, contents and executable flags in order |
| MetadataBudget.ProjectedIsSmaller | src/enrollment/enrollment.layer.ts:139-147 | projecting never makes the serialized resources larger |
| MetadataBudget.ProjectionFitsBudget | src/profile/metadata-budget.ts:29-45 | once the budget admits a profile, the metadata of every projection whose fields fit stays within the budgeted size and the transport limit |
| MetadataBudget.RevisionIdFits | src/profile/metadata-budget.ts:30-31 | a revision id, with or without its sequence, fits its reserve |
| MetadataBudget.PublicationFitsCompilation | src/profile/publication.ts:534-547 | a profile admitted with reserves is admitted again with any publication fields that fit them |
| JsonText.BytesAreOfText | src/profile/metadata-budget.ts:29-45 | the measure is the number of UTF-8 bytes of the text `JSON.stringify` writes |
| JsonText.AdmittedIffTextFits | src/profile/metadata-budget.ts:29-45 | a profile is admitted exactly when its envelope with the reserves, written out, is no longer than the transport takes |
| JsonText.AdmittedProjectionsAreSent | src/profile/metadata-budget.ts:29-45 | once a profile is admitted, the metadata of every projection, written out, can be sent |

## Left out

- TLS, HTTP framing, process spawning, key chains and file system calls: only the events, responses and abstract stores they feed.
- The SQL of the state repository beyond the transactions cited above: each is one atomic step that applies or fails; a commit whose outcome the caller cannot learn is not modelled.
- Enrollment.LiveCredentialsSurviveEveryRun: takes each request as one atomic step, because two requests that interleave can break it, as FinalizeBetweenReadAndCancel shows.
- Enrollment.RetryReplacesPending: asks that the new credential's digest is new, which the program leaves to randomness.
- `redactText`'s patterns and quoted markers, and redaction of agent results: the patterns are data in a file that is not part of this model. In `redaction.dfy` a text is a sequence of characters; splitting a surrogate pair is not modelled.
- Visibility.ProjectionComposes: asks for unique ids; with repeated ids an id is visible or not as a whole.
- PathConflicts.NoErrorIffConsistent: asks for unique ids, which `validateProfileResources` checks separately, and excludes targets that are a root, that are `.`, or whose relative first segment reads as a drive.
- TargetPaths.NormalizedTargetPath: normalization and lower-casing are parameters under `IsFaithful`, which says that lower-casing works on each side of a slash alone; within a segment it may change lengths and look at neighbouring characters.
- The regular expressions that find the `ExecStart` line, the launchd array and the search path in their files: `scheduler_command.dfy` and `xml_text.dfy` start from the extracted text.
- ControlledProcess.RunResolution: decoding the harness output and admitting its actions is one parameter, a function of that output; pip requirement files are left out, and wall-clock time is the timer event.
- Wrapper commands, launchers and the other branches of `structuralRestartCapabilities`: tables of names around the systemctl branch.
- BlobTransfer.RetrieveBlob: integers are unbounded, so rounding of sums beyond the largest safe integer is not modelled.
- The check that the blob is already cached and the free-space check before a download.
- Compiler.IndexBlobs: compares the sorted lists themselves; the program joins them with NUL, which identifiers of hexadecimal digits never contain.
- BlobStore.StoreResourceBlob: a blob already stored is compared by length and digest, as the program does, not by its chunk length.
- MetadataBudget.ProjectionFitsBudget: measures text of whole Unicode characters; an unpaired surrogate, which is written as an escape, is not modelled.
- Recipes, schedules, packages, build policies, the planner and the config and profile codecs: mostly tables and field checks.
