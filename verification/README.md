# Verification models

Dafny models of nine parts of this repository, and proofs about them. Each
module follows one source file, or one part of it, and has that file's form:
loops over changing variables are methods with loops, objects with fields are
classes, protocols whose steps can be cut off are state machines, and what is
written as expressions is functions. A method is tied by its contract to a
specification function (or states its result outright), and the lemmas beside
it say what that function means.

| modules | what they model |
|---|---|
| `Varint`, `WireFields`, `SandboxRewrite` | the storage helper's Protocol Buffers reader and writer (Encoding guide, "Base 128 Varints" and "Message Structure") and the in-place rewrite of one nested field |
| `StorageInventory`, `GatewayDatabase`, `MigrationProtocol` | inspecting the sandbox table, rewriting it in one transaction, and the backup-first migration with crashes anywhere |
| `PayloadMeaning` | what the rewrite, the phase and the inventory make of a payload, told from its chunks |
| `Scopes`, `ImpactMap`, `ImpactPrune` | building the test-impact map from a coverage run, and pruning it |
| `MapMeaning` | what a built map holds, told from the coverage run |
| `ImpactResolver`, `ImpactSafety`, `PruneSafety`, `SelectionInputs` | choosing the tests a change needs, why the choice loses none, what pruning does to it, and inputs at which less runs than one might expect |
| `SelectionMeaning` | what a selection holds, told from the changed lines, the files and the coverage run |
| `CertifierPlan`, `CertifierMeaning` | the certifier's plan over the same map, and what it holds, told from the request, the image and the map |
| `AtomicFile` | writers that replace one file concurrently, with exceptions and crashes |
| `Broadcast`, `BroadcastFeed` | the rate limiter, the coalescer and the paged feed |
| `GreedyCover` | which tests of a cluster a mutation run says to keep |
| `Acl` | access decisions over a resource tree with cyclic roles |
| `StderrTail`, `CrashSpool`, `SpoolMeaning` | the crash observer's stderr tail and report spool, and what an undisturbed observer does to the spool |
| `Outcomes`, `Collections` | `Option`, `Result` for what the program raises, bytes, and sequences as sets |

`dafny verify dfyconfig.toml` verifies the project.

## Results worth knowing

Where a promise of the documentation does not follow from the code, the model
keeps the code, and the project shows an input and proves exactly what holds.

- The feed promises that a poller resuming from its last returned sequence
  reaches the events it asked for. It does exactly when no match is preceded by
  ten pages of events that do not match (`BroadcastFeed.PollerReachesAll`);
  behind a wider gap it asks for the same events for ever
  (`BroadcastFeed.BuriedForEver`).
- `must_keep` is described as the smallest set that catches everything. That
  is so for every cluster with at most three killed lines, and for no larger
  number of them (`GreedyCover.SmallestExactly`); from four on there are tables
  with three kept where two would do (`GreedyCover.NotAlwaysSmallest`). It is
  always within a harmonic factor of the smallest (`GreedyCover.NearOptimal`).
- A spooled report is sent, however often the spool is flushed, exactly when
  fewer than a hundred unreadable or refused files precede it by name
  (`CrashSpool.StarvedExactly`, and `CrashSpool.JammedForEver` for an input).
- A migration run that nothing disturbs ends with a new receipt, of a gateway
  started since, exactly when the gateway is active over a readable table and
  either its legacy rows can be told apart by id and payload or, without any,
  there is no receipt yet and there is a pending backup with every newer backup
  readable (`MigrationProtocol.RunCompletes`). So a rerun after a crash does not
  always complete (`MigrationProtocol.RerunCompletes`). A rewrite that was cut
  off before its proof, over as many sandboxes, is proved by a rerun exactly when no receipt predates it
  and no unreadable backup is in the way (`MigrationProtocol.RewriteIsProvedExactly`).
  The receipt of an earlier migration hides it, and each later run answers
  "ready" (`MigrationProtocol.ReceiptHidesRewrite`); and the protocol can take
  the backup that blocks it itself (`MigrationProtocol.OneBrokenBackupBlocks`,
  `MigrationProtocol.ProtocolBlocksItself`).
- The rewritten payload is readable exactly when the new spec length is below
  2^70 (`SandboxRewrite.PayloadSurgery`), and what is written as a varint is
  read back exactly below 2^70 (`Varint.ReadUndoesWrite`).
- Pruning an impact map against the repository can turn "everything" into a
  focused selection in two ways exactly (`PruneSafety.FullBecomesFocusedExactly`):
  each unanswered source file loses its entry to its reviewed path contract,
  because none of its tests can be collected or because it is gone
  (`SelectionInputs.ContractTakesOver`), or a selection nothing of which could be
  run is narrowed, possibly to nothing (`SelectionInputs.StaleTakesAll`). A guard
  that always runs and is there rules the second out
  (`PruneSafety.GuardRulesOutStaleness`).
- A comment says a deleted source file can never be in a diff again
  (`scripts/build-test-impact-map.py:289`). It is in the diff of the commit that
  deletes it, and if it has a path contract, the pruned map answers for it with
  no test (`SelectionInputs.DeletedFileLosesItsTest`). A focused selection that
  stays focused loses a collectable test exactly when all that brought the test
  in is gone: contracted source files it was charged to, or its own file as a
  guard of the map (`PruneSafety.PruningLosesExactly`). For every other file, a
  collectable test that executed a changed line is picked after build and prune,
  or everything is (`PruneSafety.SafeAfterPruning`).
- The rate limit of 60 a minute is kept in every fixed window
  (`Broadcast.FixedWindowBound`). A minute that begins anywhere can hold 119, and
  59 more for each minute by which a stamp may lag behind one already booked, since
  the clock is read before the lock is taken; both are exact
  (`Broadcast.SlidingWindowBound`, `Broadcast.SlidingWindowReached`).
- In a drifted file a changed scope brings in exactly the tests that executed
  the scope of that name at the map's base (`ImpactSafety.ScopeChargeExactly`);
  a scope renamed since then brings in none, and the change still counts as
  answered (`SelectionInputs.RenamedRunsNothing`).

## Model

| member | source | states |
|---|---|---|
| Varint.Read | deploy/openshell/storage-compatibility.py:68-78 | the loop over at most ten octets computes the base-128 number at the offset, with the truncated and oversized refusals of the code |
| Varint.Write | deploy/openshell/storage-compatibility.py:81-90 | the shifting loop writes the base-128 digits, least first, and refuses negative numbers |
| Varint.OrAdds | deploy/openshell/storage-compatibility.py:68-78 | bits shifted past all of a value's bits are added to it by bitwise "or" |
| Varint.OctetStep | deploy/openshell/storage-compatibility.py:68-78 | one turn of the loop: "or" adds the octet's seven bits above the value, and what remains to be read lies above them |
| Varint.ReadUndoesWrite | deploy/openshell/storage-compatibility.py:68-90 | between any prefix and any tail, reading gives back what was written and its end, exactly for values below 2^70; larger ones are refused as oversized |
| Varint.DecodeUndoesWrite | deploy/openshell/storage-compatibility.py:68-90 | the same for every number of octets allowed |
| Varint.WrittenFormIsShortest | deploy/openshell/storage-compatibility.py:68-90 | no accepted spelling of a value is shorter than the written one, and one as short is that spelling |
| Varint.ReadIsLocal | deploy/openshell/storage-compatibility.py:68-78 | a number read depends only on the octets it takes up, wherever they stand |
| Varint.ReadExactly | deploy/openshell/storage-compatibility.py:68-78 | every spelling, shortest or not, up to the first octet without its high bit is read as the sum of its octets by place, and refused exactly when none of ten octets is one, as truncated if there are fewer than ten |
| WireFields.ParseFields | deploy/openshell/storage-compatibility.py:93-127 | the scanning loop returns the fields or the first refusal met from the front |
| WireFields.FieldsTile | deploy/openshell/storage-compatibility.py:93-127 | accepted fields cover the input without gap or overlap, each non-empty |
| WireFields.ScanConcat | deploy/openshell/storage-compatibility.py:93-127 | parsing distributes over concatenation, with offsets moved and refusals of the second part kept |
| WireFields.ScanSplit | deploy/openshell/storage-compatibility.py:93-127 | an accepted input may be cut at any field boundary into two accepted inputs with their share of the fields |
| WireFields.FieldIsLocal | deploy/openshell/storage-compatibility.py:93-127 | a field is recognised by its own bytes, wherever they stand |
| WireFields.ScanSplice | deploy/openshell/storage-compatibility.py:93-127 | replacing one field's bytes by acceptable bytes replaces that field and only moves the later ones |
| WireFields.VarintFieldIsRead | deploy/openshell/storage-compatibility.py:93-127 | a written varint field is read back with its number, value and end, exactly for values below 2^70 |
| WireFields.FixedFieldIsRead | deploy/openshell/storage-compatibility.py:93-127 | wire types 1 and 5 take exactly eight and four bytes and are refused if there are fewer |
| WireFields.LengthFieldIsRead | deploy/openshell/storage-compatibility.py:93-127 | wire type 2 takes its length and exactly so many bytes, and is refused if there are fewer or the length does not fit |
| WireFields.OtherKeysAreRefused | deploy/openshell/storage-compatibility.py:93-127 | field number zero and the wire types 3, 4, 6 and 7 are refused, each for its reason |
| SandboxRewrite.SpecSurgery | deploy/openshell/storage-compatibility.py:130-148 | a changed spec differs only in its one boolean field 9: gone for 0, the nested gpu message for 1; every other field keeps number, wire type, bytes and order |
| SandboxRewrite.SpecSettled | deploy/openshell/storage-compatibility.py:130-148 | a rewritten spec is accepted and left alone |
| SandboxRewrite.PayloadSurgery | deploy/openshell/storage-compatibility.py:183-198 | a changed payload differs only in the body of its one spec, and can be read again exactly when the new length fits a varint |
| SandboxRewrite.PayloadSettled | deploy/openshell/storage-compatibility.py:151-204 | on its own output the rewrite returns the same bytes and False, and neither the lifecycle phase nor the presence of a spec has changed |
| SandboxRewrite.PayloadReadable | deploy/openshell/storage-compatibility.py:183-198 | every rewrite of a payload below 2^70 bytes is readable |
| SandboxRewrite.PhaseByViews | deploy/openshell/storage-compatibility.py:151-180 | the phase depends on the status fields only |
| SandboxRewrite.HasSpecByViews | deploy/openshell/storage-compatibility.py:201-204 | a payload has a spec exactly when a field of that number is among its chunks |
| PayloadMeaning.SpecExactly | deploy/openshell/storage-compatibility.py:130-148 | a readable spec is changed exactly when its one chunk numbered 9 is the varint 0 or 1, left alone exactly when there is none or a readable message, and refused otherwise, for the reason of the code |
| PayloadMeaning.PayloadExactly | deploy/openshell/storage-compatibility.py:183-198 | the same for a payload and its one chunk numbered 2, whose body decides |
| PayloadMeaning.LegacyExactly | deploy/openshell/storage-compatibility.py:130-198 | a payload is rewritten exactly when its one spec holds, as its one field 9, a boolean; it is accepted as it is exactly when it has no spec, or one with no field 9 or a readable message there |
| PayloadMeaning.PhaseExactly | deploy/openshell/storage-compatibility.py:151-180 | the phase is that of the number the only status carries, itself or as its only chunk numbered 1, and else unknown |
| PayloadMeaning.LabelNames | deploy/openshell/storage-compatibility.py:151-180 | the seven known numbers have their names, every other one is spelled in decimal |
| StorageInventory.InspectRows | deploy/openshell/storage-compatibility.py:269-293 | the loop counts rows, collects legacy rows with their rewrites and counts rows without a spec by phase, or gives the first refusal |
| StorageInventory.InventoryCounts | deploy/openshell/storage-compatibility.py:269-293 | inspection accepts exactly the tables all of whose rows can be rewritten, and its figures are head counts |
| PayloadMeaning.InventoryExactly | deploy/openshell/storage-compatibility.py:269-293 | the inventory told from the payloads: which tables are accepted, the number of rows that hold the boolean, and the number of rows without a spec in each phase |
| StorageInventory.RowConverges | deploy/openshell/storage-compatibility.py:183-204 | a rewritten row is not legacy, and other rows are classified as before |
| StorageInventory.Converges | deploy/openshell/storage-compatibility.py:269-293 | replacing every legacy payload of an accepted table gives an accepted table without legacy rows and with every other figure unchanged |
| GatewayDatabase.Database.Update | deploy/openshell/storage-compatibility.py:476-480 | exactly the objects with that id and payload get the new payload, nothing else of the table changes, and the count is the number of their places |
| GatewayDatabase.CountOne | deploy/openshell/storage-compatibility.py:476-481 | the count is one exactly when the object hit shares its id and payload with no other |
| GatewayDatabase.Database.Migrate | deploy/openshell/storage-compatibility.py:469-493 | either the table is unchanged or exactly the legacy sandbox rows are rewritten; which, and with which failure, is decided by the table alone |
| GatewayDatabase.UpdateHits | deploy/openshell/storage-compatibility.py:476-484 | in the middle of the loop the next UPDATE changes one row exactly when the original table lets that row be addressed |
| GatewayDatabase.InspectedLegacy | deploy/openshell/storage-compatibility.py:269-293 | the legacy list holds exactly the rows the rewrite changes, in table order |
| GatewayDatabase.RewrittenRows | deploy/openshell/storage-compatibility.py:469-493 | rewriting the objects is rewriting the sandbox rows |
| PayloadMeaning.SandboxRowsExactly | deploy/openshell/storage-compatibility.py:251-266 | the sandbox rows are the objects of that type with id, name and payload, and as many |
| PayloadMeaning.TableExactly | deploy/openshell/storage-compatibility.py:469-493 | exactly the sandboxes that hold the boolean get their rewritten payload, and can be addressed exactly when none shares its id and payload with another object of whatever type |
| MigrationProtocol.PendingFound | deploy/openshell/storage-compatibility.py:599-623 | which backup the search stops at: all newer ones are readable and not pending, and it is pending or unreadable |
| MigrationProtocol.PendingExactly | deploy/openshell/storage-compatibility.py:599-623 | a backup is found exactly when a pending one has every newer one readable, and the search fails exactly when an unreadable one stands before every pending one |
| MigrationProtocol.StepKeeps | deploy/openshell/storage-compatibility.py:626-756 | every step, failure, crash and gateway write keeps the protocol's invariant |
| MigrationProtocol.EveryRun | deploy/openshell/storage-compatibility.py:626-756 | so every state of every run satisfies it |
| MigrationProtocol.StepIsGuarded | deploy/openshell/storage-compatibility.py:716-756 | rows are rewritten only while the gateway is stopped and the newest backup is the table as it stands; a receipt is written only after this run started a gateway that passed the inventory proof; no backup is dropped |
| MigrationProtocol.FailureRestarts | deploy/openshell/storage-compatibility.py:716-733 | a migration that fails before the end of the rewrite starts the gateway again, with table, backups and receipt as they were |
| MigrationProtocol.GatewayIsLeftRunning | deploy/openshell/storage-compatibility.py:682-756 | on every run the gateway is active between runs, unless the helper or the gateway died or the start that was to end a run failed |
| MigrationProtocol.StaysStopped | deploy/openshell/storage-compatibility.py:682-733 | those events do leave it stopped, and then no run changes anything |
| MigrationProtocol.RunCompletes | deploy/openshell/storage-compatibility.py:682-756 | an undisturbed run, whatever receipt there is, reaches a new one of a gateway started since and no legacy rows exactly when the gateway is active over a readable table and its legacy rows can be addressed or, without any, there is no receipt and a backup can be resumed from |
| MigrationProtocol.ReceiptTells | deploy/openshell/storage-compatibility.py:696-756 | the receipt of an undisturbed run names the backed-up table and its number of legacy rows, or for a resumed one the pending backup and its number, marked as recovered |
| MigrationProtocol.RerunCompletes | deploy/openshell/storage-compatibility.py:599-756 | after a crash at any step of any run, a rerun with the gateway active and as many sandboxes as were rewritten reaches a new receipt and no legacy rows: with legacy rows left exactly when they can be addressed, and without any exactly when there is no receipt yet and no unreadable backup stands before every pending one |
| MigrationProtocol.RewriteIsProvedExactly | deploy/openshell/storage-compatibility.py:650-682 | a cut-off rewrite that left no legacy rows, over a table with as many sandboxes, gets its proof from some later run exactly when no receipt predates it and no backup blocks the way; with such a receipt preflight answers ready and every run changes nothing |
| MigrationProtocol.ReceiptHidesRewrite | deploy/openshell/storage-compatibility.py:650-682 | for every table that can be rewritten, a run of the protocol that completes one migration, is cut off in a second, and is never proved thereafter |
| MigrationProtocol.OneBrokenBackupBlocks | deploy/openshell/storage-compatibility.py:613-622 | a concrete state with one unreadable backup from which every run ends where it began |
| MigrationProtocol.ProtocolBlocksItself | deploy/openshell/storage-compatibility.py:682-756 | a run of the protocol itself that ends in such a state after rewriting the rows |
| MigrationProtocol.LegacyIsRewritable | deploy/openshell/storage-compatibility.py:130-198 | a concrete table such a run can start from |
| Scopes.FileScopes | scripts/build-test-impact-map.py:95-115 | the walk fills the name table with every definition that has an end |
| Scopes.Walk | scripts/resolve-impacted-tests.py:197-209 | the recursive walk assigns the definitions in source order under qualified names |
| Scopes.AssignOne | scripts/resolve-impacted-tests.py:203-204 | a dictionary assignment changes a value in place and puts a new name last |
| Scopes.LastDefinitionWins | scripts/build-test-impact-map.py:95-115 | names are unique and a span is in the table exactly when it is its name's last definition |
| Scopes.DefsExactly | scripts/resolve-impacted-tests.py:197-209 | the definitions are those a way down the tree leads to, each with its span under the names of all definitions on that way, joined by dots |
| Scopes.FindInnermost | scripts/resolve-impacted-tests.py:212-222 | the loop finds the first narrowest span around the line |
| Scopes.NarrowestIsInnermost | scripts/build-test-impact-map.py:118-126 | nothing is found exactly when no span is around the line; what is found is around it, none is narrower and earlier ones are wider |
| Scopes.InnermostExactly | scripts/resolve-impacted-tests.py:212-222 | the same in terms of spans: the one found holds the line, none that does is shorter, and earlier ones are longer |
| ImpactMap.Intern | scripts/build-test-impact-map.py:163-168 | an id keeps its number, a new one gets the next |
| ImpactMap.AddEntry | scripts/build-test-impact-map.py:172-178 | one executed line adds the test to its file and its line and nothing else |
| ImpactMap.Aggregate | scripts/build-test-impact-map.py:162-178 | the interned file and line tables are the coverage relation, restricted to the source tree |
| ImpactMap.AggregateScopes | scripts/build-test-impact-map.py:194-204 | the scope table gathers, under each name, the tests of the lines innermost in it |
| ImpactMap.ScopesAreCoverage | scripts/build-test-impact-map.py:180-204 | the scope table is the coverage relation by innermost scope, whatever is pruned later |
| ImpactMap.PruneLines | scripts/build-test-impact-map.py:212-225 | a line goes exactly when the cap is positive and its tests exceed it; the rest is untouched |
| ImpactMap.BuildMap | scripts/build-test-impact-map.py:136-255 | the whole document: interned ids, three indices that denote the coverage relation, digests, and the files of tests that ran without attribution |
| MapMeaning.FilesExactly | scripts/build-test-impact-map.py:162-177 | a built map names a test under a file exactly when the file is under `src/` and the test executed a line of it; no entry is empty |
| MapMeaning.LinesExactly | scripts/build-test-impact-map.py:178-225 | the same for a line, if the cap is not positive or at most that many tests executed the line |
| MapMeaning.ScopesExactly | scripts/build-test-impact-map.py:194-204 | the same for a scope name: the test executed a line that the file's own tree puts innermost in it, whatever the cap |
| MapMeaning.RestExactly | scripts/build-test-impact-map.py:154-210 | the ids are the contexts' tests, the digests those of indexed files that have one, and a file always runs exactly for a timed test without context and arc |
| ImpactPrune.PruneUncollectable | scripts/build-test-impact-map.py:257-350 | the loops drop uncollectable ids and absent files and renumber all three tables |
| ImpactPrune.RenumberingIsIncreasing | scripts/build-test-impact-map.py:273-286 | the remap is strictly increasing, onto the new table, and moves each index to where its id now stands |
| ImpactPrune.RemapMeaning | scripts/build-test-impact-map.py:285-286 | remapped indices name exactly the collectable tests the old ones named |
| ImpactPrune.PruneMeaning | scripts/build-test-impact-map.py:293-323 | every file, line and scope key denotes its old tests intersected with the collectable ones, and is gone exactly when that is empty |
| ImpactPrune.PruneKeepsRest | scripts/build-test-impact-map.py:273-350 | a pruned map has exactly the collectable ids, the guards whose files are there, the digests of the files that keep an entry, the old base, and no file with an empty table |
| ImpactPrune.PruneIsIdempotent | scripts/build-test-impact-map.py:257-350 | pruning twice is pruning once |
| ImpactPrune.AbsentFilesGo | scripts/build-test-impact-map.py:288-333 | a source file that is gone loses every entry |
| ImpactResolver.TouchedScopes | scripts/resolve-impacted-tests.py:225-258 | the names of the innermost scopes of the executable lines, or none when one is at module level |
| ImpactResolver.TouchedScopeNames | scripts/resolve-impacted-tests.py:261-313 | names touched at the head and at the base, or none when a revision cannot be shown or neither has scopes |
| ImpactResolver.ChargeLines | scripts/resolve-impacted-tests.py:401-421 | adds the known lines' tests and tells whether all were known |
| ImpactResolver.ChargeScopes | scripts/resolve-impacted-tests.py:423-433 | adds the named scopes' tests |
| ImpactResolver.ChargeSource | scripts/resolve-impacted-tests.py:435-468 | one changed file: scopes if they answer, else known lines, else the file, else no answer |
| ImpactResolver.ChargeContracts | scripts/resolve-impacted-tests.py:354-369 | the existing contract tests of the changed paths, and whether one is missing |
| ImpactResolver.Resolve | scripts/resolve-impacted-tests.py:327-523 | the whole resolution with its fallbacks in the order of the code |
| ImpactSafety.SelectionIsSafe | scripts/resolve-impacted-tests.py:386-485 | for a changed executable base line, every test whose coverage has it is selected, or everything is |
| ImpactSafety.CoveringTestIsCharged | scripts/resolve-impacted-tests.py:397-468 | whichever route answers for the file, scope, line or file, it charges that test |
| ImpactSafety.ScopeChargeExactly | scripts/resolve-impacted-tests.py:423-456 | a file answered by scope is charged exactly the tests that executed, at the map's base, a line innermost in a touched scope |
| ImpactSafety.DriftedScopeIsSafe | scripts/resolve-impacted-tests.py:269-313 | so in a drifted file a touched scope that kept its name brings in every test that executed it, or everything runs |
| SelectionMeaning.TouchedNamesExactly | scripts/resolve-impacted-tests.py:261-313 | scopes are asked exactly when the file is shown at all revisions and has scopes and no code at module level was added or removed; then exactly the names count in which code was added, by the head's scopes, or removed, by the base's |
| SelectionMeaning.AnswerExactly | scripts/resolve-impacted-tests.py:435-468 | how a mapped file is answered, and by exactly which tests, in terms of coverage: by scope, by removed line, by file, or not at all |
| SelectionMeaning.AddedLineIsSafe | scripts/resolve-impacted-tests.py:300-305 | a line of code added innermost in a scope brings in every test that executed a line innermost in the scope of that name at the map's base, or everything runs |
| SelectionMeaning.LooseLineIsNotScoped | scripts/resolve-impacted-tests.py:225-258 | code added at module level: the file is answered as if it had no scopes, and if it has drifted everything runs |
| SelectionMeaning.PickedExactly | scripts/resolve-impacted-tests.py:386-512 | a focused selection picks exactly changed tests, contract tests and guards that exist and what the changed sources are charged with, and runs of it exactly what is a plain path or still defined |
| SelectionMeaning.FullExactly | scripts/resolve-impacted-tests.py:346-503 | everything runs exactly for the first of the six reasons that holds, each told from the change and the world |
| ImpactSafety.UnattributedTestsRun | scripts/build-test-impact-map.py:154-160 | a test without attributed coverage has its existing file selected on any source change |
| ImpactSafety.FocusedIsAccounted | scripts/resolve-impacted-tests.py:346-523 | a focused selection accounts for every changed path: none is global or opaque, contracts and changed tests and charges and guards are picked; it runs exactly what can still be collected, and is empty only when nothing was picked |
| ImpactSafety.FreshIsUnchanged | scripts/resolve-impacted-tests.py:652-678 | a fresh file has the same content at the selection base and at the map's base |
| ImpactSafety.FreshSelectionIsSafe | scripts/resolve-impacted-tests.py:652-704 | so for fresh files the selection is safe at any selection base |
| ImpactSafety.CapChargesMore | scripts/resolve-impacted-tests.py:401-465 | under any cap a file is answered for by the same route with at least the same tests |
| ImpactSafety.CappingNeverLoses | scripts/resolve-impacted-tests.py:401-503 | under any cap the selection is full or a superset of the uncapped one, full whenever that was forced or unanswered, and full where nothing picked could be run unless the cap brings in a test that can |
| ImpactSafety.WidenedExactly | scripts/resolve-impacted-tests.py:401-465 | the cap changes a file's charge exactly when its lines were all known and one is over the cap, and then to all the file's tests |
| ImpactSafety.BuildCapNeverLoses | scripts/build-test-impact-map.py:194-225 | the same three cases between a built map and its own line index before the cap |
| PruneSafety.PruneChargesExactly | scripts/resolve-impacted-tests.py:435-468 | what a file is charged on the map pruned against any set of collectable tests and any repository, told from the old map, the tests and the files that are there |
| PruneSafety.PruneSelectsExactly | scripts/resolve-impacted-tests.py:327-503 | and so the whole selection on the pruned map, fallbacks and the guards that are left included |
| PruneSafety.PruneChargesCollectable | scripts/resolve-impacted-tests.py:435-468 | where both maps answer for a file that is there, the pruned one charges at least the collectable part; for one that is gone it answers only by contract and charges nothing; where only the pruned one answers, the file lost its entry to its contract |
| PruneSafety.PruningNeverLoses | scripts/build-test-impact-map.py:274-323 | as long as the changed contracted files and the map's existing guards are there, a focused selection becomes full or keeps all that was selected but uncollectable ids |
| PruneSafety.PruningLosesExactly | scripts/build-test-impact-map.py:257-350 | a focused selection that stays focused loses a collectable test exactly when nothing that is left brings it in and it was charged to a contracted file that is gone or was a map guard that is gone |
| PruneSafety.FullBecomesFocusedExactly | scripts/resolve-impacted-tests.py:435-503 | a full selection becomes focused exactly when every unanswered source loses its entry to its contract and the others stay answered, or nothing picked could be run and all stay answered, and the resolver does not fall back again, whatever files are gone |
| PruneSafety.LosingExactly | scripts/resolve-impacted-tests.py:435-442 | an unanswered file becomes answered exactly when it is contracted, the map had it, and it is gone or none of its tests is collectable |
| PruneSafety.NarrowsToNothing | scripts/resolve-impacted-tests.py:485-503 | where a stale selection narrows to nothing, each test it had picked is uncollectable or came only from what is gone |
| PruneSafety.GuardRulesOutStaleness | scripts/resolve-impacted-tests.py:477-503 | an existing always-run file that can be run, on a source change, means no selection is ever all stale |
| PruneSafety.SafeAfterPruning | scripts/build-test-impact-map.py:257-350 | after build and prune, a collectable test that executed a changed line is selected, or everything is, unless the file is contracted and gone; then it is selected exactly when something else brings it in |
| SelectionInputs.ContractTakesOver | scripts/resolve-impacted-tests.py:435-442 | a contracted, drifted file, its test or itself gone, whose pruned map runs only its contract test where everything ran before |
| SelectionInputs.DeletedFileLosesItsTest | scripts/build-test-impact-map.py:288-300 | a change that deletes a contracted file: the test of its lines runs before the prune and not after it |
| SelectionInputs.StaleTakesAll | scripts/resolve-impacted-tests.py:423-503 | a change whose only test is gone: everything runs before the prune, nothing after it, and no contract is involved |
| SelectionInputs.RenamedRunsNothing | scripts/resolve-impacted-tests.py:423-433 | a drifted file whose changed function was renamed: it counts as answered and none of its tests is picked |
| CertifierPlan.ImpactMapTests | deploy/certifier/select-tests.py:136-162 | the trusted regular test files of a mapped source, none when the map is stale, the digest differs or an index is out of range |
| CertifierPlan.MapSources | deploy/certifier/select-tests.py:230-241 | name matches first, then the map; what neither answers is unmapped |
| CertifierPlan.PlanSelection | deploy/certifier/select-tests.py:169-303 | the plan, or the refusal, with the order of tests and branches of the code |
| CertifierMeaning.DoubtClosesPlan | deploy/certifier/select-tests.py:136-162 | a changed source without a name match whose digest is missing, empty or another than the map's, or whose map is stale or points outside its table, makes the plan full or rejected |
| CertifierMeaning.MapTestsExactly | deploy/certifier/select-tests.py:136-162 | the map answers exactly without such a doubt, with exactly the regular files of the tests it attributes to the source |
| CertifierMeaning.PlanExactly | deploy/certifier/select-tests.py:204-300 | both phases, their tests and the label, by whether a changed source is unanswered and a change is visible to the whole tree |
| CertifierMeaning.RefusedExactly | deploy/certifier/select-tests.py:187-202 | which request is refused, and for which reason, the first that holds |
| CertifierMeaning.FrozenExactly | deploy/certifier/select-tests.py:221-228 | the changed frozen tests are the regular files under tests or plugin whose last part is like `test_*.py` |
| CertifierMeaning.BroughtExactly | deploy/certifier/select-tests.py:205-213 | which changed paths are the candidate's own tests |
| CertifierPlan.CoveringFileIsPlanned | deploy/certifier/select-tests.py:231-262 | with a built map, or one pruned in any way that leaves the test collectable, a changed source without a name match makes the plan full or rejected, or has every regular test file that covered it in the authoritative phase |
| CertifierPlan.MapOnlyAdds | deploy/certifier/select-tests.py:178-186 | supplying a map only adds tests to a focused plan, and otherwise can only turn a full or rejected plan into a focused one |
| CertifierPlan.StaleMapIsNoMap | deploy/certifier/select-tests.py:132-162 | a stale map, or one for a change without sources, changes nothing |
| CertifierPlan.FullExactlyWhen | deploy/certifier/select-tests.py:248-300 | a full suite runs exactly when there is either a source without tests or a change visible to the whole tree but not both; with both the plan is rejected, and the authoritative phase is focused exactly when every source has tests |
| CertifierPlan.AtMostOneFull | deploy/certifier/select-tests.py:301-303 | at most one phase is full, so the last refusal is never raised; invariants and changed frozen tests are in every focused phase |
| AtomicFile.StepKeeps | src/mac/atomic_file.py:81-102 | every writer step, exception and crash keeps the file-system invariant |
| AtomicFile.EveryRun | src/mac/atomic_file.py:61-102 | so every state of every interleaving satisfies it |
| AtomicFile.BeginningIsExclusive | src/mac/atomic_file.py:78-82 | a writer may begin under any name not in use; its file is new and empty and nothing that was there changes |
| AtomicFile.CrashSettles | src/mac/atomic_file.py:43-58 | after a crash no writer is left, and a second crash changes no file the first one left |
| AtomicFile.NeverTorn | src/mac/atomic_file.py:69-102 | in every state, after any crashes, the target reads as at first or as one writer's complete data |
| AtomicFile.RaisingIsHarmless | src/mac/atomic_file.py:99-101 | a writer that raises leaves the target alone and deletes only its own temporary |
| AtomicFile.ExceptionCleansUp | src/mac/atomic_file.py:99-101 | an exception may come at any time before the rename, and leaves the target as it was and no temporary |
| AtomicFile.WriterCompletes | src/mac/atomic_file.py:81-102 | an undisturbed writer goes through all its steps, and its data is then read, and durably |
| AtomicFile.OverlayExactly | src/mac/atomic_file.py:92-93 | what a write leaves at each position of the file |
| AtomicFile.CrashBringsBack | src/mac/atomic_file.py:43-58 | a crash may bring back exactly the names since the last sync of the directory |
| AtomicFile.CrashTearsExactly | src/mac/atomic_file.py:92-95 | a crash may leave anything in a file exactly if that is not synced |
| AtomicFile.UnsyncedIsAtRisk | src/mac/atomic_file.py:92-95 | which a writer's file is not before its sync |
| AtomicFile.ReplacingPublishes | src/mac/atomic_file.py:98-98 | the rename can always be made and shows the writer's complete data; the temporary name is gone, and no other name and no file has changed |
| AtomicFile.DurableForever | src/mac/atomic_file.py:43-58 | what a directory sync has made durable is never undone, crashes included |
| AtomicFile.DurableIsRead | src/mac/atomic_file.py:98-102 | once a writer's directory sync succeeded, every later reading, crashes included, is its complete data or that of a writer that renamed after it |
| Broadcast.BroadcastService.TryAdmit | src/mac/agentbus_broadcast.py:518-547 | decision, reason and whole new state of one announcement, which joins the run the service has seen |
| Broadcast.BroadcastService.PruneCoalesceState | src/mac/agentbus_broadcast.py:549-558 | at 4096 keys or more exactly the keys older than ten seconds go |
| Broadcast.BroadcastService.SuppressedCount | src/mac/agentbus_broadcast.py:560-563 | how many of all the agent's announcements were refused, each in its turn; with the admitted ones they are all it attempted |
| Broadcast.DroppedAreRefusals | src/mac/agentbus_broadcast.py:531-543 | on every run the counter of dropped announcements counts exactly those not admitted |
| Broadcast.DecisionExactly | src/mac/agentbus_broadcast.py:531-547 | a call is refused as a repeat exactly when its key was admitted less than ten seconds before, else as too many exactly when a window of its agent that has not ended has its sixty admissions, and admitted otherwise |
| Broadcast.WindowExactly | src/mac/agentbus_broadcast.py:536-546 | an admission is counted in the agent's open window, or begins one at its own time if there is none |
| Broadcast.PrunedExactly | src/mac/agentbus_broadcast.py:549-558 | below 4096 keys none is forgotten, from then on exactly those seen more than ten seconds ago |
| Broadcast.FixedWindowBound | src/mac/agentbus_broadcast.py:536-545 | on every run, in whatever order the stamps come, at most 60 admissions of an agent in each window |
| Broadcast.SlidingWindowBound | src/mac/agentbus_broadcast.py:536-545 | at most 119 in any half-open minute, and 59 more for each minute of lag between reading the clock and taking the lock |
| Broadcast.SlidingWindowReached | src/mac/agentbus_broadcast.py:531-545 | for every number of minutes of lag, none included, a run that reaches that bound |
| Broadcast.Conservation | src/mac/agentbus_broadcast.py:531-563 | admitted and suppressed add up to attempted |
| Broadcast.PruningIsInvisible | src/mac/agentbus_broadcast.py:549-558 | where calls take the lock in clock order, the pruned dedupe map decides as one that never forgets |
| Broadcast.RepeatsAreSpaced | src/mac/agentbus_broadcast.py:531-535 | two admissions of one key are at least ten seconds apart, less the lag |
| Broadcast.MapStaysSmall | src/mac/agentbus_broadcast.py:549-558 | after every call the map holds fewer than 4096 keys or at most 119 per agent; 178 with a lag below 50 seconds |
| BroadcastFeed.Read | src/mac/agentbus_broadcast.py:389-451 | the paging loop returns the matching events of a contiguous stretch behind the cursor, in order, marked where self-emitted, or the refusal; what that is, is also stated in the fields of the events |
| BroadcastFeed.ReadExactly | src/mac/agentbus_broadcast.py:411-451 | an event behind the cursor is returned exactly when it is of a requested type and project, its page is among the first ten and none such is on an earlier page; in order, and marked exactly where the observer emitted it |
| BroadcastFeed.FoundNothing | src/mac/agentbus_broadcast.py:403-451 | a read is empty exactly when nothing matches in the next ten pages, and never more than a page |
| BroadcastFeed.ResumeAt | src/mac/agentbus_broadcast.py:416-451 | a read's last event splits what was waiting into what was returned and what a resumed read has before it |
| BroadcastFeed.PollsAreExact | src/mac/agentbus_broadcast.py:389-451 | however the log grows between reads, delivered and still waiting together are every matching event once, in order |
| BroadcastFeed.PollsOfOneLog | src/mac/agentbus_broadcast.py:403-407 | while the log does not grow, polling delivers what reading on and on returns |
| BroadcastFeed.PollerReachesAll | src/mac/agentbus_broadcast.py:403-407 | a poller gets every match exactly when no gap before a match is ten pages wide |
| BroadcastFeed.BuriedForEver | src/mac/agentbus_broadcast.py:403-407 | a log whose one match a poller never gets, however often it asks |
| GreedyCover.Mutants | scripts/test-discrimination.py:61-78 | at most one mutation a line, in line order, the first of them up to the limit |
| GreedyCover.MutableExactly | scripts/test-discrimination.py:61-78 | the lines mutated are the given ones that the source has and that offer a change |
| GreedyCover.Tally | scripts/test-discrimination.py:146-162 | each test is credited with exactly the mutated lines it noticed; the rest survive |
| GreedyCover.SurvivorsExactly | scripts/test-discrimination.py:153-155 | a line survives exactly when a mutation of it was noticed by no test of the cluster |
| GreedyCover.SurvivorsInOrder | scripts/test-discrimination.py:146-162 | survivors are listed in line order |
| GreedyCover.Cover | scripts/test-discrimination.py:174-186 | the loop takes the first best test until nothing remains, and ends without its emergency exit |
| GreedyCover.PickBest | scripts/test-discrimination.py:177-180 | the first test of the order with the largest gain |
| GreedyCover.BestIsBest | scripts/test-discrimination.py:177-180 | no test gains more than the one picked |
| GreedyCover.BestGains | scripts/test-discrimination.py:176-183 | while a killed line remains some test gains, so the break cannot be reached and the rest shrinks |
| GreedyCover.Analyse | scripts/test-discrimination.py:133-230 | the report: survivors, kills, kept, retirable and irreplaceable tests and the verdicts |
| GreedyCover.GreedyCovers | scripts/test-discrimination.py:164-185 | the kept tests kill every line the cluster kills |
| GreedyCover.NoDetectionLost | scripts/test-discrimination.py:206-217 | a mutation is noticed by a kept test exactly when any test of the cluster noticed it |
| GreedyCover.EachPickEarnsItsShare | scripts/test-discrimination.py:176-185 | each pick removes at least its share of what remains, against every cover |
| GreedyCover.NearOptimal | scripts/test-discrimination.py:164-185 | the kept set is at most the harmonic number of the killed lines times any cover |
| GreedyCover.IrreplaceableExactly | scripts/test-discrimination.py:190-197 | a test kills something alone exactly when every cover needs it |
| GreedyCover.IrreplaceableIsKept | scripts/test-discrimination.py:208-211 | every irreplaceable test is kept |
| GreedyCover.KeptOnce | scripts/test-discrimination.py:176-185 | no test is kept twice and each kept test kills something |
| GreedyCover.SmallestUpToThree | scripts/test-discrimination.py:206-207 | with at most three lines the kept set is no larger than any cover |
| GreedyCover.NotAlwaysSmallest | scripts/test-discrimination.py:206-207 | for every number of lines from four on, a table with three kept where two would do |
| GreedyCover.SmallestExactly | scripts/test-discrimination.py:206-207 | the kept set is the smallest for all clusters with n killed lines exactly when n is at most three |
| Acl.InheritanceFollowsContainment | src/mac/acl.py:126-163 | one object's path is an ancestor of another's exactly when it is the fleet, the same object, its project or its task |
| Acl.OnePathPerObject | src/mac/acl.py:126-163 | objects share a path exactly when they are the same up to outer blanks |
| Acl.PathsExactly | src/mac/acl.py:126-163 | an object has a path exactly when each identifier is neither blank nor contains a slash, the first that is not fit decides the refusal, and the path is its stripped identifiers under their kinds |
| Acl.StripExactly | src/mac/acl.py:126-131 | stripping takes away blanks on both sides and leaves none there |
| Acl.Ancestors | src/mac/acl.py:166-181 | the path and every ancestor, longest first |
| Acl.AclEvaluator.PrincipalsFor | src/mac/acl.py:250-261 | ends on cyclic roles and returns the reflexive-transitive closure without repeats |
| Acl.AclEvaluator.Check | src/mac/acl.py:265-305 | the decision for the set of entries, with an entry that bears it out, or the refusal of a malformed request |
| Acl.AclEvaluator.Allows | src/mac/acl.py:307-308 | the decision alone |
| Acl.AclEvaluator.WhoCanReach | src/mac/acl.py:317-331 | exactly the principals that are allowed, of all there could be |
| Acl.AclEvaluator.NobodyElse | src/mac/acl.py:325-331 | no allowed principal lies outside the candidates |
| Acl.LongestMatchDecides | src/mac/acl.py:265-305 | allowed exactly when the longest ancestor with a matching entry has no matching denial; refused without one |
| Acl.AllowedExactly | src/mac/acl.py:250-305 | allowed exactly when at some ancestor entries for the permission and for the principal or a role reached from it speak and all of those allow, and at every longer ancestor all are silent |
| Acl.AddingAllow | src/mac/acl.py:270-294 | an added allow entry never revokes, and grants exactly when it is as deep as every match and beside no denial |
| Acl.AddingDeny | src/mac/acl.py:270-294 | an added deny entry never grants, and revokes exactly when it is as deep as what allowed |
| Acl.OthersHaveNoEffect | src/mac/acl.py:270-279 | entries for other permissions, principals, branches and deeper resources have no effect |
| Acl.MembershipIsTransitive | src/mac/acl.py:250-261 | whatever a role holds, its holders hold |
| StderrTail.StderrTee.Run | deploy/mac-crash-observer.py:297-314 | following the stream keeps the chunks that one trim at the end would keep, and size is their total |
| StderrTail.StderrTee.AddChunk | deploy/mac-crash-observer.py:311-314 | one chunk is appended and whole chunks are dropped from the front until the rest fits |
| StderrTail.StderrTee.Text | deploy/mac-crash-observer.py:316-317 | the kept chunks joined, within the limit |
| StderrTail.KeptOnTheWay | deploy/mac-crash-observer.py:311-314 | trimming after every chunk keeps what trimming once would |
| StderrTail.KeptIsLongest | deploy/mac-crash-observer.py:311-314 | what is kept is the longest run of whole chunks at the end that fits |
| StderrTail.TeeKeepsTheEnd | deploy/mac-crash-observer.py:289-317 | the text is the end of everything read, at most the limit and at least the smaller of everything and limit - 4095 |
| StderrTail.TailLostExactly | deploy/mac-crash-observer.py:311-314 | nothing is kept exactly when the last chunk alone is over the limit |
| StderrTail.TextWhileTrimming | deploy/mac-crash-observer.py:313-317 | text taken in the middle of a trim is short enough and still the end of what was read |
| CrashSpool.StepKeeps | deploy/mac-crash-observer.py:257-286 | every step of any number of observers, deaths included, keeps the spool's invariant |
| CrashSpool.EveryRun | deploy/mac-crash-observer.py:257-286 | so every state of every run satisfies it |
| CrashSpool.StaleIsOutranked | deploy/mac-crash-observer.py:264-270 | what a listing puts past the limit has 512 other files at least as new |
| CrashSpool.LeavesOnlySo | deploy/mac-crash-observer.py:264-286 | a file leaves the spool only when the hub has its report, or removed as stale by an observer whose own listing put it behind 512 files at least as new and who has since only removed stale files |
| CrashSpool.NoReportIsLost | deploy/mac-crash-observer.py:446-449 | a report that reached the spool is there whole, or at the hub, or was removed in that second way |
| CrashSpool.NothingFabricated | deploy/mac-crash-observer.py:257-286 | what the hub receives and what is readable in the spool is a report exactly as its observer made it |
| SpoolMeaning.OneWayOn | deploy/mac-crash-observer.py:257-285 | in each phase an observer has one step to take unless it dies, with at most a hundred listed files, fresh event ids, and exactly the oldest files over 512 to remove |
| SpoolMeaning.OldestAreStale | deploy/mac-crash-observer.py:264-270 | the files past the limit are the oldest, as many as there are over 512 |
| SpoolMeaning.ReportGoesOut | deploy/mac-crash-observer.py:446-449 | an undisturbed report is spooled whole, the oldest files over the limit go, the hub hears it if the post arrives, and it leaves the spool exactly if that is acknowledged |
| SpoolMeaning.FlushGoesOn | deploy/mac-crash-observer.py:274-286 | an undisturbed flush sends each listed file that can be read, and removes exactly those whose post is acknowledged |
| SpoolMeaning.DyingLeavesFiles | deploy/mac-crash-observer.py:257-286 | an observer may die before any step, and no file changes with it |
| CrashSpool.FlushSpool | deploy/mac-crash-observer.py:274-286 | the first hundred names are tried, what is sent goes, everything else stays in order |
| CrashSpool.FlushExactly | deploy/mac-crash-observer.py:274-286 | a file is taken away exactly when it is among the first hundred, can be read and is accepted; the others keep their order |
| CrashSpool.StarvedExactly | deploy/mac-crash-observer.py:278-285 | repeated flushes send a file exactly when fewer than a hundred unsendable files precede it |
| CrashSpool.JammedForEver | deploy/mac-crash-observer.py:278-285 | a hundred unreadable files and a good one behind them that no number of flushes sends |

## Left out

- Subprocess, git, docker, HTTP, SQL engine and file permission plumbing: diffs, coverage rows, file existence, digests, gateway starts and stops and post outcomes are parameters or steps. Digests are taken as injective.
- `inventory_sha256` and the other digests of the storage helper: they record, they do not decide.
- Table order and the write-ahead log: the table is taken in id order, a committed transaction is on disk, and a failed one leaves no trace.
- Backup names are taken to sort by age, and nothing but the helper stops or starts the gateway during a run.
- MigrationProtocol.RunCompletes: a run that is not disturbed, over payloads below 2^70 bytes; what a broken endpoint or a failed proof leaves behind is covered by the invariant only.
- The order of dictionary iteration and of the index lists in the impact map: sets stand for them. Lists the program sorts before it returns them are sets too, except where order decides.
- Parsing Python sources and textual diffs: trees of spans, blank and comment lines and sets of changed lines are given. A file that does not parse is an empty tree.
- The regular expression that looks for test definitions: the set of defined ids is given.
- The provenance, statistics and reason texts of selection documents.
- An impact map document whose indices are negative or not numbers; out-of-range ones are modelled for the certifier, and for the resolver ruled out by `WellIndexed`, which every built map satisfies.
- The classification of paths in the resolver, and of documentation and safe paths in the certifier, are predicates of the world. The image's name matches are given as the frozen files that match.
- AtomicFile.StepKeeps: an asynchronous interrupt between the rename and leaving the `try` block, which could delete a temporary name that someone else has taken since.
- The payload byte cap of announcements, the JSON of coalesce keys (a key is a value with an agent) and the roster of agents.
- Broadcast.PruningIsInvisible: calls are taken to get the lock in the order in which they read the clock (`Ordered`; src/mac/agentbus_broadcast.py:531-532 reads it before the lock). Without that, a key pruned at a later stamp may be asked for at an earlier one; what then holds is Broadcast.RepeatsAreSpaced with its lag.
- Broadcast.MapStaysSmall: no bound is stated for a lag of 50 seconds or more between reading the clock and taking the lock.
- GreedyCover.Mutants: which of the nine textual changes a line gets; a line offers one or none.
- GreedyCover.Analyse: the tests are given in their sorted order too; node ids are matched against the report outside the model. `mustKeep` stands in the order of the picks, where the source sorts it (scripts/test-discrimination.py:187), and `kills` keeps the tests that killed nothing, which the source filters out (scripts/test-discrimination.py:204).
- Acl.AclEvaluator.Check: which matching entry is named as the role depends on the order of the entries; only that it bears the decision out is stated. Paths are sequences of segments without slashes or outer blanks, and `normalize_path` on other text is not modelled.
- `effective_permissions`: one decision for each permission, nothing beyond it.
- CrashSpool.NoReportIsLost: deaths of observer processes; the spool is written without syncing, so a power failure may tear a published file, which then reads as unreadable.
- StderrTail.StderrTee.Text: the decoding of the bytes.
- Ranking and scoring by floating point, text classification, schema checks and payload builders, front ends, vault and image scripts: they would add members of one branch each.
