# PROMPTECTOMY: verified models of its stateful core

PROMPTECTOMY acquires source code, discovers model calls in it and keeps the evidence. This project models the parts
whose correctness depends on state, concurrency, formats or loops, and proves what they promise for every input, every
interleaving or every reachable state. `dafny verify dfyconfig.toml` (Dafny 4.11) covers the whole project.

| files | component |
|---|---|
| `StateModel`, `StateInvariants`, `StateHistories`, `StateReplies`, `StateStore`, `TextOrder`, `EventPaging`, `Recovery`, `RecoveryConflict`, `Decimal` | the event-sourced state store (`engine/promptectomy/state_v2.py`) |
| `ArtifactRows`, `Storage`, `ArtifactProtocol`, `Durability`, `Fates`, `Overtaking`, `Exclusion`, `PutRuns`, `Races`, `ArtifactStore`, `Refinement`, `SoloRuns`, `Reports` | the content-addressed artifact store and frozen reports |
| `FileOrder`, `PathPolicy`, `PathSafety`, `Octal`, `Tar`, `TarBounds`, `TarPrinter`, `TarRoundTrip`, `TarFiles`, `TarHeader`, `Bundle`, `BundleFiles` | archive and bundle acquisition |
| `Scan`, `TreeDigest`, `SnapshotTree`, `Publish`, `PublishRuns` | local scanning, tree digests and snapshot publication |
| `Bindings`, `BindingRules`, `BindingLoop`, `BindingOrder` | the JavaScript binding resolver |
| `Follow`, `Utf8`, `BatchStream` | the incremental log follower and the batch reader |
| `RateWindow`, `Import` | the rate limiter and the OTLP import loop |

Each database operation is a function from one database value to the next (`StateModel.Write`, `Act`); the class
`StateStore` performs it field by field and is proved to do exactly that, rollback included. `put`, `collect` and the
reconciliation of an opening process exist twice: as a step machine in which any number of puts, collections and
openings interleave, fail and crash (`ArtifactProtocol`), and as the methods of a class (`ArtifactStore`);
`Refinement.SoloPut`, `SoloRuns.SoloCollect` and `SoloRuns.SoloOpen` show that the machine run alone does what the
methods do.
The tar parser, the bundle reader, the scanner, the snapshot writer and the follower are loops proved against
functions, and the theorems are about those functions. What each of them accepts and answers is stated a second time
without it, as an if-and-only-if on its input: `StateReplies`, `EventPaging.ReadExactly`, `ArtifactStores.PutExactly`,
`PathSafety`, `TarFiles`, `TarHeader`, `BundleFiles`, `BindingRules`, `Utf8` and `Import.NormalizeExactly`.

Abstractions: SHA-256 is symbolic for artifact identifiers (an identifier carries its preimage) and an arbitrary
function where the tree digest is concerned (results say "equal, or here is a collision"); canonical JSON is structural
equality; schema validation is a fixed predicate; decoding one log line is a codec with the laws of JSON objects
(`Follow.Laws`, met for instance by `BatchStream.Toy`); clocks, fresh identifiers and temporary names are arguments; a
database transaction and a single file-system call are atomic.

## What turned out false, and exactly when it holds

- **A live row has its file.** Two races break this. A `put` checks its file once, last, and registers later; in between
  a collection can remove file and row, or an opening process can move the still unregistered file to quarantine. And an
  opening process looks a path up first and moves it later; in between a put can register it.
  `Overtaking.OvertakenExactly` and `Overtaking.RegisteredSinceExactly` say on the actions of the run alone when this has
  happened, and `Overtaking.SafeExactlyByActions` that a run is safe throughout if and only if neither happens in it.
  `Races.PutCanReturnHollow` and `Races.OpeningSweepsRegistered` reach both from the empty store;
  `Exclusion.ExclusionIsEnough`: neither happens where no put runs beside a collection or an opening.
- **Durability of a protected artifact.** Even with its file in place a pinned or referenced artifact can lose its row's
  flag: an opening process whose walk has passed before the put linked the file quarantines the row when it closes
  (`Races.OpeningQuarantinesReturned`), and a crash does so while a collector holds the file of an artifact that has
  just gained a reference (`Races.CrashQuarantinesReferred`). `Fates.Durable` has the exact condition: once registered
  with its file, the artifact reads back if and only if since then no opening process has marked the row, no crash has
  found the file out, and the file has not been swept away without being linked again; `Fates.LiveExactly` and
  `Fates.HereExactly` are its two halves. `Overtaking.NotOvertakenIsDurable` states it from the return of a put that was not
  overtaken. The bytes and the row are never deleted, whatever happens (`Durability.NeverDeleted`).
- **Follower against batch reader.** The batch reader splits at carriage returns, has another notion of blank, and
  decodes a page of the file before it yields any line of it. `BatchStream.AgreesExactly` gives the exact condition for
  logs it can read, `BatchStream.RecordedLogsAgree` for all good logs without carriage returns.
  `BatchStream.LoneReturnSplitsReaders` is a log on which even the follower alone depends on how it reads;
  `BatchStream.BytesAfterDoneSplitReaders` one on which bytes that are not UTF-8, after `done`, keep the batch reader from
  yielding anything.
- **One tree as bundle and as archive.** The bundle reader counts every entry against `max_files`, the archive reader
  only the selected ones: once read, the outcomes are equal if and only if there are at most `max_files` entries
  (`Bundle.BundleMatchesTar`; `Bundle.UnselectedEntriesCount` is an instance). Both readers first bound the bytes of the
  file, and the two files of one tree differ in size: `Bundle.ReadersMatchExactly` says when the whole readers agree.
- **Redeclared JavaScript names**, those bound by `require` included. The loop ends in a fixed point if and only if no name
  of a scope can be derived to two bindings, by rules that mention no table and no order, and then every visiting order
  binds exactly what can be derived (`BindingLoop.FixedPointExactly`, `BindingLoop.OutcomeIsDerived`); declarators that
  agree with each other are enough for that (`Bindings.AgreeingIsConsistent`). Whatever the source, nothing is bound that
  cannot be derived (`BindingLoop.OutcomeIsDerivable`). Otherwise two
  visiting orders differ as soon as the loop can reach a state where the open declarators of a name all resolve, without
  reading that name itself if it is bound already, and not alike (`BindingOrder.OrderShows`,
  `BindingOrder.RedeclarationIsOrderDependent`), or one where a name that `require` bound can be rebound before another is
  constructed with it (`BindingOrder.RebindingShows`, `BindingOrder.RequiredNameIsOrderDependent`). That is one-way: `BindingOrder.ConflictCanHide` is a source with a conflict
  that a third declarator repairs in every order.
- **Span identity.** The identity joins its parts with NUL, so identifiers that contain NUL can coincide:
  `Import.DistinctSpansDropped` drops a span that is not a duplicate, `Import.ConfusableExactly` says which spans are at risk.
- **Freezing** refuses every run with more than 1000 events (`Reports.FreezeIncompleteExactly`).
- **Recovery** stops with a conflict exactly at the first run for which a client has already used the key that it
  generates, with the runs before it interrupted (`Recovery.RecoverAll`; `RecoveryConflict.SpentKeyStopsRecovery` is such a
  history).
- **Re-publishing** fails exactly when the stored list exceeds the verifier's own fixed limits
  (`Publish.RepublishExactly`; `PublishRuns.TooManyCannotBeRepublished` publishes once and then fails), and a first
  publication fails exactly when one path lies below another (`SnapshotTree.WriteExactly`).

## Model

| member | source | states |
|---|---|---|
| `StateInvariants.WriteAdvances` | engine/promptectomy/state_v2.py:335-613 | a write either leaves the database alone or appends exactly one event at the end of one run's log, advances that run's row to it, touches at most one stage, adds the event's references and one idempotency row |
| `StateInvariants.AdvanceIsDisciplined` | engine/promptectomy/state_v2.py:417-443 | an accepted transition keeps started_at set for in-flight, interrupted and completed runs, terminal_at set for terminal ones, and completion backed by its counters |
| `StateInvariants.NeverConstraintError` | engine/promptectomy/state_v2.py:456-485 | on a gap-free log the UNIQUE(run_id, sequence) index never rejects an insert |
| `StateInvariants.ActKeepsInvariant` | engine/promptectomy/state_v2.py:335-754 | every transaction, artifact rows included, keeps the whole invariant |
| `StateInvariants.ReplayKeepsInvariant` | engine/promptectomy/state_v2.py:335-754 | in every reachable state: each run's events are exactly 1 to last_sequence, event ids are distinct, rows agree with stored entities, statuses are backed by evidence, logged artifacts are referenced, idempotency rows and events correspond one to one |
| `StateInvariants.ActKeepsLog` | engine/promptectomy/state_v2.py:456-485 | no transaction rewrites an event or an idempotency row, or drops a reference |
| `StateInvariants.LoggedArtifactsStay` | engine/promptectomy/state_v2.py:456-485 | an artifact named by a logged event stays registered and protected through every later history |
| `StateHistories.IdempotencyKept` | engine/promptectomy/state_v2.py:350-378 | an idempotency row survives every later history unchanged |
| `StateHistories.SuccessIsRecorded` | engine/promptectomy/state_v2.py:393-454 | a request that succeeded is on record with its response |
| `StateHistories.ExactlyOnce` | engine/promptectomy/state_v2.py:350-613 | whatever comes between, a later copy of a successful request gets the original response and can be deleted from the history without changing any later state |
| `StateHistories.ReuseConflicts` | engine/promptectomy/state_v2.py:350-613 | the same key with another body fails and changes nothing, whatever came between |
| `StateHistories.WriteMovesLegally` | engine/promptectomy/state_v2.py:29-44 | one write moves every run along RUN_TRANSITIONS, creates it as created, or leaves it |
| `StateHistories.StatusWalkIsLegal` | engine/promptectomy/state_v2.py:22-44 | over any history the statuses of a run are a walk from created along RUN_TRANSITIONS that ends in its current status |
| `StateHistories.TerminalIsFinal` | engine/promptectomy/state_v2.py:22-28 | a terminal status never changes |
| `StateHistories.ActContinues` | engine/promptectomy/state_v2.py:380-613 | no transaction drops a run or a stage or changes a run's counters or start; stages keep their run, start as created and move along STAGE_TRANSITIONS |
| `StateHistories.RunContinues` | engine/promptectomy/state_v2.py:380-454 | over any later history a run keeps its identity and counters, and its started_at once set |
| `StateHistories.QuietHistory` | engine/promptectomy/state_v2.py:380-613 | a history at whose end a run has no more events than before has left its row and its log untouched |
| `StateReplies.RunMovesByTarget` | engine/promptectomy/state_v2.py:29-44 | the run table read by its targets: for each status, from where it can be entered |
| `StateReplies.StageMovesByTarget` | engine/promptectomy/state_v2.py:45-57 | the same for stages |
| `StateReplies.CreateRunExactly` | engine/promptectomy/state_v2.py:335-378 | sent under a new key in a reachable state, a run is created if and only if the schema takes run and event, both are in their initial form, the run is new, the event id unused and every named artifact live; the reply is the run at sequence 1, and so is its row; which error otherwise |
| `StateReplies.AppendExactly` | engine/promptectomy/state_v2.py:380-454 | an event, with or without a target status, is accepted if and only if the run exists, the sequence is one more than its number of events, the target is absent or legal and backed by the counters, the event id is unused, every named artifact is live, and the schema takes the event and the run it leads to; the reply is that run, field by field, and so is its row; which error otherwise |
| `StateReplies.CreateStageExactly` | engine/promptectomy/state_v2.py:487-544 | the same for a new stage: in a run that is not terminal; the stage is the reply and the row, and of the run only the counter moves |
| `StateReplies.TransitionExactly` | engine/promptectomy/state_v2.py:546-613 | the same for a stage transition: of the stage only the state moves, of the run only the counter |
| `StateReplies.RowActionsExactly` | engine/promptectomy/state_v2.py:658-754 | the four other transactions change the artifact tables as their statements say, and nothing else |
| `StateStores.StateStore.constructor` | engine/promptectomy/state_v2.py:166-210 | a new store is the empty database |
| `StateStores.StateStore.Rollback` | engine/promptectomy/state_v2.py:221-230 | a failed transaction restores every table |
| `StateStores.StateStore.FindReplay` | engine/promptectomy/state_v2.py:356-366 | what is found under a key is the reply that the request gets whenever it is sent, with no change to the database; nothing is found exactly for an unused key |
| `StateStores.StateStore.InsertEvent` | engine/promptectomy/state_v2.py:456-485 | event and references are inserted together, or nothing is |
| `StateStores.StateStore.CreateRun` | engine/promptectomy/state_v2.py:335-378 | the table updates and rollbacks amount to the create request of the specification, success and failure alike |
| `StateStores.StateStore.AppendEvent` | engine/promptectomy/state_v2.py:380-454 | likewise for append; `StateReplies.AppendExactly` says when that succeeds and what it replies |
| `StateStores.StateStore.CreateStage` | engine/promptectomy/state_v2.py:487-544 | likewise for stage creation |
| `StateStores.StateStore.TransitionStage` | engine/promptectomy/state_v2.py:546-613 | likewise for stage transitions |
| `StateStores.StateStore.RegisterArtifact` | engine/promptectomy/state_v2.py:658-695 | inserts a complete row or agrees with the one there, only ever adding a pin |
| `StateStores.StateStore.AddArtifactRef` | engine/promptectomy/state_v2.py:697-702 | adds the reference, or fails on a missing artifact |
| `StateStores.StateStore.QuarantineArtifact` | engine/promptectomy/state_v2.py:723-730 | the row stops being complete and becomes quarantined |
| `StateStores.StateStore.DeleteArtifactRecord` | engine/promptectomy/state_v2.py:747-754 | deletes the row exactly if it is neither pinned nor referenced at that moment |
| `StateStores.StateStore.StaleRuns` | engine/promptectomy/state_v2.py:787-792 | lists each run that may be interrupted and was last updated before the cutoff, once, ordered by run id, and nothing else |
| `StateStores.StateStore.RecoverInterrupted` | engine/promptectomy/state_v2.py:777-814 | refuses without proof of worker absence, otherwise performs one append per stale run, in order of run id and with its own identifier and clock readings, and stops at the first failure |
| `ArtifactRows.Register` | engine/promptectomy/state_v2.py:658-695 | succeeds exactly if the row there is live and agrees, or there is none and the path is free; leaves a live row with the given metadata, a new one with the given retention and pin, an old one with its own and the pin added; other rows and references untouched |
| `ArtifactRows.DeleteRow` | engine/promptectomy/state_v2.py:747-754 | succeeds exactly on a row that is neither pinned nor referenced; it is then gone, references untouched |
| `EventPaging.SelectIsSlice` | engine/promptectomy/state_v2.py:646-650 | on a gap-free log the ordered, limited query returns the slice of the log behind the cursor |
| `EventPaging.ReadIsSlice` | engine/promptectomy/state_v2.py:627-656 | every cursor up to the end reads the next slice; no gap and no expired cursor is ever reported |
| `EventPaging.ReadExactly` | engine/promptectomy/state_v2.py:627-656 | whatever the tables hold: out of range, no such run, expired cursor and gap each exactly when they are due, and otherwise the page behind the cursor |
| `EventPaging.PageThrough` | engine/promptectomy/api_v2.py:215-226 | paging from cursor 0 with any accepted limit terminates and concatenates to the whole log |
| `EventPaging.FreezeAdmission` | engine/promptectomy/reports_v2.py:26-31 | one page of 1000 is the whole log exactly when last_sequence is at most 1000 |
| `Recovery.RecoverPerforms` | engine/promptectomy/state_v2.py:794-813 | one recovery step with a free key appends one interrupting event to its own run and touches nothing else |
| `Recovery.RecoverConflicts` | engine/promptectomy/state_v2.py:808-812 | with the key already used it is refused as a conflict and changes nothing |
| `Recovery.RecoverAll` | engine/promptectomy/state_v2.py:777-814 | the loop stops, with a conflict, exactly at the first run whose generated key is spent, and succeeds if there is none; exactly the runs before that one are interrupted, by one event each, and nothing else changed |
| `Recovery.RecoveryIsHonest` | engine/promptectomy/state_v2.py:808-812 | recovery itself only uses recovery-N with the event of sequence N |
| `Recovery.KeysSpentAfter` | engine/promptectomy/state_v2.py:393-454 | if clients do the same, recorded recovery keys always name past sequences |
| `Recovery.RecoveryTheorem` | engine/promptectomy/state_v2.py:777-814 | after any such history recovery succeeds and interrupts exactly the runs that may be interrupted and were last updated before the cutoff |
| `RecoveryConflict.SpentKeyStopsRecovery` | engine/promptectomy/state_v2.py:777-814 | a concrete history in which a client spends the key recovery-5: the run is stale and in flight, and recovering it conflicts |
| `Storage.ReconcileConsistent` | engine/promptectomy/artifacts_v2.py:208-241 | from any disk and rows, reconciling leaves live records and files in one-to-one correspondence with matching bytes, size and class |
| `Storage.ReconcileIdempotent` | engine/promptectomy/artifacts_v2.py:208-241 | a second reconciliation changes nothing |
| `Storage.ReconcileConserves` | engine/promptectomy/artifacts_v2.py:208-247 | every file stays in place exactly if it is accounted for, and is otherwise in quarantine with the same bytes |
| `ArtifactProtocol.NextSound` | engine/promptectomy/artifacts_v2.py:33-247 | every step of every put, collection and opening, every fault and every crash keeps: only complete files under final names, one owner per temporary and per quarantined file, rows that name their own content |
| `Durability.StepSafeExactly` | engine/promptectomy/artifacts_v2.py:48-241 | one step loses safety if and only if it registers a file that is gone, or moves away the only copy of a registered one |
| `Durability.SafeExactly` | engine/promptectomy/artifacts_v2.py:48-241 | a whole run is safe if and only if no step of it does either |
| `Durability.ProtectedRowStays` | engine/promptectomy/state_v2.py:697-754 | no step deletes, re-homes or unprotects the row of a pinned or referenced artifact, and it loses its live flag exactly when an opening process marks it or a crash finds its file out |
| `Durability.ProtectedBytesKept` | engine/promptectomy/artifacts_v2.py:175-247 | nor its bytes, which are in place or in quarantine with no one about to unlink them |
| `Durability.NeverDeleted` | engine/promptectomy/artifacts_v2.py:175-247 | over whole runs with any interleaving, fault, crash and opening of the store |
| `Fates.HereExactly` | engine/promptectomy/artifacts_v2.py:48-247 | over whole runs a file that is in place or in a collector's hand still is, if and only if it was not swept away without being linked again: deleted with the only copy in hand, moved by an opening process, or lost to a crash |
| `Fates.LiveExactly` | engine/promptectomy/artifacts_v2.py:48-247 | over whole runs a protected artifact keeps its live row exactly while no opening process marks it and no crash finds its file out; class, path and protection stay in any case |
| `Fates.ReadsBack` | engine/promptectomy/artifacts_v2.py:135-168 | unless a collector holds its file, read returns the bytes of an artifact exactly if its row is live and its file is here |
| `Durability.ReadExactly` | engine/promptectomy/artifacts_v2.py:135-168 | read returns a content exactly if the row is live and of an allowed class and its file is that content, of the right size and digest |
| `Fates.Durable` | engine/promptectomy/artifacts_v2.py:135-247 | a protected artifact with its file reads back, after any further run, if and only if nothing since cost the row its flag or the path its file |
| `Fates.PutReturns` | engine/promptectomy/artifacts_v2.py:77-133 | when put returns its row is live under its own class and path, protected if pinning was asked for, and its file is here exactly if it was |
| `Fates.PutIsDurable` | engine/promptectomy/artifacts_v2.py:48-247 | the same from the return of a put that registered with its file here |
| `Overtaking.OvertakenExactly` | engine/promptectomy/artifacts_v2.py:64-133 | at the registration the file is gone if and only if, since the last check, a collector deleted the row while holding the only copy, an opening process moved the file, or a crash lost it, and nobody linked it again |
| `Overtaking.RegisteredSinceExactly` | engine/promptectomy/artifacts_v2.py:208-241 | when an opening process moves a file, the file has a live row if and only if a put registered it since the look-up and nothing has ended the row since |
| `Overtaking.SafeExactlyByActions` | engine/promptectomy/artifacts_v2.py:48-247 | a run is safe throughout if and only if no put of it returns after having been overtaken and no opening process moves the only copy of a file registered since its look-up |
| `Overtaking.NotOvertakenIsDurable` | engine/promptectomy/artifacts_v2.py:48-247 | a put that was not overtaken reads back, while it is protected, exactly if nothing since its return cost the row its flag or the path its file |
| `Exclusion.ExclusionIsEnough` | engine/promptectomy/artifacts_v2.py:33-241 | runs in which no put is in progress beside a collection or an opening are safe throughout |
| `PutRuns.PutStopsExactly` | engine/promptectomy/artifacts_v2.py:48-133 | a step of a put fails exactly if the row disagrees or a file it relies on is gone |
| `PutRuns.PutsNeverFail` | engine/promptectomy/artifacts_v2.py:48-133 | however puts interleave that agree on class and media type of what they store, and nothing else goes on, none of them fails, and every row has its file |
| `PutRuns.FaultConserves` | engine/promptectomy/artifacts_v2.py:96-132 | a put that fails in the middle moves its temporary file to quarantine, with what it holds, and changes nothing else |
| `PutRuns.OpeningCloses` | engine/promptectomy/artifacts_v2.py:208-241 | an opening process closes when it has come to every path it listed, and then with exactly the live rows it has not seen |
| `Races.PutCanReturnHollow` | engine/promptectomy/artifacts_v2.py:64-133 | a reachable state with a returned, pinning put whose artifact cannot be read: verified, collected, then registered |
| `Races.CrashQuarantinesReferred` | engine/promptectomy/artifacts_v2.py:175-241 | a reachable state after a crash in which a referenced artifact is quarantined and cannot be read |
| `Races.OpeningQuarantinesReturned` | engine/promptectomy/artifacts_v2.py:208-241 | a reachable state in which the closing loop of an opening process has quarantined the pinned row of a returned put whose file is in place |
| `Races.OpeningSweepsRegistered` | engine/promptectomy/artifacts_v2.py:208-241 | a reachable state in which an opening process has moved away the file of a returned put, having looked it up before the registration |
| `ArtifactStores.PutThenRead` | engine/promptectomy/artifacts_v2.py:48-168 | put then read is the identity on bytes, and no other file changes |
| `ArtifactStores.PutTwice` | engine/promptectomy/artifacts_v2.py:64-88 | a repeated put succeeds with the same identifier and changes neither rows nor disk |
| `ArtifactStores.PutExactly` | engine/promptectomy/artifacts_v2.py:48-133 | a put succeeds if and only if the request is well-formed, the row there agrees and is live, the file there is the content, and the path is free; which error otherwise; on success one row and at most one file are new, as asked for |
| `ArtifactStores.ArtifactStore.constructor` | engine/promptectomy/artifacts_v2.py:33-46 | a new store is empty |
| `ArtifactStores.ArtifactStore.Put` | engine/promptectomy/artifacts_v2.py:48-133 | the method has exactly the specified outcome on rows, disk and reply, errors included |
| `ArtifactStores.ArtifactStore.WriteAndLink` | engine/promptectomy/artifacts_v2.py:96-115 | however the writes are accepted, only the final name appears, with the whole content |
| `ArtifactStores.ArtifactStore.Read` | engine/promptectomy/artifacts_v2.py:135-168 | chunked reading returns the whole verified file, or refuses |
| `ArtifactStores.ArtifactStore.MoveToQuarantine` | engine/promptectomy/artifacts_v2.py:243-247 | the file moves, with its bytes, to a name never used before |
| `ArtifactStores.ArtifactStore.FindByPath` | engine/promptectomy/state_v2.py:710-714 | finds the record with that path, or there is none |
| `ArtifactStores.ArtifactStore.ReconcilePath` | engine/promptectomy/artifacts_v2.py:211-238 | one visited path is kept, moved as an orphan without touching a record, or moved as invalid or tampered with its record quarantined, as the specification of the walk says |
| `ArtifactStores.ArtifactStore.QuarantineMissing` | engine/promptectomy/artifacts_v2.py:239-241 | the closing loop quarantines exactly the live records without a file |
| `ArtifactStores.ArtifactStore.Reconcile` | engine/promptectomy/artifacts_v2.py:208-241 | succeeds exactly up to 100000 entries and then meets the reconciliation specification; otherwise only strays were moved |
| `ArtifactStores.ArtifactStore.CollectOne` | engine/promptectomy/artifacts_v2.py:180-194 | removes row and file together, or restores the file; a reference committed while the file is out always wins |
| `ArtifactStores.ArtifactStore.ListCollectable` | engine/promptectomy/state_v2.py:732-745 | lists, once each and ordered by the text of the identifier, exactly the complete rows that are not pinned, not referenced, and without a retention or with one that has passed |
| `ArtifactStores.ArtifactStore.Sweep` | engine/promptectomy/artifacts_v2.py:179-195 | removes a prefix of the candidates with their files and nothing else |
| `ArtifactStores.ArtifactStore.Collect` | engine/promptectomy/artifacts_v2.py:175-195 | removes only such rows with their files, in order of their identifiers, all of them on success, none with a late reference; a dry run changes nothing |
| `Refinement.SoloPut` | engine/promptectomy/artifacts_v2.py:48-133 | the step machine run alone ends where the sequential put says, whatever each write accepts |
| `SoloRuns.SoloCollect` | engine/promptectomy/artifacts_v2.py:179-195 | a collection of the step machine run alone removes rows and files of the longest prefix of its candidates whose files are there, and nothing else |
| `SoloRuns.SoloOpen` | engine/promptectomy/artifacts_v2.py:208-241 | an opening of the step machine run alone meets the reconciliation specification, in whatever order it visits the paths |
| `Reports.FreezeReport` | engine/promptectomy/reports_v2.py:20-72 | the method has exactly the specified outcome, errors included |
| `Reports.FreezeIncompleteExactly` | engine/promptectomy/reports_v2.py:26-31 | freezing is refused as incomplete exactly above 1000 events |
| `Reports.FreezeExactly` | engine/promptectomy/reports_v2.py:20-72 | in a reachable state, a report is frozen if and only if the run exists with at most 1000 events, both artifacts can be put and the owner fits; which error otherwise |
| `Reports.SnapshotShows` | engine/promptectomy/reports_v2.py:32-47 | the snapshot shows the run and, of every event in order, all but its payload |
| `Reports.StoredAs` | engine/promptectomy/reports_v2.py:49-61 | both artifacts are stored as safe, pinned, without retention and under their media types |
| `Reports.FreezeTwice` | engine/promptectomy/reports_v2.py:20-72 | freezing again after any history in which the run gained no event gives the same artifact ids or fails to store them, and succeeds without any change when both artifacts are still in the store |
| `Reports.FrozenReadsBack` | engine/promptectomy/reports_v2.py:20-72 | both artifacts of a frozen report read back as the rendering of the whole log, and carry a reference by the run |
| `PathPolicy.NormalizePath` | rust/crates/promptectomy-acquisition/src/path_policy.rs:49-85 | accepts exactly the safe relative paths, unchanged |
| `PathSafety.AcceptedExactly` | rust/crates/promptectomy-acquisition/src/path_policy.rs:49-85 | a path is accepted if and only if it is ASCII of bounded length without a backslash and no stretch between two slashes is empty, a dot or two, too long, .git or a Windows device in any case, ends in a dot or a space, or contains a colon or a control byte |
| `PathSafety.StaysInside` | rust/crates/promptectomy-acquisition/src/path_policy.rs:49-85 | resolving an accepted path byte by byte from any directory passes only through places below it and ends at the path |
| `PathSafety.CollidesExactly` | rust/crates/promptectomy-acquisition/src/path_policy.rs:110-118 | two paths collide exactly if they are the same letter by letter, up to ASCII case |
| `PathSafety.SelectedExactly` | rust/crates/promptectomy-acquisition/src/path_policy.rs:87-95 | a root selects exactly the paths whose names begin with its own |
| `PathSafety.MayContainExactly` | rust/crates/promptectomy-acquisition/src/path_policy.rs:97-108 | a directory passes the pruning test if and only if some selected path lies at it or below it |
| `PathPolicy.NormalizeSelectedRoots` | rust/crates/promptectomy-acquisition/src/path_policy.rs:11-27 | succeeds exactly on safe, distinct roots, sorts them, and selects the same paths |
| `PathPolicy.AncestorsMayContain` | rust/crates/promptectomy-acquisition/src/path_policy.rs:87-108 | every directory above a selected path passes the pruning test |
| `PathPolicy.MayContainUpward` | rust/crates/promptectomy-acquisition/src/path_policy.rs:87-108 | so does every directory above one that passes it |
| `PathPolicy.AncestorOk` | rust/crates/promptectomy-acquisition/src/path_policy.rs:49-85 | the directories above an accepted path are accepted |
| `PathPolicy.AddQuota` | rust/crates/promptectomy-acquisition/src/snapshot.rs:244-263 | succeeds exactly within all three limits, with the exact sum |
| `Octal.ParseWritten` | rust/crates/promptectomy-acquisition/src/archive.rs:226-245 | parsing written octal digits gives the number back |
| `Octal.ParseOctalExactly` | rust/crates/promptectomy-acquisition/src/archive.rs:226-245 | any field, as blanks, a token and a rest: read exactly if it does not start above 127 and the token is octal and fits 64 bits, and as the number its digits write by place value |
| `Tar.VerifyChecksum` | rust/crates/promptectomy-acquisition/src/archive.rs:211-224 | accepts exactly when the stored number is the byte sum with a blank checksum field |
| `Tar.ReadPath` | rust/crates/promptectomy-acquisition/src/archive.rs:149-164 | the path of a header, or the error of the first check that fails |
| `Tar.ReadMember` | rust/crates/promptectomy-acquisition/src/archive.rs:146-202 | one member of the walk, no arithmetic leaving its machine type |
| `Tar.ParseTar` | rust/crates/promptectomy-acquisition/src/archive.rs:120-209 | the loop computes the specified parse on every input |
| `TarBounds.ParseBounds` | rust/crates/promptectomy-acquisition/src/archive.rs:125-209 | on success, for every input: strictly sorted, accepted, selected, case-insensitively distinct paths, each file its own aligned and disjoint region, all limits kept |
| `TarBounds.MemberEffect` | rust/crates/promptectomy-acquisition/src/archive.rs:146-202 | each member advances by at least a block, stays aligned and in range, and adds at most one file within the limits |
| `TarPrinter.WriteOctal` | rust/crates/promptectomy-acquisition/src/tests.rs:1197-1203 | fills its field with the padded octal digits and a NUL and changes nothing else |
| `TarPrinter.WriteChecksum` | rust/crates/promptectomy-acquisition/src/tests.rs:1205-1211 | fills the checksum field and changes nothing else |
| `TarPrinter.HeaderChecksum` | rust/crates/promptectomy-acquisition/src/tests.rs:1182-1187 | a printed header carries the checksum that the parser recomputes |
| `TarPrinter.PrintHeader` | rust/crates/promptectomy-acquisition/src/tests.rs:1172-1187 | the buffer filled in place is the specified header block |
| `TarPrinter.PrintTar` | rust/crates/promptectomy-acquisition/src/tests.rs:1169-1195 | headers, contents, padding and the closing blocks, in order |
| `TarRoundTrip.HeaderPathPrinted` | rust/crates/promptectomy-acquisition/src/archive.rs:149-164 | reading the path of a printed header gives the entry's path, or refuses exactly the unsafe ones |
| `TarRoundTrip.TarRoundTrip` | rust/crates/promptectomy-acquisition/src/archive.rs:120-209 | parsing a printed archive is collecting its entries and sorting, with the same error when there is one |
| `TarRoundTrip.TarEnds` | rust/crates/promptectomy-acquisition/src/archive.rs:120-209 | the same with anything behind the members: accepted exactly if that is two zero blocks or more and nothing else |
| `TarRoundTrip.CollectExactly` | rust/crates/promptectomy-acquisition/src/archive.rs:164-201 | collecting succeeds exactly on accepted, distinct, regular or directory entries within the limits, and keeps the selected regular files |
| `TarRoundTrip.TarParsesExactly` | rust/crates/promptectomy-acquisition/src/archive.rs:120-209 | both together: parse of print succeeds exactly on admissible entries and returns exactly the selected files, sorted, with bytes and executable bit |
| `TarFiles.ExecutableExactly` | rust/crates/promptectomy-acquisition/src/archive.rs:193-197 | a mode makes a file executable exactly if one of its last three octal digits is odd |
| `TarFiles.FilesRoundTrip` | rust/crates/promptectomy-acquisition/src/archive.rs:120-209 | an archive of files and directories, each path in one field or split at any slash, each file with any mode of its flag, is read if and only if the members are acceptable, and gives back exactly the selected files with path, bytes and flag |
| `TarHeader.HeaderExactly` | rust/crates/promptectomy-acquisition/src/archive.rs:145-164 | the path of any 512-byte header is accepted if and only if the checksum is the byte sum with blanks in its field, the magic is one of the two, and name and prefix, up to their first NUL, spell an accepted path |
| `TarHeader.CorruptHeader` | rust/crates/promptectomy-acquisition/src/archive.rs:211-224 | a printed header with any one byte outside the checksum field changed is refused for its checksum |
| `Bundle.ToHex` | rust/crates/promptectomy-acquisition/src/digest.rs:7-15 | two lower-case digits per byte |
| `Bundle.HexRoundTrip` | rust/crates/promptectomy-acquisition/src/archive.rs:259-280 | decoding encoded bytes gives them back |
| `Bundle.HexUnique` | rust/crates/promptectomy-acquisition/src/archive.rs:259-280 | every accepted text is the encoding of what it decodes to |
| `Bundle.HexExactly` | rust/crates/promptectomy-acquisition/src/archive.rs:259-280 | a content text is accepted exactly if it is the encoding of what it decodes to |
| `Bundle.CollectBundle` | rust/crates/promptectomy-acquisition/src/archive.rs:71-118 | the loop computes the specified outcome on every document |
| `BundleFiles.BundleExactly` | rust/crates/promptectomy-acquisition/src/archive.rs:71-118 | the document that lists some files is accepted if and only if the paths are accepted and distinct up to case, there are at most max_files, and the selected ones exist and fit the quotas; it then gives back the selected ones, sorted |
| `BundleFiles.OnlyBundles` | rust/crates/promptectomy-acquisition/src/archive.rs:71-118 | nothing else is accepted: an accepted document lists its files under its version, each content in hex with its own digest |
| `Bundle.BundleMatchesTar` | rust/crates/promptectomy-acquisition/src/archive.rs:71-209 | once the bytes are read, the same regular entries as a bundle and as an archive give the same files or the same error, if and only if there are at most max_files of them |
| `Bundle.ReadersMatchExactly` | rust/crates/promptectomy-acquisition/src/archive.rs:30-70 | the whole readers, with their bound on the bytes of the file, agree if and only if both files are over the bound, or both within it and there are at most max_files entries |
| `Bundle.BundleOfArchive` | rust/crates/promptectomy-acquisition/src/archive.rs:30-209 | reading the bundle of the regular members of any accepted archive, directories and all, gives the files of that archive, or is refused exactly above the byte bound or above max_files |
| `Bundle.UnselectedEntriesCount` | rust/crates/promptectomy-acquisition/src/archive.rs:78-80 | two entries, one selected, room for one: the archive is accepted and the bundle refused |
| `TreeDigest.TreeDigest` | rust/crates/promptectomy-acquisition/src/snapshot.rs:265-283 | the loop hashes the specified stream |
| `TreeDigest.StreamDetermines` | rust/crates/promptectomy-acquisition/src/snapshot.rs:265-283 | equal streams mean the same number of files and the same path, mode, length and content hash for each |
| `TreeDigest.StreamReadsBack` | rust/crates/promptectomy-acquisition/src/snapshot.rs:265-283 | an independent reader of the hashed stream recovers path, flag, length and content hash of every file |
| `TreeDigest.DigestDetermines` | rust/crates/promptectomy-acquisition/src/snapshot.rs:265-283 | equal digests mean equal trees or an explicit hash collision |
| `Scan.AncestorsEntered` | rust/crates/promptectomy-acquisition/src/snapshot.rs:185-242 | every directory above a wanted file is entered |
| `Scan.ReadDir` | rust/crates/promptectomy-acquisition/src/snapshot.rs:195-201 | the children of a directory, each once, sorted by name and last first |
| `Scan.ScanEntry` | rust/crates/promptectomy-acquisition/src/snapshot.rs:201-238 | a wanted file is added, an entered directory is pushed, anything else is skipped or refused; nothing is refused in a scannable tree, and nothing accepted but regular files and directories under accepted paths |
| `Scan.ScanDirectory` | rust/crates/promptectomy-acquisition/src/snapshot.rs:195-238 | one directory adds exactly its wanted files and pushes exactly its entered subdirectories |
| `Scan.ScanLocal` | rust/crates/promptectomy-acquisition/src/snapshot.rs:185-242 | succeeds if and only if the entries of all entered directories are files or directories under accepted paths and the wanted files are distinct up to case and within the limits; then it returns the sorted list of exactly the wanted files of the whole tree, pruned directories included |
| `SnapshotTree.WriteExactly` | rust/crates/promptectomy-acquisition/src/snapshot.rs:445-466 | writing succeeds exactly on prefix-free lists and the tree then represents the list |
| `SnapshotTree.WriteSnapshotFiles` | rust/crates/promptectomy-acquisition/src/snapshot.rs:445-466 | the loop does that, file by file |
| `SnapshotTree.Rescan` | rust/crates/promptectomy-acquisition/src/snapshot.rs:544-549 | rescanning a written tree succeeds exactly within the verifier's limits and returns the same list |
| `Publish.VerifyExisting` | rust/crates/promptectomy-acquisition/src/snapshot.rs:489-549 | accepts exactly when receipt, manifest, attestation and tree digest all match and the list fits its limits |
| `Publish.CompleteVerifies` | rust/crates/promptectomy-acquisition/src/snapshot.rs:489-549 | a complete directory verifies exactly when its list fits those limits |
| `Publish.NextSound` | rust/crates/promptectomy-acquisition/src/snapshot.rs:285-383 | every step of every publisher, every fault and every crash keeps each directory under snapshots/ complete |
| `Publish.PublishedStays` | rust/crates/promptectomy-acquisition/src/snapshot.rs:285-383 | a published directory is never changed or removed |
| `Publish.AlwaysComplete` | rust/crates/promptectomy-acquisition/src/snapshot.rs:285-383 | over whole runs |
| `Publish.NothingLeftBehind` | rust/crates/promptectomy-acquisition/src/snapshot.rs:551-582 | over any run without a crash, every work directory belongs to a publisher that is still running |
| `Publish.RepublishExactly` | rust/crates/promptectomy-acquisition/src/snapshot.rs:315-330 | a publisher that finds its snapshot in place succeeds exactly when the stored list fits the verifier's limits |
| `Publish.ReceiptDetermines` | rust/crates/promptectomy-acquisition/src/snapshot.rs:285-330 | two materials with the same receipt are the same, unless the hash collides on them |
| `Publish.RepublishSucceeds` | rust/crates/promptectomy-acquisition/src/snapshot.rs:315-383 | without a hash collision and within those limits it always succeeds with the same reference |
| `PublishRuns.NeverFails` | rust/crates/promptectomy-acquisition/src/snapshot.rs:285-383 | racing with any number of publishers, one of prefix-free material within the limits that is not stopped from outside never fails |
| `PublishRuns.PublishesAlone` | rust/crates/promptectomy-acquisition/src/snapshot.rs:285-383 | left alone, a publisher of prefix-free material of any size publishes it completely |
| `PublishRuns.TooManyCannotBeRepublished` | rust/crates/promptectomy-acquisition/src/snapshot.rs:489-549 | reachable from the empty store: material of more than a million files, published once, on which a second publisher fails |
| `Publish.SnapshotStore.constructor` | rust/crates/promptectomy-acquisition/src/snapshot.rs:285-300 | no snapshots yet |
| `Publish.SnapshotStore.Publish` | rust/crates/promptectomy-acquisition/src/snapshot.rs:285-383 | one whole call: first publication exactly for prefix-free lists, repetition exactly within the limits, other snapshots untouched |
| `Bindings.LookupMonotone` | engine/promptectomy/discovery_javascript.py:228-240 | adding declared bindings never changes a lookup that has already succeeded |
| `Bindings.Confluent` | engine/promptectomy/discovery_javascript.py:242-279 | the least fixed point is unique, so every visiting order gives the same table |
| `BindingLoop.ResolveBindings` | engine/promptectomy/discovery_javascript.py:220-279 | the loop follows one of its visiting orders, ends in at most one pass more than there are declarators, binds nothing that the rules do not derive, and everything they derive if they derive no key twice; in a fixed point exactly then |
| `BindingLoop.OutcomeIsLeast` | engine/promptectomy/discovery_javascript.py:242-279 | if some table is closed, every visiting order ends in the least fixed point |
| `BindingLoop.FixedPointExactly` | engine/promptectomy/discovery_javascript.py:242-279 | an outcome is a fixed point if and only if no key can be derived to two bindings, and then all visiting orders give that outcome |
| `BindingLoop.OutcomeIsDerivable` | engine/promptectomy/discovery_javascript.py:242-279 | whatever the source and the order, every binding of the table can be derived |
| `BindingLoop.OutcomeIsDerived` | engine/promptectomy/discovery_javascript.py:242-279 | if no key can be derived to two bindings, every order binds exactly what can be derived |
| `BindingRules.LookupExactly` | engine/promptectomy/discovery_javascript.py:228-240 | a lookup finds the entry of the innermost scope that declares the name, or an import if none does |
| `BindingRules.BoundExactly` | engine/promptectomy/discovery_javascript.py:242-279 | the least fixed point binds a key to a binding exactly if a derivation ends in it: named or required constructor, module.OpenAI, alias, client.responses |
| `BindingRules.ConsistentExactly` | engine/promptectomy/discovery_javascript.py:242-279 | a table closed under resolution exists if and only if no key can be derived to two bindings |
| `Bindings.AgreeingIsConsistent` | engine/promptectomy/discovery_javascript.py:220-226 | if declarators of the same name in the same scope say the same, a closed table exists |
| `BindingOrder.OrderShows` | engine/promptectomy/discovery_javascript.py:242-279 | from every reached state in which the open declarators of a name all resolve, without reading the name itself if it is bound, and two differ, two visiting orders of the loop end in different tables |
| `BindingOrder.RebindingShows` | engine/promptectomy/discovery_javascript.py:220-279 | from every reached state in which a name bound by require can be rebound, and another, unbound name is constructed with it by its only open declarator, one visiting order binds that name and another does not |
| `BindingOrder.RequiredNameIsOrderDependent` | engine/promptectomy/discovery_javascript.py:220-279 | an instance: a required name redeclared after its use |
| `BindingOrder.RedeclarationIsOrderDependent` | engine/promptectomy/discovery_javascript.py:242-279 | two conflicting declarations of one name: two visiting orders of the loop, two results |
| `BindingOrder.ConflictCanHide` | engine/promptectomy/discovery_javascript.py:242-279 | a source without a closed table on which every visiting order nevertheless ends in the same table |
| `Follow.SplitAppend` | engine/promptectomy/server.py:49-50 | splitting can be resumed from the unfinished last line |
| `Follow.AsciiBlankExactly` | engine/promptectomy/server.py:61-63 | a line is skipped exactly if it holds nothing but the six whitespace bytes |
| `Follow.FollowLines` | engine/promptectomy/server.py:61-72 | one read's lines: blanks skipped, events numbered on, only those above after_id sent, stop after done |
| `Follow.MessagesExactly` | engine/promptectomy/server.py:66-68 | the client gets exactly the events after after_id, numbered by their position in the log |
| `Follow.FollowLog` | engine/promptectomy/server.py:29-75 | the loop sends the specified messages for every sequence of reads |
| `Follow.FollowsAll` | engine/promptectomy/server.py:29-75 | after every read of a good log the follower is caught up, or has emitted the unfinished last line early and holds just what came after it |
| `Follow.ChunkIndependent` | engine/promptectomy/server.py:29-75 | on a good log the events do not depend on how the bytes are split into reads |
| `BatchStream.Stream` | engine/promptectomy/events.py:51-56 | the batch loop over the lines that the text handle yields before it fails to decode a page, consumed up to the first done |
| `BatchStream.StreamByLines` | engine/promptectomy/events.py:51-56 | universal newlines are line feeds first and carriage returns within them second |
| `BatchStream.SurvivorIsLinewise` | engine/promptectomy/events.py:51-56 | a batch reader that does not raise has read what a reader decoding line by line would have, however the file is paged |
| `Utf8.ValidExactly` | engine/promptectomy/events.py:51-56 | the decoder of the text handle takes exactly the encodings of Unicode scalar values |
| `Utf8.UnfinishedExactly` | engine/promptectomy/events.py:51-56 | what it keeps back for the next page is exactly a proper beginning of an encoded scalar |
| `BatchStream.AgreesExactly` | engine/promptectomy/events.py:51-56 | when the batch reader reads a log without raising, reading it whole agrees exactly if every line reached is ASCII-blank or valid |
| `BatchStream.FollowerMatchesBatch` | engine/promptectomy/server.py:29-75 | then the follower sends, for every chunking, every paging and every after_id, what the batch reader yields up to the first done |
| `BatchStream.RecordedLogsAgree` | engine/promptectomy/events.py:45-56 | on a good log without carriage returns, as the recorder writes them, the two agree if and only if the file is UTF-8 or done comes before the page that is not |
| `BatchStream.LoneReturnSplitsReaders` | engine/promptectomy/server.py:49-66 | a log on which batch reader and follower, and two chunkings of the follower, differ |
| `BatchStream.BytesAfterDoneSplitReaders` | engine/promptectomy/events.py:51-56 | done followed by bytes that are not UTF-8: the follower sends done, the batch reader raises first unless its page ends before them |
| `RateWindows.RateWindow.constructor` | engine/promptectomy/api_v2.py:102-105 | a new window is empty |
| `RateWindows.RateWindow.Accept` | engine/promptectomy/api_v2.py:107-114 | drops the expired front, refuses exactly at the limit, otherwise appends |
| `RateWindows.QueueRefines` | engine/promptectomy/api_v2.py:102-114 | for nondecreasing times and a window of positive length the deque is exactly the accepted times inside the window and a request is refused exactly when the window already holds the limit |
| `RateWindows.LimiterBound` | engine/promptectomy/api_v2.py:102-114 | no window of that length, wherever it ends, ever holds more than the limit |
| `Import.ImportSpans` | engine/promptectomy/evidence_phase4.py:756-804 | every span is accepted, duplicate or rejected; observations are the first valid span of each identity, strictly sorted; the flag holds exactly when accepted starts are not in order; the errors exactly when they apply |
| `Import.NormalizeExactly` | engine/promptectomy/evidence_phase4.py:625-684 | a span is accepted exactly if both identifiers are non-empty strings, both times are 64-bit numbers in order and the attributes are accepted; the observation starts with it and lasts its whole microseconds |
| `Import.BoundedIntExactly` | engine/promptectomy/evidence_phase4.py:446-457 | a time is a number of 64 bits or its decimal text, zeros in front included, and nothing else |
| `Import.FreshExactly` | engine/promptectomy/evidence_phase4.py:756-779 | identities are kept exactly once, and it is the first span bearing them that is kept |
| `Import.SortedByStart` | engine/promptectomy/evidence_phase4.py:756-804 | the report is sorted by start, and by identity where starts are equal |
| `Import.ImportTwice` | engine/promptectomy/evidence_phase4.py:756-804 | importing the list twice over gives the same observations and flag; only the counters grow |
| `Import.IdentityExactly` | engine/promptectomy/evidence_phase4.py:663-664 | two spans share an identity exactly if they start together and their joined ids coincide |
| `Import.ConfusableExactly` | engine/promptectomy/evidence_phase4.py:185-187 | a span can be mistaken for another exactly if a NUL stands inside its ids where they could be cut instead |
| `Import.DistinctSpansDropped` | engine/promptectomy/evidence_phase4.py:756-779 | two different valid spans of which the second is dropped |

## Left out

- SQLite itself, its write-ahead log, file permissions, ownership and file-system type checks: transactions are taken as atomic and storage as private.
- JSON parsing and schemas, canonicalization, SHA-256, AES-GCM and protobuf: library behaviour behind abstract functions.
- The reconciliation that follows a crash of the whole system runs alone and as one step; one that is interrupted, or refused above 100000 entries, is an opening that faults beside processes that take no further step.
- Limits of the file system itself on the length of names and paths.
- File-system errors other than those named by the steps, and directory syncs; hardlink, inode and modification-time races in reading a file once.
- Local time-of-check races between `lstat` and `open` in file verification: verifying a file is one step.
- Non-UTF-8 file names, and which of several simultaneous errors a local scan reports first.
- 32-bit address spaces: sizes are bounded by 2^63 - 1.
- `Tar.ParseTar`: requires an input no longer than 2^63 - 1 bytes, which no slice can exceed.
- `Publish.RepublishSucceeds`: assumes that the two lists in question do not collide under the hash; an injective hash into 32 bytes does not exist.
- `RateWindows.QueueRefines`: does not model floating-point rounding; times are real numbers.
- Line numbers in the follower's error messages, and its restart when the file shrinks; logs are append-only here.
- Integer texts of more than 4300 digits and lone surrogates in span identifiers, on which Python itself raises; attribute mapping, correlation and provenance fields of a span.
- Call ordinals, gaps and call-site features in JavaScript discovery; parsing itself: scopes and declarators are given.
- Markdown rendering of reports, access control of the API, and the AES-protected artifact class.
- OCI executor, remote Git worker, brokers, proxies, daemon, command line, user interface and generated bindings: process and network plumbing.
- Privacy partitions, support matrix, splitting and pricing tables: they would only add easy members.
