# Ankiced: a verified model

Ankiced is a local maintenance tool for Anki collections. It cleans the HTML in the fields of
notes, in parallel, and writes the results back in transactional batches after a backup. An
HTTP server around it keeps a history of operations, a log that clients poll or stream, and
a database connection that can be replaced while requests are running.

This project states what those parts promise and proves it for every input, every
interleaving and every history.

| file | what it models |
|---|---|
| `Common.dfy` | option, result, filtering a sequence |
| `Fields.dfy` | the 0x1f-separated field codec and the labelling of fields |
| `Notes.dfy` | the note table, reading, updating, previewing and transforming one note |
| `Pipeline.dfy`, `PipelineRuns.dfy` | the concurrent stage of `RunCleaner` as a transition system, and what holds of all its runs |
| `CleanRun.dfy` | the sequential end of `RunCleaner` (backup, batches, report), and dry run against apply |
| `Operations.dfy`, `OperationRecords.dfy`, `OperationStore.dfy` | the operation history as a sequence, what its records show, and the map with its doubly linked list that refines it |
| `LogHub.dfy`, `LogReaders.dfy`, `LogStream.dfy` | the log hub, the polling reader and the streaming reader |
| `Text.dfy`, `Html.dfy`, `HtmlReader.dfy` | the HTML printer, the tree filter it amounts to, and a reader that inverts it |
| `Like.dfy`, `NoteQuery.dfy` | LIKE escaping against SQLite's LIKE, and listing and counting notes |
| `BackupStore.dfy`, `BackupRuns.dfy` | the backup store call by call, and backup before write over all interleavings |
| `Cleanup.dfy` | which backups a cleanup removes |
| `Connection.dfy`, `ConnectionRuns.dfy` | replacing the database connection call by call, and overlapping configuration saves |

A concurrent part is a transition system: a state, a set of actions each with its guard, and
a run as any sequence of enabled actions. Worker counts, numbers of notes, clients and
calls are unbounded. Code that changes an object in place is a class whose methods are
proved against functions of the old state; the lemmas are about those functions. What the
surroundings decide (the clock, I/O errors, which select case fires) is a parameter or an
action.

## Where the code does less than its description

These are results of the model, each with its exact condition or its counterexample run.

- An update checks only the number of values, so a value that holds the separator is accepted
  and the note cannot be read afterwards (`UpdateThenRead`, `AcceptedUpdateCanBreakTheNote`,
  `AppliedNoteReadable`).
- Cancelling the parent context while no worker is busy leaves the error channel empty, and
  the run ends as if it had finished (`ParentCancelCanGoUnnoticed`, `IncompleteWithoutErrorIff`,
  `CompleteOrCancelled`).
- The history is described as keeping what clients poll for, but an operation that finishes
  while the store is over capacity is evicted by that very call (exactly then, by
  `FinishedIsKeptIffWithinCapacity`; it happens at every capacity, by `OverCapacityHappens`).
- Log ids are taken outside the hub's lock; an event published after one with a larger id is
  never delivered to a polling client that saw the larger one
  (`OutOfOrderPublicationIsMissed`; the exact condition is in `DeliveredExactlyWhen`).
- A backup is described as preceding every write, but its path is captured before a possible
  replacement of the connection (`ReconnectCanSkipTheBackup`; the exact condition is in
  `BackupBeforeWrite`).
- Overlapping configuration saves can leave the configuration naming a database other than the
  connected one (`OverlapCanNameTheWrongDatabase`; the exact condition is in `QuiescentPaths`).
- Cleaning up the backups of one database also counts and removes those of a database whose
  name continues its own with a dot (`WhoseBackupsMatch`, `OtherDatabaseCrowdsOut`).
- A search text with a NUL finds too much (`NulTextFindsTooMuch`; `ExactTexts`: exactly those
  texts fail). A field with a NUL is searched only up to it (`TextBehindNulIsMissed`), which
  goes wrong exactly when some stretch behind a NUL does not occur before the first
  (`ExactFields`); trailing NULs do no harm.
- The cleaner writes what it made of the values it read, so an update of the same note
  committed in between is overwritten unless it stored the same text
  (`OtherUpdateKeptIffSame`).
- The cleanup that follows a backup runs before the first write and can delete the very copy
  (`EnsureBackup` in `BackupStore.dfy` says exactly when).

## Model

| member | source | states |
|---|---|---|
| Fields.JoinSplit | internal/application/services.go:122-123 | joining the parts of any raw string gives the raw string back |
| Fields.SplitJoin | internal/application/services.go:122-153 | a joined list splits into itself, and even into the right number of parts, exactly when it is non-empty and no value holds the separator |
| Fields.JoinMeaning | internal/application/services.go:153 | the values with the character U+001F between each two, and which lists are storable |
| Fields.SplitStorable | internal/application/services.go:122 | splitting never yields a value that holds the separator, so what was read can be written back |
| Fields.LabelledMeaning | internal/domain/policies.go:40-57 | labelling succeeds exactly on a matching count, and names and values can be read back unchanged and in order |
| Fields.MapFields | internal/domain/policies.go:40-49 | the loop labels value i with name i, or reports the count error |
| Fields.JoinFieldValues | internal/domain/policies.go:51-57 | the loop collects the values in field order |
| Notes.CleanedValuesAt | internal/application/services.go:254-267 | cleaning a note succeeds exactly when the template accepts every value, and then each position holds the template's result for that position |
| Notes.ReadMeaning | internal/application/services.go:113-129 | each failure of reading with its cause, and otherwise the model's names on the raw parts |
| Notes.CleanNoteMeaning | internal/application/services.go:247-272 | cleaning fails as reading does or when the template rejects some value; otherwise every field gets the template's value and every changed one its record, in field order, and nothing is yielded when nothing changes |
| Notes.DiffsMeaning | internal/application/services.go:168-181 | the records are exactly one for each changed field, in field order, with the note, the name, the old and the new value |
| Notes.DiffsEmpty | internal/application/services.go:268-271 | there is no record exactly when no value changes |
| Notes.UpdateThenRead | internal/application/services.go:113-156 | after an accepted update reading returns the same values in order if they are storable, and fails with the field count error otherwise |
| Notes.AcceptedUpdateCanBreakTheNote | internal/application/services.go:144-153 | an update that passes all checks after which the note cannot be read |
| Notes.Collection.GetNote | internal/application/services.go:113-129 | returns the labelled fields, or the missing note, missing model or field count error |
| Notes.Collection.EnsureBackup | internal/application/services.go:42-54 | in one session at most one copy completes, of the table as it is at that moment; a failing close is an error of the call although the copy completed |
| Notes.Collection.UpdateNote | internal/application/services.go:135-157 | which error has which cause and wins over which; on success the one row keeps id, guid and model and gets the joined values, the given time and the mark for syncing, and on failure nothing changes; the copy is taken before the write and only after all checks |
| Notes.Collection.PreviewCleaner | internal/application/services.go:159-184 | the field loop yields exactly the records cleaning that note would report, or the first error |
| Notes.Collection.TransformNote | internal/application/services.go:247-272 | the worker's field loop with its three accumulators yields the cleaned note, empty when nothing changed |
| Pipeline.NextControl | internal/application/services.go:216-323 | every step keeps the control invariant: a worker leaves only when jobs is closed or the run is cancelled, cancelled means the parent did it or an error was offered, and results closes only after all workers exited |
| Pipeline.NextPlaces | internal/application/services.go:247-311 | no step but handing out a note changes in how many places a note is |
| Pipeline.NextConserved | internal/application/services.go:247-311 | every note handed out is in exactly one place after every step |
| Pipeline.NextAccounted | internal/application/services.go:297-323 | the consumer's counters, records and write list are those of a fold over what it received |
| Pipeline.ReachableInv | internal/application/services.go:216-323 | all invariants hold in every reachable state |
| PipelineRuns.DeadlockFree | internal/application/services.go:216-311 | a reachable state is stuck exactly when the consumer has finished, and until then the program can move without outside help, whatever failed |
| PipelineRuns.StepLowersMeasure | internal/application/services.go:216-311 | every step lowers an explicit measure |
| PipelineRuns.EveryRunIsShort | internal/application/services.go:216-311 | no run has more than 4n + 2w + 7 steps for n notes and w workers |
| PipelineRuns.NoSendOnClosedChannel | internal/application/services.go:268-294 | results is open while any worker can send, jobs is open while the feeder can hand out, and results never exceeds its capacity |
| PipelineRuns.Sizes | internal/application/services.go:211-223 | the workers are as many as asked for, at least one, and a worker can send exactly while fewer than four results per worker wait |
| PipelineRuns.ResultsInOrder | internal/application/services.go:223-308 | results is first in, first out and neither loses nor invents one |
| PipelineRuns.NothingLostOrDuplicated | internal/application/services.go:288-311 | at every step unfed + held + queued + consumed + lost = total, each note in one place, and processed = changed + skipped |
| PipelineRuns.FailFast | internal/application/services.go:230-321 | when the consumer is done the run fails exactly when some note failed or panicked or the feeder panicked, and the error is the one reported first, however many follow |
| PipelineRuns.CompleteOrCancelled | internal/application/services.go:288-323 | a run that ends without error processed exactly the notes handed out, which are all unless the parent context was cancelled |
| PipelineRuns.BadNoteSurfaces | internal/application/services.go:247-260 | a note that cannot be processed makes the run fail unless the parent was cancelled |
| PipelineRuns.FaultFreeRunsFinish | internal/application/services.go:216-323 | when every note can be processed, any run without panic, outside cancellation or spurious failure can be continued by the program to an error-free end, and is stuck only there |
| PipelineRuns.CleanFinishExistsIff | internal/application/services.go:216-323 | exactly the decks whose notes can all be processed have an error-free, uncancelled end |
| PipelineRuns.ParentCancelCanGoUnnoticed | internal/application/services.go:288-323 | for every non-empty deck and every number of workers a run that ends without error and with nothing processed |
| PipelineRuns.IncompleteWithoutErrorIff | internal/application/services.go:288-323 | exactly the non-empty decks have runs that end without error and incomplete, and only with the parent context cancelled |
| PipelineRuns.RefinesPlainLoop | internal/application/services.go:216-311 | without failure and parent cancellation every interleaving gives the plain loop's summary, a permutation of its write list, and the diff blocks in that order |
| PipelineRuns.RecordsAreBlocks | internal/application/services.go:300-311 | the records are the diff blocks of the write list, one after the other |
| PipelineRuns.WriteListIsSound | internal/application/services.go:300-311 | everything handed to the writer is a changed note's true result, and no note appears twice |
| PipelineRuns.WriteListInOrder | internal/application/services.go:300-311 | the write list is what was received, in that order, without the unchanged notes |
| CleanRun.WriteBatch | internal/application/services.go:340-352 | a batch changes the table entirely or not at all |
| CleanRun.WriteBatches | internal/application/services.go:334-352 | the batch loop does what the recursive writer does, batch by batch |
| CleanRun.AppliedKeepsIdentity | internal/infrastructure/sqlite/repositories.go:295-309 | updates add and remove no row and never change id, guid or mid |
| CleanRun.BatchAtomicity | internal/application/services.go:334-352 | the writer stops at the first failing batch, at position 1000k, with exactly the first 1000k updates applied, and otherwise applies all; it fails exactly when some batch does |
| CleanRun.FinishRun | internal/application/services.go:312-362 | a failed or dry run makes no backup and no write; an applying run backs up the unchanged table first; which of the errors wins; a report only on success |
| CleanRun.WriteListByNote | internal/application/services.go:300-311 | the write list holds a note exactly when its preview is non-empty, with what cleaning gives |
| CleanRun.RecordsArePreviews | internal/application/services.go:159-184 | in every interleaving the records of a note are exactly what the preview shows for it |
| CleanRun.ApplySucceeds | internal/application/services.go:328-353 | without storage faults the writer accepts everything the pipeline produced |
| CleanRun.DryRunPredictsApply | internal/application/services.go:186-363 | for any dry run and any applying run on one table with no other writer until the last batch: a row without a record stays untouched, and a row with records gets exactly the values they announce, the time of its update and the mark for syncing, and nothing else changes |
| CleanRun.AppliedNoteReadable | internal/application/services.go:122-153 | an applied note can be read again exactly when every value stored for it is free of the separator |
| CleanRun.BatchOverOthers | internal/application/services.go:247-352 | with other callers updating notes at any time between the reads and the batch: the batch commits, leaves every other row alone, and stores in its rows what cleaning made of the table each note was read from |
| CleanRun.OtherUpdateKeptIffSame | internal/application/services.go:135-157 | an update committed between the read of a note and the batch that writes it survives exactly when it stored the text the cleaner stores |
| CleanRun.SecondRunChangesNothing | internal/application/services.go:186-363 | with an idempotent template and storable results a second run reports nothing changed and writes nothing |
| Operations.Find | internal/interfaces/httpapi/operations.go:71-79 | the position of the first operation with an id, or the length |
| Operations.OldestFinished | internal/interfaces/httpapi/operations.go:161-168 | the position of the first operation that is not running, or the length |
| Operations.EvictMeaning | internal/interfaces/httpapi/operations.go:143-159 | eviction removes exactly the first min(excess, finished) finished operations, keeps the rest in order and every running one, and ends within capacity or with everything running |
| Operations.UnboundedKeepsAll | internal/interfaces/httpapi/operations.go:147-149 | a capacity of zero or less evicts nothing |
| Operations.CallKeepsBound | internal/interfaces/httpapi/operations.go:52-159 | every call keeps the bound and evicts at most one operation |
| Operations.FinishingOverCapacityEvictsItself | internal/interfaces/httpapi/operations.go:81-129 | an operation that finishes while the store is over capacity is the one evicted, and the rest keeps its order |
| Operations.FinishedIsKeptIffWithinCapacity | internal/interfaces/httpapi/operations.go:81-159 | an operation can still be read after it finishes exactly when the store was within capacity |
| Operations.OverCapacityHappens | internal/interfaces/httpapi/operations.go:52-159 | for every positive capacity a history that exceeds it, after which whichever operation finishes first is gone at once |
| Operations.CallRunningIds | internal/interfaces/httpapi/operations.go:52-144 | how each call changes the set of running operations |
| Operations.EveryHistory | internal/interfaces/httpapi/operations.go:37-168 | over every history of calls ids stay unique, the bound holds, and exactly the operations created and not finished since are shown running |
| OperationRecords.ShownMeaning | internal/interfaces/httpapi/operations.go:71-79 | the record shown for an id is the one in the history with that id |
| OperationRecords.AfterCreate | internal/interfaces/httpapi/operations.go:52-69 | a created operation is shown running, with its kind and time and otherwise blank, whatever the capacity |
| OperationRecords.RecreatedIsNewest | internal/interfaces/httpapi/operations.go:60-64 | creating an id again puts it last and evicts nothing |
| OperationRecords.AfterSucceed | internal/interfaces/httpapi/operations.go:81-104 | status, output, summary and time as given, the progress from the summary with the total kept, the rest unchanged |
| OperationRecords.AfterFail | internal/interfaces/httpapi/operations.go:106-129 | status, message and time as given, the stage failed and one more error, the rest unchanged |
| OperationRecords.AfterReport | internal/interfaces/httpapi/operations.go:131-141 | the given progress and nothing else, at any size |
| OperationRecords.UnknownChangesNothing | internal/interfaces/httpapi/operations.go:71-141 | finishing, reporting on or reading an unknown operation changes nothing |
| OperationRecords.OthersKept | internal/interfaces/httpapi/operations.go:52-159 | a call leaves every other record as it is or evicts it, and then it was finished; it makes none appear |
| OperationRecords.OthersUnchanged | internal/interfaces/httpapi/operations.go:52-159 | while there is room no other record changes |
| OperationRecords.StatusIsTheLastCalls | internal/interfaces/httpapi/operations.go:37-168 | over every history a shown operation is running, succeeded or failed exactly as the last create, succeed or fail for its id says |
| OperationStore.Store.FindEvictable | internal/interfaces/httpapi/operations.go:161-168 | walking the list finds the oldest finished element, or none exactly when all run |
| OperationStore.Store.EvictExcess | internal/interfaces/httpapi/operations.go:146-159 | list and map together do what eviction on the sequence does |
| OperationStore.Store.MoveToBack | internal/interfaces/httpapi/operations.go:60-64 | relinking moves one element to the end and leaves the others in order |
| OperationStore.Store.Create | internal/interfaces/httpapi/operations.go:52-69 | refines the create call: replace and move to the back, or append and evict |
| OperationStore.Store.Get | internal/interfaces/httpapi/operations.go:71-79 | returns the operation with the id, if there is one |
| OperationStore.Store.Succeed | internal/interfaces/httpapi/operations.go:81-104 | refines the succeed call and its eviction; an unknown id changes nothing |
| OperationStore.Store.Fail | internal/interfaces/httpapi/operations.go:106-129 | refines the fail call and its eviction; an unknown id changes nothing |
| OperationStore.Store.ReportProgress | internal/interfaces/httpapi/operations.go:131-141 | refines the progress call, which evicts nothing |
| LogHub.LastAppend | internal/interfaces/httpapi/logs.go:77-80 | trimming after each append is keeping the last elements of everything |
| LogHub.Hub.Subscribe | internal/interfaces/httpapi/logs.go:57-64 | registers a fresh empty channel under an unused id and leaves the others alone |
| LogHub.Hub.Cancel | internal/interfaces/httpapi/logs.go:64-71 | removes and closes the channel on the first call, and does nothing on later ones |
| LogHub.Hub.Publish | internal/interfaces/httpapi/logs.go:74-87 | the buffer keeps the last 1000, and every subscriber's queue takes the event or, when full, stays as it is |
| LogHub.Hub.Since | internal/interfaces/httpapi/logs.go:89-102 | the buffered events with a larger id, in buffer order |
| LogReaders.BufferIsLastWindow | internal/interfaces/httpapi/logs.go:74-80 | after any publications the buffer is the last min(1000, n) events in order |
| LogReaders.NewerTimes | internal/interfaces/httpapi/logs.go:96-100 | the answer lists each newer event of the window once and nothing else |
| LogReaders.SinceByPosition | internal/interfaces/httpapi/logs.go:89-102 | the answer on the window, in terms of everything ever published |
| LogReaders.MissedEventsExplained | internal/interfaces/httpapi/logs.go:25-36 | for any ids and timing, an event published before the last poll was delivered once or never will be, and its verdict (delivered, outside the window, or id not above one delivered earlier) holds of the first poll after its publication |
| LogReaders.DeliveredExactlyWhen | internal/interfaces/httpapi/server.go:715-727 | for any ids and timing, the client has an event, and has it once, exactly when at the first poll after its publication it was in the window with a positive id above all ids from earlier polls |
| LogReaders.PollingIsExactlyOnce | internal/interfaces/httpapi/server.go:715-727 | when ids follow publication order and at most 1000 events come between polls, each poll brings the client level with everything published, each event once and in order |
| LogReaders.OutOfOrderPublicationIsMissed | internal/interfaces/httpapi/logs.go:25-36 | a run in which the event with the smaller id is published second and never delivered |
| LogStream.NextInv | internal/interfaces/httpapi/server.go:658-701 | every publish, subscribe, replay, receive and cancel keeps every stream's invariant |
| LogStream.ChannelsAreSafe | internal/interfaces/httpapi/logs.go:57-87 | no publish reaches a closed channel, each channel closes at most once, queues stay within 64, and accepted events are read in publication order, after the replay of a client that asked for one |
| LogStream.HandOffHasNoGap | internal/interfaces/httpapi/server.go:658-701 | an event newer than since is enqueued, replayed or both unless the window lost it or the queue refused it, which happens exactly when 64 accepted events were unread; it comes at most twice, and twice only when published between subscribing and replaying |
| LogStream.RefusedExactlyWhenFull | internal/interfaces/httpapi/logs.go:81-86 | in every interleaving an event is refused for good exactly when the stream is registered and its queue full at the moment of publication, and accepted once exactly when it is not full |
| LogStream.ReplayIsSince | internal/interfaces/httpapi/server.go:670-677 | what the stream replays is the hub's own answer |
| LogStream.SubscribeStarts | internal/interfaces/httpapi/server.go:658-677 | a new stream is registered, empty, covers what is published from now on, and can replay exactly when its client names a positive id |
| Html.EscapedIsInert | internal/infrastructure/sanitize/html_cleaner.go:95-99 | escaped text holds no character that delimits a tag or an attribute value |
| Text.SpaceTable | internal/infrastructure/sanitize/html_cleaner.go:134-135 | the characters trimming removes, by code point |
| Text.TrimSpaceMeaning | internal/infrastructure/sanitize/html_cleaner.go:134-135 | trimming takes away the spaces at both ends and nothing else |
| Text.LowerTable | internal/infrastructure/sanitize/html_cleaner.go:134-135 | which characters lower to an ASCII letter, and to which |
| Html.EscapeTable | internal/infrastructure/sanitize/html_cleaner.go:95-99 | six characters become their entities and every other one stays |
| Html.SchemeDecides | internal/infrastructure/sanitize/html_cleaner.go:158-171 | a value that starts with a scheme is safe exactly when the scheme is vetted, in any case |
| Html.SafeIsMediaName | internal/infrastructure/sanitize/html_cleaner.go:158-171 | an image source is accepted exactly when it has no colon, or a colon first, or a path, query or fragment sign before the first colon, or an http, https or data scheme up to case |
| Html.ImagePrints | internal/infrastructure/sanitize/html_cleaner.go:131-153 | what an image prints for an attribute, in literals: one of five names with a value that is not blank, and src only for an accepted source |
| Html.KeptAttrsMeaning | internal/infrastructure/sanitize/html_cleaner.go:131-153 | an image keeps exactly its attributes with a vetted name, a value that is not blank and, for src, a safe one: position by position in the same order, the name normalised and the value untouched |
| Html.KeptAttrsStable | internal/infrastructure/sanitize/html_cleaner.go:131-153 | attributes that were kept are kept again unchanged |
| Html.WriteNode | internal/infrastructure/sanitize/html_cleaner.go:93-129 | the recursive writer appends exactly the printed node to the builder |
| Html.WriteImage | internal/infrastructure/sanitize/html_cleaner.go:131-153 | the attribute loop appends the tag with the kept attributes in order |
| Html.WritePlainText | internal/infrastructure/sanitize/strip.go:27-34 | appends the node's text in document order |
| Html.SanitiseIsIdempotent | internal/infrastructure/sanitize/html_cleaner.go:93-153 | the tree filter lands in the clean forests and leaves exactly those alone |
| Html.PrintFactorsThroughSanitise | internal/infrastructure/sanitize/html_cleaner.go:81-153 | printing any forest is printing its filtered form |
| Html.CleaningPreservesText | internal/infrastructure/sanitize/html_cleaner.go:93-153 | deleting every tag span from the output leaves exactly the escaped plain text of the input |
| Html.LessPerForest | internal/infrastructure/sanitize/html_cleaner.go:93-153 | the output holds one opening bracket for each tag the writer emitted and no other |
| HtmlReader.UnescapeEscape | internal/infrastructure/sanitize/html_cleaner.go:95-99 | escaping loses nothing |
| HtmlReader.ReadPrintAttrs | internal/infrastructure/sanitize/html_cleaner.go:146-150 | the reader recovers every attribute list from its printed form |
| HtmlReader.ReadPrint | internal/infrastructure/sanitize/html_cleaner.go:93-153 | the reader recovers every sanitised forest from its printed form |
| HtmlReader.PrinterIsUnambiguous | internal/infrastructure/sanitize/html_cleaner.go:93-153 | two forests print the same exactly when they sanitise to the same forest |
| HtmlReader.OutputIsAllowed | internal/infrastructure/sanitize/html_cleaner.go:12-153 | the output for any input reads as allowed elements only, without attributes except good ones of images |
| HtmlReader.ElementsSurvive | internal/infrastructure/sanitize/html_cleaner.go:12-129 | exactly the elements of eight tags survive, each as often as it occurs in the input |
| Like.LikeOnAnyInput | internal/infrastructure/sqlite/repositories.go:21-37 | what the search finds for every search text and field, NUL characters included |
| Like.LikeIsSubstringSearch | internal/infrastructure/sqlite/repositories.go:21-37 | without NUL the bound pattern matches exactly the texts that contain the search text up to ASCII case, wildcards and escapes included |
| Like.ContainsMeaning | internal/infrastructure/sqlite/repositories.go:159-160 | containment character by character, up to the case of ASCII letters |
| Like.PercentMeaning | internal/infrastructure/sqlite/repositories.go:21-37 | a percent sign in the pattern matches any stretch, which is why the search text is escaped |
| Like.ExactTexts | internal/infrastructure/sqlite/repositories.go:21-37 | on NUL-free fields the search is containment exactly for the NUL-free search texts |
| Like.NulTextFindsTooMuch | internal/infrastructure/sqlite/repositories.go:27-37 | every search text with a NUL finds a field that does not contain it |
| Like.ExactFields | internal/infrastructure/sqlite/repositories.go:159-192 | a field is searched correctly for every NUL-free text exactly when each stretch between its NULs occurs in the first one |
| Like.TextBehindNulIsMissed | internal/infrastructure/sqlite/repositories.go:159-192 | a field with text behind a NUL in which a text it contains is not found |
| NoteQuery.BuildNotesQuery | internal/infrastructure/sqlite/repositories.go:156-194 | conditions and arguments grow step by step to the query of the filter, or the filter is rejected |
| NoteQuery.QueryMeansFilter | internal/infrastructure/sqlite/repositories.go:156-194 | the query with its positional arguments holds of a row exactly when the filter does, and is refused exactly for an invalid filter |
| NoteQuery.ValidFilterMeaning | internal/infrastructure/sqlite/repositories.go:157-174 | a filter is valid exactly with a deck, or with none and a search text that is not all spaces |
| NoteQuery.WantedMeaning | internal/infrastructure/sqlite/repositories.go:156-194 | the condition on a note: the bounds that are set, inclusive, the contained text, and a card in the deck |
| NoteQuery.MatchingNotesMeaning | internal/infrastructure/sqlite/repositories.go:148-151 | the distinct ordered rows are the wanted notes of the table, in strictly ascending id |
| NoteQuery.CountIsMatching | internal/infrastructure/sqlite/repositories.go:243-252 | counting the distinct rows of the join gives the number of matching notes |
| NoteQuery.PagesCover | internal/infrastructure/sqlite/repositories.go:220-222 | pages laid end to end are the rows from the first page's offset on |
| NoteQuery.PageMeaning | internal/infrastructure/sqlite/repositories.go:220-222 | row by row what a page holds, with a negative offset and an offset behind the end |
| NoteQuery.WithIdMeaning | internal/infrastructure/sqlite/repositories.go:203-213 | the lookup finds a note with the id, and nothing exactly when there is none |
| NoteQuery.PagingAgreesWithCounting | internal/infrastructure/sqlite/repositories.go:148-253 | for every valid filter and positive limit the pages concatenate to the wanted notes, each once however many cards join, ascending, and the count is their number |
| NoteQuery.TextConditionIsContainment | internal/infrastructure/sqlite/repositories.go:159-192 | the text condition is plain containment up to ASCII case |
| NoteQuery.NoteRepo.ListNotes | internal/infrastructure/sqlite/repositories.go:196-223 | for a note id the note that has it, or nothing exactly when none does; otherwise the filter error, or the page of matching notes with the default limit |
| NoteQuery.NoteRepo.CountNotes | internal/infrastructure/sqlite/repositories.go:229-253 | for a note id one exactly when some note has it and else zero; otherwise the filter error or the number of matching notes |
| NoteQuery.DeckNotesAreDistinct | internal/infrastructure/sqlite/repositories.go:311-333 | the cleaner's note list is strictly ascending and holds exactly the notes with a card in the deck |
| BackupStore.Store.LockFor | internal/infrastructure/fs/backup_store.go:32-44 | a path has one lock object for good, different from every other path's |
| BackupStore.Store.CreateBackup | internal/infrastructure/fs/backup_store.go:46-85 | nothing for a path already copied; each failure with what it leaves on disk; a complete copy marks the path even when the close fails; the database file itself never changes |
| BackupStore.Store.EnsureBackup | internal/application/services.go:42-66 | the copy followed by the cleanup: the database and the content of the remaining files do not change, only oldest matches go, and the copy just made is gone only if at least the keep count of other matches sort after it, exactly then when the cleanup completes |
| BackupRuns.NextKeepsLocks | internal/infrastructure/fs/backup_store.go:32-53 | every step keeps the two-level locking: one object per path, held exactly by the recorded call, and past the lock only when the path is done |
| BackupRuns.OneCopyPerPath | internal/infrastructure/fs/backup_store.go:46-85 | in every interleaving at most one copy per path completes, and a call passes only when its path was copied |
| BackupRuns.BackupBeforeWrite | internal/application/services.go:328-353 | each write to a database follows a complete copy of its initial content exactly when the calls that captured another path write it only after a copy |
| BackupRuns.ProtectedMeaning | internal/application/services.go:147-156 | the same position by position: before each write a copy with the given content has completed |
| BackupRuns.SessionIsBackedUp | internal/application/services.go:42-54 | on one database without a replaced connection, before every write a complete copy of the state before the session's first write has been made |
| BackupRuns.DatabasesHoldTheirWrites | internal/application/services.go:328-353 | in every interleaving a database holds what was last written to it; copying and replacing the connection change none |
| BackupRuns.OnlySamePathWaits | internal/infrastructure/fs/backup_store.go:18-21 | a call waiting for its path's lock is held up only by a call for the same path, which can itself go on |
| BackupRuns.NoDeadlock | internal/infrastructure/fs/backup_store.go:32-85 | while some call is not over, some call can go on |
| BackupRuns.FailedBackupEndsTheCall | internal/application/services.go:46-49 | a call whose backup fails, even in closing a complete copy, holds no lock, makes no further move and writes nothing |
| BackupRuns.ReconnectCanSkipTheBackup | internal/interfaces/httpapi/server.go:567-592 | a run in which a replaced connection lets a database be written that was never copied |
| Cleanup.JoinKeepsOrder | internal/infrastructure/fs/backup_store.go:99-105 | sorting the joined paths is sorting the names |
| Cleanup.JoinMeaning | internal/infrastructure/fs/backup_store.go:99-102 | a slash separates the directory from the name |
| Cleanup.BeforeMeaning | internal/infrastructure/fs/backup_store.go:105 | the smaller of two names is a proper beginning of the other or smaller where they first differ |
| Cleanup.CountedNames | internal/infrastructure/fs/backup_store.go:98-101 | the counted names are those that begin with the database's name and a dot and end in .bak |
| Cleanup.SortedMeaning | internal/infrastructure/fs/backup_store.go:105 | the sorted list is strictly ascending and has the same elements |
| Cleanup.Folder.ReadDir | internal/infrastructure/fs/backup_store.go:93-96 | every name of the folder once, in any order, or a failure |
| Cleanup.Folder.CleanupBackups | internal/infrastructure/fs/backup_store.go:87-115 | removes only files that begin with the database's name and a dot and end in .bak, exactly the smallest of them beyond the keep count, three when none is set; a failure midway has removed only smaller ones and leaves at least the keep count |
| Cleanup.SurvivesIffFewGreater | internal/infrastructure/fs/backup_store.go:105-113 | after a complete cleanup a backup is there exactly when fewer than the keep count of matches are greater |
| Cleanup.GoneOnlyIfCrowded | internal/infrastructure/fs/backup_store.go:105-113 | after any cleanup, even one that failed midway, a backup is gone only if at least the keep count of matches are greater |
| Cleanup.StampOrder | internal/infrastructure/fs/backup_store.go:64 | the order of the time stamps as text is the order of the times |
| Cleanup.StampLayout | internal/infrastructure/fs/backup_store.go:64 | year, month and day can be read back from their columns, then an underscore and the clock |
| Cleanup.ClockLayout | internal/infrastructure/fs/backup_store.go:64 | hour, minute and second can be read back from their columns |
| Cleanup.BackupNameOrder | internal/infrastructure/fs/backup_store.go:64-65 | backups of one database sort chronologically and match its cleanup |
| Cleanup.BackupNameInjective | internal/infrastructure/fs/backup_store.go:64-65 | two copies share a file name exactly when they are of the same database and second |
| Cleanup.BackupIsSibling | internal/infrastructure/fs/backup_store.go:65-102 | the copy is created in the folder and under the base name the cleanup looks at |
| Cleanup.NewestSurvives | internal/infrastructure/fs/backup_store.go:87-115 | among backups of one database one newer than all others is never removed |
| Cleanup.FreshCopySurvivesIff | internal/application/services.go:46-52 | the copy just made is there after a complete cleanup exactly when fewer than the keep count of the older matches sort after it |
| Cleanup.WhoseBackupsMatch | internal/infrastructure/fs/backup_store.go:98-101 | exactly which databases' backups a cleanup counts as its own |
| Cleanup.OtherDatabaseCrowdsOut | internal/infrastructure/fs/backup_store.go:98-113 | enough backups of a database named base, dot, letter make the cleanup remove a backup of base however new |
| Connection.DB.Conn | internal/infrastructure/sqlite/db.go:26-30 | the current handle, which answered its ping and is not closed |
| Connection.DB.Reconnect | internal/infrastructure/sqlite/db.go:144-173 | which error is returned, that a failure keeps the old handle, that success installs a fresh pinged one, and that every other handle ever opened has been closed exactly once |
| ConnectionRuns.NextKeepsLock | internal/infrastructure/sqlite/db.go:144-146 | reconnectMu is held exactly by the call inside Reconnect |
| ConnectionRuns.NextKeepsHandles | internal/infrastructure/sqlite/db.go:149-172 | every step keeps each handle but the current one and the one in hand closed exactly once |
| ConnectionRuns.HandlesAreConserved | internal/infrastructure/sqlite/db.go:26-173 | in every interleaving the current handle is pinged and open, none is closed twice, and outside Reconnect exactly the current one is open |
| ConnectionRuns.QuiescentPaths | internal/interfaces/httpapi/server.go:231-250 | at a quiescent point the same requests have replaced the handle and written the path, and the configuration names the connected database exactly when the last to do the one and the last to do the other asked for the same database |
| ConnectionRuns.PathNamesHandle | internal/interfaces/httpapi/server.go:112-250 | when saves do not overlap the configured path names the current handle's database at every quiescent point |
| ConnectionRuns.SamePathChangesNothing | internal/interfaces/httpapi/server.go:231-249 | saves without a path or with the configured one never open, replace or close a handle, in any interleaving |
| ConnectionRuns.OverlapCanNameTheWrongDatabase | internal/interfaces/httpapi/server.go:231-250 | a run of two overlapping saves after which it does not |

## Left out

- The SQLite engine, its driver, SQL text and WAL files: tables are values, a transaction commits or rolls back as a whole, and a file is an opaque list of pages. Content still in a WAL file when the main file is copied is outside the model.
- The HTML parser: the printer's input is the node forest, and void elements are taken to be childless where text preservation says so.
- HTTP routing, JSON, the byte framing of server-sent events, pings, the web page, command line menus, and skipping an event that cannot be marshalled.
- Time, apart from the order of backup names: times are parameters, and years of backups have four digits.
- Panics in the caller's progress callback, which unwind the consumer.
- Cancellation of the parent context after the concurrent stage: it appears as a failing update, transaction or report.
- Services built without a backup store or without a report writer, and the confirmation prompt in front of an applying run.
- Configuration loading, pragma and DSN handling, error messages, diff rendering and clipping, deck listing and the rules for deck names: short or easy. Renaming a deck appears as one of the calls that back up and then write.
- Legacy lookups of note models: a model is found or not.
- SQLite's limit on the length of a LIKE pattern, invalid UTF-8, and Unicode case folding beyond the ASCII letters the allow lists compare against.
- DB.Close at shutdown, and requests that still use a handle obtained before it was replaced.
- Files that change in the backup folder while a cleanup runs, and two path strings that name one file.
- A second copy within the same second after a failed one, which truncates the same file: the model counts completed copies, not files.
- Collection.EnsureBackup: knows which copies completed, not which files exist; the cleanup that follows a copy, and can delete it, is run by `Store.EnsureBackup` in `BackupStore.dfy`.
- CreateBackup: treats the copy as one step; the page by page copy among other calls is in `BackupRuns.dfy`.
- CleanupBackups: sorts names where the code sorts joined paths; `JoinKeepsOrder` shows this is the same order.
- WriteBatch: takes one time per item as a parameter where the code asks the clock at each update.
- Publish: takes the event with its id, because ids are assigned before the hub's lock is taken; the order of ids against publications is arbitrary in `LogReaders.dfy` and `LogStream.dfy`.
