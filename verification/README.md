# A verified model of the distributed file system

The repository is a small distributed file system: Storage Servers keep text files that are edited
sentence by sentence, a Name Server knows which server has which file, and every primary server may
have a backup. This project models the parts of it where state is changed step by step and must keep
agreeing with something simpler, and proves that it does, or says exactly when it does.

`dafny verify dfyconfig.toml` checks everything.

## What is modelled

**Sentence editing on the Storage Server.** `Sentences` defines the parser and the printer and proves
that they undo each other; `TextEngine` is their code, the scanning loop and the two passes over the
output buffer. `Locks` is the sentence lock array. `Editing` says what begin, edit, commit, abort and
UNDO do to a file, its sentence table and its undo copy; `EditingMethods` is the code of these
operations and of the connection handler. `EditingLaws` states when file and table agree,
`SessionLaws` what concurrent sessions can rely on, `WriterLaws` identity, commit order and UNDO,
`HandlerLaws` what the commands of one connection do to the file.

**Persisted text.** `AccessLists` and `AclText` are access control lists and their text,
`Metadata` and `MetadataLaws` the metadata file, over the C library's line splitting and number
formats in `TextLines` and the string conversions in `CTypes`.

**The Name Server's tables.** `NameIndex` is the chained hash table with the intrusive LRU list, proved
to stand for a map; `Lru` is that list as a value, `Paths` the cutting and building of paths.
`AclCache` is the ring cache of access lists against the Storage Server that owns them, `AclHistory`
what a run of access commands makes of the rights on a path.

**Replication and failure.** `Replication` is the protocol of client operations, notices, the job
queue and the worker's separate fetch and push, `JobList` the linked list behind that queue,
`Drain` where runs end up; `Heartbeat` the monitor in time; `Failover` the
pairing of servers and the failure callback over the index.

**The wire.** `Wire` is one message line, `Transfer` a file sent as escaped chunks.

Each algorithm that loops or changes state in place is a method proved against a function; the theorems
are about those functions and about all runs of the operations.

## Findings

These expected properties fail in the code. Each is stated with the condition that decides it.

- A fragment that does not end in a delimiter, committed into a sentence that is not the last, runs into
  its neighbour at the next parse (`EditingLaws.CommitReparses`, `EditingLaws.UnterminatedFragmentMerges`).
- A commit above 1024 sentences is refused after the file has been replaced (`EditingLaws.OverfullCommitBreaksAlignment`);
  `EditingLaws.CommitAlignment` is the exact condition for both.
- UNDO gives back sentence ids that were already handed out, exactly when the commit was accepted and had given out
  one: on an aligned file, when the table had room and the sentence was split (`WriterLaws.UndoRollsIdsBack`).
- UNDO, REVERT and a commit refused as over-full replace the primary's text and send no notice. Unless a copy is
  still to be fetched or the text is the same, the copies then end different however the system drains
  (`Drain.SilentChangeExact`; from a settled state `Drain.SilentChangeDiverges`, `Drain.SettledThenRestored`).
- A file in a folder that the replica lacks never gets there: a copy job opens the file without making its folder
  (src/ss/file_storage.c:236-250), which CREATE and CREATE_FOLDER make on one server only (src/ss/file_storage.c:105,
  src/nm/commands.c:1550). Every job of such a file fails and is dropped (`Drain.FolderExact`, `Drain.NoFolderNoCopy`).
- A job that fails in the worker, or that meets a full queue, is not tried again (`Drain.LostJobExact`, `Drain.RefusedJobExact`).
- REVERT leaves the old access list in the Name Server's cache (`AclCache.RevertIsTrueIff`, `AclCache.PathIsCoherent`,
  `AclCache.StaleRightsExample`).
- An access list whose text reaches 4096 bytes is dropped by the next save (`MetadataLaws.MetadataRoundTrip`, `AclText.SixtyOneDoNotFit`).
- MOVE onto a taken path leaves two entries with one key (`NameIndex.Index.Move`).
- A DELETE job queued behind the CREATE of the same name removes the new replica (`Drain.QueueDeleteExact`, `Drain.LateDeleteDiverges`).
- Failover looks at the first 1024 index entries only (`Failover.FailoverRepointsIff`).
- Pairing depends on the order of registration exactly when two of the servers clash (`Failover.PairingIgnoresOrderIff`,
  `Failover.TwoServersAgreeIff`): the empty name with _backup, x_backup of at most 56 characters, x not empty, with its own backup,
  or a name of 57 to 62 characters with its cut-off backup name.
- The LRU counter exceeds the list's length by the look-ups that hit (`Lru.CounterIsLengthPlusHits`), so the list
  stops growing that far below 100 (`Lru.ListStopsShort`).
- A line that is empty, or ends in a separator before its fourth, leaves field pointers of the parser unset
  (`Wire.ParseOutcome`); the model calls the result unspecified.

## Assumptions

- A handler is one atomic step. The code holds no file lock across a commit (src/ss/write_session.c:430-577) and
  resolves index to id before it locks (src/ss/write_session.c:278-297), so this is assumed, not shown. In
  `Replication` the handlers of CREATE and DELETE and the worker are split into their separate steps, with two
  merges: `QueueCreate` adds the file to the index and queues its job (src/nm/commands.c:888 and 910), and
  `CreateOnPrimary` tests the index, which the handler does earlier, together with the creation.
- `Replication.ReplicaConvergence` assumes of a run that files are created and written only in folders the replica has,
  that no job is refused for a full queue, that only jobs fail in the worker that are not needed, that a delete is queued
  only while its file is off the primary or a copy of it is still to be queued, and that UNDO, REVERT or a refused
  over-full commit comes only while a copy of the file is still to be fetched or leaves its text as it was. The `Exact`
  lemmas of `Drain` show of each kind of step when the copies end different, however the system drains.
- `Heartbeat` assumes monotone time and check passes exactly 5 s apart.
- `AclCache.PathIsCoherent` and `AclCache.CacheIsCoherent` assume that replies are not lost and that every list fits one message payload.
- `Failover` takes server names to be shorter than 64 characters, as the message's user name field cuts them.

## Model

| member | source | states |
|---|---|---|
| `Sentences.ParseIsWellFormed` | src/ss/sentence_parser.c:64-157 | for every text: words are non-empty and without whitespace, a delimiter is only the last character of a sentence's last word, every sentence but the last is terminated, or the result is the one empty sentence |
| `Sentences.ParseRenderIffWellFormed` | src/ss/sentence_parser.c:64-157 | parsing what the printer writes gives the collection back exactly when the collection is well formed |
| `Sentences.RenderParseIdempotent` | src/ss/write_session.c:161-205 | printing a parse normalises any text once; doing it again changes nothing |
| `Sentences.WhitespaceRunsAreEqual` | src/ss/sentence_parser.c:86-110 | two texts that differ only in which and how much whitespace separates two pieces parse alike |
| `Sentences.ParseConservesCharacters` | src/ss/sentence_parser.c:78-140 | the visible characters of the printed parse are those of the text in order, minus exactly the delimiters that come first or directly behind another delimiter |
| `Sentences.TerminatedIffDelimiterLast` | src/ss/sentence_parser.c:112-140 | for every text: the last parsed sentence is terminated exactly when something is kept and the last visible character is a delimiter |
| `TextEngine.ParseText` | src/ss/sentence_parser.c:64-157 | the scanning loop with its growing collection computes the parse, and numbers the sentences upwards from the given id |
| `TextEngine.SliceIsSentence` | src/ss/write_session.c:180-200 | the recorded offset and length of each sentence cut out exactly its words joined by single spaces |
| `TextEngine.SlicesAreDisjoint` | src/ss/write_session.c:180-200 | recorded slices are in order and do not overlap; two neighbouring sentences with text are exactly one space apart |
| `TextEngine.MeasureCollection` | src/ss/write_session.c:161-178 | the sizing pass gives the length of the printed text |
| `TextEngine.RenderCollection` | src/ss/write_session.c:161-205 | the two passes over a buffer of the measured size produce the printed text, with every offset and length recorded |
| `TextEngine.CountFileStats` | src/ss/file_storage.c:600-629 | the in-word-flag loop counts maximal runs of non-whitespace and all characters |
| `TextEngine.StatsOfWellFormed` | src/ss/file_storage.c:600-629 | on printed well-formed collections that count is the number of words of the collection |
| `TextEngine.CountIsRuns` | src/ss/file_storage.c:600-629 | for any text the count is the number of maximal runs between spaces, tabs, newlines and carriage returns |
| `Locks.AcquireKeepsTable` | src/ss/runtime_state.c:77-115 | a granted lock has a fresh session id and keeps sentence ids and session ids distinct and below the counter |
| `Locks.SwapOutRemovesOne` | src/ss/runtime_state.c:124-131 | swap-with-last removal drops exactly the one lock and keeps the table in order |
| `Locks.LockArray.Acquire` | src/ss/runtime_state.c:88-115 | refused for a non-positive or locked id or a full array with nothing changed; else the new lock and the session id it got |
| `Locks.LockArray.Release` | src/ss/runtime_state.c:117-135 | removes the first lock with both ids, by swapping in the last; reports whether one was removed |
| `Editing.TokensOfJoin` | src/ss/write_session.c:70-100 | splitting words joined by spaces gives the words back |
| `Editing.TokensKeepText` | src/ss/write_session.c:70-100 | for any text the tokens hold its visible characters, in order, and nothing else |
| `Editing.SpliceWellFormed` | src/ss/write_session.c:471-530 | replacing sentence k by parsed text leaves a well-formed collection exactly when that text has a letter or the file is one sentence, and it ends in a delimiter or is last |
| `Editing.MergeAligned` | src/ss/write_session.c:445-530 | on an aligned file a commit's merge replaces exactly the session's sentence |
| `Editing.ReplacedIds` | src/ss/write_session.c:471-483 | the merged list has distinct positive ids below the new counter |
| `EditingMethods.SplitContent` | src/ss/write_session.c:70-100 | the two scanning loops produce the tokens |
| `EditingMethods.AssignSentenceIds` | src/ss/write_session.c:123-137 | parsed sentences take id and version from the table row of the same position, later ones fresh ids |
| `EditingMethods.NameFragment` | src/ss/write_session.c:471-483 | the first sentence of a fragment keeps the edited id with version + 1, the others get new ids |
| `EditingMethods.RebuildRows` | src/ss/write_session.c:207-233 | one row a sentence with its slice and counts, and the counter above every id |
| `EditingMethods.WriteSession.ApplyEdit` | src/ss/write_session.c:344-369 | inserts the tokens at the word index; a bad index, an empty edit or a closed session changes nothing |
| `EditingMethods.StorageFile.EnsureSentences` | src/ss/file_storage.c:631-647 | a file without a table gets the one-row table |
| `EditingMethods.StorageFile.Begin` | src/ss/write_session.c:260-342 | table, locks and session after the call, granted or refused, are the specification's: the index becomes a row id, that id is locked, and the session copies that sentence |
| `EditingMethods.StorageFile.Commit` | src/ss/write_session.c:430-577 | file, table, undo copy and lock after WRITE_DONE are what the specification computes, on success and on every failure path |
| `EditingMethods.StorageFile.Store` | src/ss/write_session.c:376-428 | the text is replaced first; over 1024 sentences the table is not saved |
| `EditingMethods.StorageFile.Abort` | src/ss/write_session.c:579-588 | an aborted session gives back its lock and changes nothing else |
| `EditingMethods.StorageFile.RestoreUndo` | src/ss/main.c:891-947 | both undo copies are restored and used up, the access list in force stays; without a copy the call is refused |
| `EditingMethods.StorageFile.HandleWrite` | src/ss/main.c:701-889 | the session loop of one connection, behind the test of the write right, with edits until DONE, ABORT or a closed connection, leaves file and locks as specified, while the server keeps running |
| `EditingMethods.HandlerReleasesItsLock` | src/ss/main.c:746-889 | whatever a connection sends and however it ends, the live locks are those there were before, while the server keeps running |
| `HandlerLaws.BeginCopies` | src/ss/write_session.c:260-342 | a begin is granted exactly for a sentence of the file that no session holds, with room in the lock array; the session then holds that sentence's id and a copy of its words |
| `HandlerLaws.BeginThenDone` | src/ss/write_session.c:260-342 | WRITE_DONE straight after a granted begin is accepted and leaves the file byte for byte the same |
| `HandlerLaws.HandlerKeepsFile` | src/ss/main.c:701-889 | a connection whose commands have no WRITE_DONE before a WRITE_ABORT, whose user has no write right, or whose begin is refused leaves text and undo copy as they were |
| `HandlerLaws.HandlerWrites` | src/ss/main.c:746-889 | otherwise the file re-parses to the old sentences with this one replaced by its edited words exactly if those fit in there, the undo copy is the file before, and file and table are aligned exactly if moreover there is room |
| `HandlerLaws.OnlyWritersWrite` | src/ss/main.c:701-746 | a user who is neither the owner nor a writer by the history of grants changes neither disk nor locks |
| `HandlerLaws.CommitKeepsRecord` | src/ss/write_session.c:376-428 | a commit, accepted or not, keeps owner, folder, creation time, access list and pending requests |
| `HandlerLaws.NewFileContent` | src/ss/file_storage.c:631-647 | a created file is one empty sentence with id 1 and version 1 |
| `HandlerLaws.BadIdRepaired` | src/ss/write_session.c:278-297 | begin gives a row without a proper id an id no other row has, and changes no other row |
| `EditingLaws.RebuildAligned` | src/ss/write_session.c:207-233 | for a well-formed collection, row k of the rebuilt table describes parsed sentence k of the written text |
| `EditingLaws.CommitAccepted` | src/ss/write_session.c:376-428 | a commit of a locked sentence is accepted exactly when the table has room |
| `EditingLaws.CommitReparses` | src/ss/write_session.c:445-577 | re-parsing the written file gives the spliced collection exactly when the text has a letter (or is the only sentence) and ends in a delimiter (or is the last sentence) |
| `EditingLaws.CommitAlignment` | src/ss/write_session.c:430-577 | after a commit, accepted or refused, file and table are aligned exactly under the condition a caller can check beforehand |
| `EditingLaws.OverfullCommitBreaksAlignment` | src/ss/write_session.c:376-428 | whatever the text committed, above 1024 sentences the commit fails after the file was replaced, and the old table no longer describes it |
| `EditingLaws.UnterminatedFragmentMerges` | src/ss/write_session.c:471-544 | the concrete case: three sentences written, two read back |
| `EditingLaws.AlignmentOverRuns` | src/ss/write_session.c:260-588 | file and table, and the undo copy, stay aligned over every run of begin, edit, commit, abort, UNDO and access changes whose commits meet the condition |
| `EditingLaws.NewFileAligned` | src/ss/file_storage.c:87-161 | a created file starts aligned |
| `EditingLaws.TotalsMatchStatistics` | src/ss/write_session.c:555-560 | the stored totals equal the statistics loop's counts of the file |
| `EditingLaws.RowsAreSlices` | src/ss/write_session.c:215-231 | each row's slice of the file is its sentence; slices of different rows do not overlap |
| `SessionLaws.LocksOverRuns` | src/ss/runtime_state.c:77-135 | over every run, with UNDO, unterminated and over-full commits, locks and sessions match one to one |
| `SessionLaws.SessionsHoldDistinctSentences` | src/ss/runtime_state.c:88-115 | after every such run two active sessions never hold the same sentence |
| `SessionLaws.SessionIdsNeverReused` | src/ss/runtime_state.c:77-86 | over every such run a session id handed out before and not in use never returns |
| `SessionLaws.WorldOverRuns` | src/ss/write_session.c:260-588 | over every run without UNDO whose commits have room in the table and end properly, file and table stay aligned and every session's sentence is still in the file |
| `SessionLaws.UndoKeepsWorldIff` | src/ss/main.c:891-947 | UNDO keeps that state exactly when there is no undo copy or every session finds its sentence in it |
| `SessionLaws.LockedSentenceIsStable` | src/ss/write_session.c:471-544 | as long as the commits of other sessions have room and end properly and there is no UNDO, nothing they do moves, changes or re-numbers the sentence a session holds |
| `SessionLaws.ReplacedKeepsOthers` | src/ss/write_session.c:485-544 | sentences not edited keep id, version and words |
| `SessionLaws.ReplacedKeepsId` | src/ss/write_session.c:478-483 | the edited sentence keeps its id, with version + 1 |
| `SessionLaws.ReplacedFresh` | src/ss/write_session.c:478-483 | split-off sentences get ids never handed out before |
| `SessionLaws.NewFileWorld` | src/ss/file_storage.c:87-161 | a file just created, without locks or sessions, is where runs start |
| `WriterLaws.IdsOverRuns` | src/ss/write_session.c:123-137 | over every run, with UNDO and unsafe commits, the ids of table and undo copy stay positive, distinct and below the counter |
| `WriterLaws.IdentityOverRuns` | src/ss/write_session.c:207-233 | over every run without UNDO whose commits have room and end properly no id disappears, versions never go back, and ids that appear are new |
| `WriterLaws.CommitAllMerges` | src/ss/write_session.c:430-577 | concurrent sessions whose texts end properly and together have room can all commit in any order, and the file is then the order-free merge of their edits |
| `WriterLaws.CommitOrderDoesNotMatter` | src/ss/write_session.c:430-577 | two orders of the same commits write the same bytes |
| `WriterLaws.UndoInvertsCommit` | src/ss/file_storage.c:649-703 | UNDO after a commit and any access changes restores text, table, counter and pending requests, keeps the access list in force, and a second UNDO is refused |
| `WriterLaws.UndoRollsIdsBack` | src/ss/file_storage.c:678-703 | after any commit of a session, whatever its text and room, UNDO leaves the counter at or below an id of the table exactly when the commit was accepted and gave out an id, to a piece of a split sentence or to a sentence without a row; on an aligned file, when the table had room and the sentence was split |
| `TextLines.NumberOfItoa` | src/ss/file_storage.c:513-549 | printed integers are read back, whatever non-digit follows |
| `TextLines.NumberSkips` | src/ss/file_storage.c:342-475 | whitespace in front and a plus sign do not matter to what is read, and without a digit nothing is |
| `TextLines.LinesOfUnlines` | src/ss/file_storage.c:340-343 | strtok_r gives back the lines that were written, if none is empty |
| `Metadata.SaveFile` | src/ss/file_storage.c:485-549 | the printing statements in order write the specified text, at most 1024 rows and 64 requests |
| `Metadata.LoadFile` | src/ss/file_storage.c:305-482 | the line loop over the file, with its ACL section and the fallback list, computes Load for any text |
| `Metadata.MetaStruct.TakeLine` | src/ss/file_storage.c:342-475 | one line inside or outside the ACL section fills the struct as the specification says |
| `MetadataLaws.LoadSaved` | src/ss/file_storage.c:305-549 | what comes back of any record whose names the text can carry, lost parts included |
| `MetadataLaws.LoadedShape` | src/ss/file_storage.c:305-482 | any text at all loads to names a file can carry and counts within the arrays |
| `MetadataLaws.MetadataRoundTrip` | src/ss/file_storage.c:305-549 | load after save is the identity but for the folder exactly when counts fit, the id counter is above all ids, names are free of separators, everyone listed can read, a non-empty list fits 4096 bytes and an empty one belongs to the owner |
| `MetadataLaws.AlignedFilesSurvive` | src/ss/file_storage.c:305-549 | the records the editing engine keeps come back unchanged if their names and access list do |
| `AccessLists.AddGrants` | src/common/acl.c:32-94 | a grant gives the user exactly the right it names and nobody else any; it fails only on a full list without the user |
| `AccessLists.RemoveRevokes` | src/common/acl.c:97-118 | a removal takes all rights from the user and none from others; the owner cannot be removed |
| `AccessLists.AclOverRuns` | src/common/acl.c:32-156 | over every history the list shows exactly the rights of an independent set-based account, one entry a user, each with read access |
| `AccessLists.AclRecord.AddEntry` | src/common/acl.c:32-94 | the array after acl_add_read or acl_add_write is the specified list |
| `AccessLists.AclRecord.RemoveEntry` | src/common/acl.c:97-118 | the shift loop removes the entry and keeps the order of the others |
| `AccessLists.AclRecord.MayRead` | src/common/acl.c:121-137 | the search answers the read right of the list |
| `AccessLists.AclRecord.MayWrite` | src/common/acl.c:140-156 | the search answers the write right of the list |
| `AclText.AclTextRoundTrip` | src/common/acl.c:165-231 | reading a serialised list gives it back exactly when its names can be carried, it is not over-full and every entry can read |
| `AclText.WriteText` | src/common/acl.c:165-185 | the line-by-line writer gives up exactly when the whole text does not fit |
| `AclText.ReadText` | src/common/acl.c:188-231 | the strtok loop computes the list of any text |
| `AclText.SizesFit` | src/ss/file_storage.c:537-539 | up to 60 entries fit the 4096-byte buffer, up to 25 one message payload |
| `AclText.SixtyOneDoNotFit` | src/ss/file_storage.c:537-539 | 61 writers with the longest names are not serialised, so a save drops them |
| `AclCache.ReplyIsExact` | src/nm/commands.c:151-212 | serialising, newline escaping, the wire line, parsing and deserialising return the server's list, for lists within one payload |
| `AclCache.FetchIsTrue` | src/nm/commands.c:141-214 | in a coherent state a fetch answers with the server's list and keeps the cache coherent |
| `AclCache.PathIsCoherent` | src/nm/commands.c:96-214 | over every run, with REVERT: what the cache has of a path equals the server's list unless a REVERT of that path changed it |
| `AclCache.CacheIsCoherent` | src/nm/commands.c:96-214 | over every run of CREATE, DELETE, checks, ADDACCESS, REMACCESS, approvals and CHECKPOINT: at most one valid slot a path, and every valid slot equals the server's list |
| `AclCache.StoredStays` | src/nm/commands.c:110-138 | a list stored for a new path is found until 256 more are stored or the path is dropped, whatever other paths are stored and dropped |
| `AclHistory.RightsOverRuns` | src/nm/commands.c:2117-2119 | over every run of commands up to the first REVERT of the path that parts cache and server, the server's list shows exactly the rights of a set-based account of the path: only the owner grants and removes, an approval R or W grants just that, any other nothing, and commands on other paths do not matter |
| `AclHistory.ChecksAreRight` | src/nm/commands.c:141-214 | after every run in which no REVERT of the path parted cache and server, the read check lets in exactly the owner and the readers of that account |
| `AclCache.RevertIsTrueIff` | src/nm/commands.c:2442-2505 | REVERT leaves the cache coherent exactly when it is refused or restores the list in force |
| `AclCache.RevertLeavesStaleRights` | src/nm/commands.c:2442-2505 | a user the restored list denies but the old one allowed is still let in by the cache |
| `AclCache.StaleRightsExample` | src/nm/commands.c:2442-2505 | a run of four commands that reaches such a state |
| `AclCache.AclRing.Get` | src/nm/commands.c:96-108 | the list in the first valid slot of the path, if any |
| `AclCache.AclRing.Store` | src/nm/commands.c:110-127 | overwrites the path's slot, else the next slot of the ring |
| `AclCache.AclRing.Drop` | src/nm/commands.c:129-138 | clears every valid slot of the path and no other |
| `Lru.CacheOverRuns` | src/nm/index.c:65-112 | over every run of look-ups and removals the list has no duplicates and at most 100 files, and its head is the file looked up last unless it was removed |
| `Lru.OrderIsRecency` | src/nm/index.c:65-112 | over every such run the list is in the order of the last look-ups, newest first |
| `Lru.EvictsLeastRecent` | src/nm/index.c:96-113 | a look-up throws out a file exactly if the counter is at 100 and its own file is new, and then the one looked up before all that stay |
| `Lru.RepeatLookupsInflateSize` | src/nm/index.c:93 | n look-ups of one file leave a list of one with a counter of n |
| `Lru.CounterIsLengthPlusHits` | src/nm/index.c:65-112 | over every run the counter exceeds the length by exactly the look-ups that found their file in the list |
| `Lru.FullCounterStopsGrowth` | src/nm/index.c:300-308 | once the counter is at 100, look-ups leave the length of a non-empty list as it is |
| `Lru.ListStopsShort` | src/nm/index.c:300-308 | a list whose counter has come to 100 stays at 100 less the look-ups that hit before |
| `NameIndex.LruList.AddToFront` | src/nm/index.c:65-94 | the pointer code moves the node to the front of a well-formed doubly linked list and counts one more |
| `NameIndex.LruList.RemoveTail` | src/nm/index.c:98-112 | the last node is unlinked and its links cleared |
| `NameIndex.LruList.Forget` | src/nm/index.c:233-250 | the LRU part of a removal takes the node out if it is linked |
| `NameIndex.LruList.Use` | src/nm/index.c:300-308 | the LRU part of a look-up: evict if the counter says so, then move to the front |
| `NameIndex.FileTable.Find` | src/nm/index.c:293-312 | finds an entry with both parts of the key, or shows none has it |
| `NameIndex.FileTable.Insert` | src/nm/index.c:185-191 | the new entry heads its bucket; every entry stays in the bucket of its base name |
| `NameIndex.FileTable.Remove` | src/nm/index.c:217-233 | splices the entry with the key out of its chain, or shows none has it |
| `NameIndex.Index.Lookup` | src/nm/index.c:267-317 | answers as the map does, and touches the LRU list as the value model says |
| `NameIndex.Index.Add` | src/nm/index.c:116-195 | the map gains the key or gets the server's new address; count stays the cardinality, and the keys are those of Paths.After |
| `NameIndex.Index.Remove` | src/nm/index.c:198-264 | the map loses the key and the LRU list the entry; the result tells whether it was there, and the keys are those of Paths.After |
| `NameIndex.Index.Move` | src/nm/index.c:537-560 | with a free destination key the map is re-keyed as Paths.After says and everything stays valid; with a taken one no map describes the index any more |
| `NameIndex.GetAllFiles` | src/nm/index.c:320-338 | the first `max` entries in bucket order |
| `NameIndex.ListedOnce` | src/nm/index.c:320-338 | that listing has every entry of the index exactly once |
| `Paths.FullPathRoundTrip` | src/nm/commands.c:81-94 | the path built for a key leads back to it exactly for keys in order |
| `Paths.NormalizeIsOk` | src/nm/index.c:389-398 | a normalised folder is the folder with its missing slash, as far as the buffer holds it, and in order unless that cuts it inside a name |
| `Paths.SplitOfPath` | src/nm/index.c:116-195 | a path is cut behind its last slash; without one, or with a folder of 512 characters or more, the file is in the root |
| `Paths.BuiltPathsLeadBack` | src/nm/index.c:537-560 | over every run whose moves go to folders the buffer holds, every file is found under its built path; the contracts of Index.Add, Index.Remove and Index.Move say that the keys of the index follow these runs |
| `Replication.StepKeepsInv` | src/nm/replication_worker.c:385-433 | every step keeps the invariant that meets the conditions named under Assumptions: a folder on the replica, no full queue, no late delete, no silent change without a copy to come, no failure of a needed job |
| `Replication.DifferentImpliesPending` | src/nm/replication_worker.c:75-237 | a touched file whose copies differ has an undelivered notice, a queued job or the job in progress |
| `Replication.ReplicaConvergence` | src/nm/replication_worker.c:57-433 | so it is after every run of such steps from pairing on, in every interleaving |
| `Replication.FolderOfKey` | src/ss/file_storage.c:236-250 | the folder a copy needs is the folder of the file's key in the index |
| `Drain.DrainsToEqual` | src/nm/replication_worker.c:385-433 | from every such state whose deletes still to be queued may be queued now, the system can drain within the conditions, and then all touched files are equal |
| `Drain.DrainsIff` | src/nm/replication_worker.c:385-433 | that condition on the deletes is exact: without it the system cannot drain within the conditions |
| `Drain.GuaranteeDecides` | src/nm/replication_worker.c:385-433 | a file whose guarantee is broken ends with different copies however the system drains; one whose guarantee holds ends with equal ones in every drain whose steps about it meet the conditions; there always is a drain |
| `Drain.PrimaryIsGiven` | src/ss/main.c:701-947 | over every run the primary holds of each file what clients last made of it |
| `Drain.ReplicaIsGiven` | src/nm/replication_worker.c:57-433 | after every run that meets the conditions and has nothing left to do, the replica holds of each file that clients changed what they last made of it |
| `Drain.QueueDeleteExact` | src/nm/commands.c:1003-1018 | after a delete queued apart from its index removal the copies end equal in every drain that meets the conditions for the file if the file is not back or a copy is still to come, and otherwise different however the system drains |
| `Drain.LateDeleteDiverges` | src/nm/commands.c:1003-1018 | the interleaving with a CREATE in between that loses the replica's copy |
| `Drain.SilentChangeExact` | src/ss/main.c:891-947 | likewise after a change of the primary that sends no notice (UNDO, REVERT, a refused over-full commit): equal if a copy is still to be fetched or the text is the same, otherwise different |
| `Drain.LostJobExact` | src/nm/replication_worker.c:413-427 | likewise after a job that fails in the worker: equal if a later job settles the file or the replica is as it should be, otherwise different |
| `Drain.FolderExact` | src/ss/file_storage.c:236-250 | likewise after a file is created or written: equal if the replica has its folder, otherwise different |
| `Drain.NoFolderNoCopy` | src/ss/file_storage.c:236-250 | a file whose folder the replica lacks gets there in no run of any steps that does not give the replica the folder |
| `Drain.SilentChangeDiverges` | src/ss/main.c:834-855 | in a settled system such a change leaves the copies different with nothing pending |
| `Drain.SettledThenRestored` | src/ss/main.c:1119-1195 | every touched file on the primary, in a state that can drain, can come to that: drain, then restore another text |
| `Drain.RefusedJobExact` | src/nm/replication_worker.c:484-490 | after a create, write or delete job refused by a full queue the copies end equal in every drain that meets the conditions for the file if something else settles it, and otherwise different however the system drains |
| `Drain.RefusedJobIsLost` | src/nm/replication_worker.c:484-490 | such a refusal leaves the copies different at once, with nothing pending, exactly when they differ and no other step speaks for the file |
| `JobList.JobQueue.Queue` | src/nm/replication_worker.c:473-520 | the linked list gains the job at its tail, or refuses above the limit |
| `JobList.JobQueue.Take` | src/nm/replication_worker.c:389-412 | the head is unlinked and returned |
| `Heartbeat.FailedIffSilent` | src/nm/heartbeat_monitor.c:117-187 | over every timed run a server is FAILED exactly when the last check came more than 25 s after its last heartbeat |
| `Heartbeat.BeatingServerNeverFails` | src/nm/heartbeat_monitor.c:117-187 | heartbeats never more than 25 s apart (so also 15 s) keep a server alive at every moment |
| `Heartbeat.SilentServerDetected` | src/nm/heartbeat_monitor.c:117-187 | a silent server is marked at the third overdue check, more than 25 s and at most 30 s after its last heartbeat |
| `Heartbeat.OneCallPerFailure` | src/nm/heartbeat_monitor.c:138-170 | the callback runs once for each change from ALIVE to FAILED |
| `Heartbeat.FiredExactly` | src/nm/heartbeat_monitor.c:138-170 | a pass calls the callback once for each server it turns from ALIVE to FAILED, and for no other |
| `Heartbeat.MonitorRuns` | src/nm/heartbeat_monitor.c:84-187 | over every run of heartbeats and passes over many servers, each server's record and the number of its callbacks are those of its own heartbeats and the passes since it was first heard |
| `Heartbeat.Monitor.Hear` | src/nm/heartbeat_monitor.c:84-114 | a heartbeat revives and resets the server, or registers it |
| `Heartbeat.Monitor.CheckPass` | src/nm/heartbeat_monitor.c:117-187 | one pass checks every server once and reports those it fails |
| `Failover.PairingIgnoresOrder` | src/nm/main.c:191-206 | for every sequence of registrations of names that do not clash: the primaries are the servers whose backup's name has registered, each in one pair, whatever the order |
| `Failover.PairingIgnoresOrderIff` | src/nm/main.c:191-206 | all histories with the same servers end with the same pairs exactly when no two of the servers clash |
| `Failover.ClashNeedsOrder` | src/nm/replication.c:51-109 | of two servers that clash, one is a primary in one order of registration and never in the other, whoever registers later |
| `Failover.TwoServersAgreeIff` | src/nm/replication.c:51-109 | two servers end with the same pairs in both orders exactly when neither clashes with the other |
| `Failover.BackupOfBackupNeedsOrder` | src/nm/replication.c:51-109 | a clash: x_backup and x_backup_backup |
| `Failover.LongNameNeedsOrder` | src/nm/replication.c:64-79 | a clash: a name from 57 to 62 characters and its cut-off backup name; the 63-character name is paired with itself |
| `Failover.EmptyNameNeedsOrder` | src/nm/replication.c:51-109 | a clash: the empty name and _backup |
| `Failover.FailoverRepointsIff` | src/nm/main.c:34-83 | a primary's failure repoints exactly its files exactly when none lies beyond the first 1024 entries |
| `Failover.ReplicaIsNoPrimary` | src/nm/replication.c:175-202 | a registered backup of a named server is no primary, so its failure is one of the next row |
| `Failover.ReplicaFailureMovesNothing` | src/nm/main.c:34-83 | the failure of a server that is no primary moves no file and marks the pair it is the replica of |
| `Failover.PrimaryFailureMarks` | src/nm/replication.c:175-202 | a primary's failure marks its one pair and no other |
| `Failover.OnFailure` | src/nm/main.c:34-83 | the callback over the real index: entries change as specified, map and LRU list do not |
| `Failover.PairTable.OnRegister` | src/nm/main.c:191-206 | the registration step adds at most the pair the specification names |
| `Wire.ParseScan` | src/common/protocol.c:17-58 | the separator loop computes the parse of any line, including the lines it rejects and those that leave fields unset |
| `Wire.ParseOutcome` | src/common/protocol.c:17-45 | of the stripped line: it parses exactly with four bars or more, and with fewer it leaves fields unset exactly when it is empty or ends in a bar |
| `Wire.FormatNeverRefused` | src/common/protocol.c:60-67 | every message with fields in bounds formats to at most 1968 bytes |
| `Wire.MessageRoundTrip` | src/common/protocol.c:17-67 | a message in bounds comes back from its line exactly when no header field contains a bar |
| `Wire.LongFieldsAreCut` | src/common/protocol.c:17-58 | a field too long for its buffer is cut off, the others are not touched, and a newline or a carriage return may end the line |
| `Transfer.SendContent` | src/ss/main.c:1764-1791 | the nested loops send the content in DATA lines of at most 1791 characters and a STOP line |
| `Transfer.ReceiveContent` | src/ss/main.c:1847-1890 | the receiving loop computes what any byte stream yields, where a line that leaves fields unset counts as skipped |
| `Transfer.ReceivesPayloads` | src/ss/main.c:1847-1890 | of any messages the receiver keeps the decoded DATA payloads up to STOP, and nothing of the others |
| `Transfer.TransferRoundTrip` | src/nm/replication_worker.c:126-205 | content arrives unchanged, bars and carriage returns included, exactly when it has no NUL and no SOH |

## Left out

- Input and output failures, memory exhaustion and partial file writes: a rename is atomic and file operations succeed, but for the write into a folder the replica lacks and the jobs that fail in the replication worker.
- Overflow of C integers: ids, versions, counters and parsed numbers are unbounded, except where a size_t or the 64-bit hash wraps.
- Text behind a NUL character: a file's text is what the C string functions see of it.
- Clocks: times are parameters, and lock_time is not modelled.
- Thread races inside one handler, and the lifetime of an index entry after the index lock is released.
- sentence_lock_release_all and sentence_lock_cleanup: nothing calls them.
- The list of per-file lock tables: one file is modelled; two spellings of a name with and without a leading slash are two files to the lock manager.
- SessionLaws.WorldOverRuns: excludes commits without room or a proper ending, which misalign the file (`EditingLaws.CommitAlignment`), and UNDO, which can take sentences away from under a session (`SessionLaws.UndoKeepsWorldIff`); `SessionLaws.LocksOverRuns` has no such condition.
- SessionLaws.LockedSentenceIsStable: excludes the same commits and UNDO, which replace the text under the other sessions.
- WriterLaws.IdentityOverRuns: excludes the same commits and UNDO, which rolls the id counter back (`WriterLaws.UndoRollsIdsBack`); `WriterLaws.IdsOverRuns` has no such condition.
- REVERT of a file's text: its effect on sentence table and sessions is not modelled, only its effect on the replica and on the access list.
- Replication.ReplicaConvergence: covers file content, not the copying of metadata, SYNC_ALL or recovery after a failure.
- AclCache.PathIsCoherent: does not cover MOVE, whose destination path is not checked against other files.
- AclHistory.RightsOverRuns: the request queue is not modelled, so an approval is taken to come from the owner the queue recorded (src/nm/commands.c:2067).
- EditingMethods.StorageFile.HandleWrite: the replies to the client and the WRITE_COMPLETE notice are not part of its state, nor is the loop's end because the server is stopping (src/ss/main.c:777).
- EditingMethods.HandlerReleasesItsLock: the loop that ends because the server is stopping returns without releasing its lock, and is not modelled.
- Transfer.ReceiveContent: what the code makes of a line that leaves fields unset cannot be said; the model skips it.
- Failover.PairTable.OnRegister: leaves out the re-synchronisation of a recovered server and the parsing of the registration payload.
- Heartbeat.Monitor.CheckPass: the list does not change while a callback runs.
- MOVE end to end, recovery after failover and checkpoints beyond their access lists: their two servers disagree on folder names, or repoint files before any copy is made.
- Partial transfers: the receiver treats a closed connection like STOP, which `Transfer.ReceiveContent` shows but no law excludes.
- The folder index, listing, INFO and VIEW layout, access-request display, registry sorting, the client, logging and EXEC: layout, input and output, or operating system behaviour.
- sentence_render_text: nothing calls it; commits use render_collection.
