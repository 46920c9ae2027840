# A verified model of the MoodengSQL storage core

MoodengSQL is a small transactional SQL engine written in Rust.  This project models its storage core
in Dafny and proves what the core is for:

* **The write-ahead log.**  Frames of LSN, body length, CRC-32 and payload; a reader that stops at the
  first torn or damaged frame; batched syncs.  `Checksum`, `WalFormat`, `Wal`.
* **Recovery.**  The two-pass replay (group by transaction, keep the committed ones, sort by LSN, apply)
  and the theorem it exists for: after a crash at any byte of the log the database holds exactly what the
  last durable COMMIT left.  `Replaying`, `Recovery`, `LogInvariant`, `CrashAtomicity`, `Reopening`,
  `InterruptedCheckpoint`, `HalfTransaction`, `OpenDatabase`, `LogProtocol`.
* **Transactions and undo.**  Reverse undo restores every row value and every index.  `Engine`, `Rollback`,
  `RollbackWithDdl`, `UniqueIndexAfterDelete`, `Transactions`.
* **Indexes and plans.**  Incrementally kept indexes are the indexes a rebuild would build; for which
  equalities an index plan returns what the full scan returns.  `Index`, `TableIndexes`, `Agreement`,
  `IndexManagement`, `Expressions`, `Planner`, `PlanSafety`, `Doubles`.
* **Statements.**  INSERT, INSERT with ON CONFLICT, UPDATE and DELETE as runs of row steps, and what each does
  to the table, cell by cell: exactly when it succeeds, which rows it leaves and what it counts; what the
  operators in their expressions mean; what CREATE TABLE, PRIMARY KEY and CREATE INDEX promise.  `Statements`,
  `InsertEffects`, `Assignments`, `StatementEffects`, `StatementSuccess`, `Upsert`, `UpsertEffects`,
  `ExpressionLaws`, `SchemaEffects`, `PrimaryKeys`, `Executors`.
* **Paged tables.**  A write-through LRU cache over fixed slots in a byte array, refining a plain table, and
  the equivalence of the two table backends.  `Lru`, `PageFile`, `PageCodecs`, `PageTables`, `Backend`,
  `Storage`, `BackendEquivalence`.
* **Concurrent protocols.**  Live backup, row versions and interleaved log writers, as steps of any number
  of sessions.  `Backup`, `BackupContents`, `Versions`, `LogProtocol`.
* **Parameter substitution.**  For which texts replacing `$n` down to `$1` is substituting all at once.
  `Decimals`, `Params`, `ParamsExact`.

`Types`, `Bytes`, `Sorting`, `Scans`, `Catalog`, `Tables` and `MemoryStorage` hold what these share.

## How the pieces fit

`Engine.Db` is the state of a serial engine on values: catalog, tables, indexes, log, session.  `Engine.Step`
moves it by one event (BEGIN, a row insert, update or delete, COMMIT, ROLLBACK, CREATE TABLE, CREATE INDEX)
and `Engine.Run` by a sequence of events that all returned Ok.  The theorems about rollback, index agreement
and crash recovery are about all such runs.  In the crash theorem the durable point of a run is its last
COMMIT whose record survived: runs are serial and a rolled-back transaction leaves nothing behind
(`Rollback.RollbackRestores`), so the values stored there are the work of exactly the transactions whose Commit
record survived.

The classes do what the Rust objects do, in place: `Wal.WriteAheadLog`, `Lru.LruCache`, `PageTables.PageTable`,
`Backend.TableData`, `MemoryStorage.StorageEngine`, `Storage.TableStore`, `IndexManagement.IndexManager`,
`Transactions.Transaction`, `Executors.Executor`.  `Executor.View` is the `Engine.Db` an executor stands for; each
of its methods succeeds exactly when the corresponding engine step or statement does and then moves the view
exactly as that step, so every theorem about runs is a theorem about the executor.  `Executors.FileHoldsLog`
closes the gap to the bytes: until the first checkpoint the log file is the encoding of the view's log.

Loops over a Rust hash map pick keys in an arbitrary order, and the contracts hold for every order.

The serializers are parameters.  What the theorems ask of them can be met: `WalFormat.EveryLogEncodable` gives a
payload serializer for any log, `PageCodecs.CodecInverts` a page serializer for any list of rows.

## Where the code does not do what one might expect

Each of these comes with the input or run that shows it, its exact condition, or both.

* Building an index inside a transaction: `UniqueIndexAfterDelete.RollbackFails` is a run whose ROLLBACK
  fails; `Agreement.RollbackExact` says when, and `RollbackWithDdl.RollbackRestoresWithDdl` that only a unique
  index can bring it about.  Likewise a crash can leave rows that break an index created after the last
  durable COMMIT: `UniqueIndexAfterDelete.OpeningFails` is a run after which the database does not open,
  `Reopening.ReopenExact` says when, and `Reopening.ReopenSucceeds` that it opens without such an index.
* After a truncation LSNs start again at 1 while the stored checkpoint LSN stays: `Wal.RestartedLsnSkips` says
  exactly which records a reader skips.
* A checkpoint writes the table files before it syncs the log, and it can fire inside a transaction.  After a
  crash in it a transaction can come back by half (`HalfTransaction.HalfComesBack`), or without ever having
  been committed (`HalfTransaction.UncommittedComesBack`).  `InterruptedCheckpoint.LostTailExact` says exactly
  when every mixture of table files gives the last durable COMMIT or the last COMMIT of the run.
  `Reopening.CheckpointSafe` is about a log that survives whole between transactions.
* A page file that was created but never written to reopens with next id 0: `PageTables.CreateAndReopen`;
  `PageTables.Reopen` says when the id survives.
* A 64-bit float literal compares with an epsilon but is looked up by its bits, and a quoted identifier with a
  dot can read one column while its index is on another.  `Planner.PlanExact` says on which tables the index
  plan keeps the rows, `PlanSafety.PlanSafeExact` for which equalities it does on all tables: of the float
  literals exactly those above 1 in size (`PlanSafety.FloatPlanExact`).  The difference of two floats is taken
  exactly here; the code's rounding can only make fewer of them equal, and not the neighbours that
  `Doubles.Neighbour` gives.
* Column names may repeat.  A column declared PRIMARY KEY behind an earlier namesake that is not does not
  count: `PrimaryKeys.HiddenKeyFails`; `PrimaryKeys.PrimaryKeyExact` says that nothing else breaks a primary key.
* Rolling back a DELETE can bring an old version back: `Versions.RolledBackDeleteReusesVersions` is such a run
  and `Versions.PutBackExact` the exact condition.
* `$1$12` turns into `$11` on the way: `ParamsExact.PlaceholdersRunTogether`; `ParamsExact.SubstitutionExact`
  says for which texts the order of the replacements matters.
* `TableBackend::update` on a missing id stores the row in memory mode and refuses in paged mode:
  `Backend.TableBackend.Update`; the engine never asks it to.

## Model

| member | source | states |
|---|---|---|
| Checksum.Crc32 | moodeng-core/src/wal.rs:90-117 | the table-driven checksum of any byte string is the bit-at-a-time CRC-32 of section 8 of RFC 1952 |
| Checksum.BuildTable | moodeng-core/src/wal.rs:90-117 | every table entry is eight shift steps of its index |
| Checksum.BurstDetected | moodeng-core/src/wal.rs:381-383 | two payloads of equal length that differ only inside four consecutive bytes have different checksums |
| WalFormat.ReplayFromBytes | moodeng-core/src/wal.rs:349-396 | the cursor loop terminates on all bytes and returns what reading frame after frame returns |
| WalFormat.ReadWholeFrame | moodeng-core/src/wal.rs:336-396 | an encoded frame, whatever follows it, reads back as its entry and length |
| WalFormat.ReadTornFrame | moodeng-core/src/wal.rs:349-396 | a frame cut anywhere is not read |
| WalFormat.CompleteFramesMaximal | moodeng-core/src/wal.rs:349-396 | the number of complete frames in k bytes is the largest n whose first n frames fit |
| WalFormat.TornTail | moodeng-core/src/wal.rs:349-396 | cutting the log at any byte leaves exactly the entries above the LSN whose frames are complete |
| WalFormat.StreamRoundTrip | moodeng-core/src/wal.rs:336-396 | reading the concatenated frames returns exactly the entries above the LSN |
| WalFormat.ReplayConcat | moodeng-core/src/wal.rs:349-396 | valid frames are read first, whatever bytes follow them |
| WalFormat.JunkKeepsPrefix | moodeng-core/src/wal.rs:349-396 | appending any junk keeps the valid entries as a prefix of the result |
| WalFormat.DamagedPayload | moodeng-core/src/wal.rs:381-383 | damage inside four consecutive payload bytes of frame i yields exactly the entries before i |
| WalFormat.EveryLogEncodable | moodeng-core/src/wal.rs:336-347 | every log of less than 2^32 records with 64-bit LSNs meets, with some serializer, what the theorems ask of a log |
| Wal.MaxLsnOfStream | moodeng-core/src/wal.rs:162-189 | hopping over headers finds the largest LSN of a valid log |
| Wal.WriteAheadLog.Open | moodeng-core/src/wal.rs:120-160 | an opened log continues at the largest LSN and hands out transaction ids from 1 |
| Wal.WriteAheadLog.ReadMaxLsn | moodeng-core/src/wal.rs:162-189 | the seeking loop computes the largest LSN on all bytes |
| Wal.WriteAheadLog.AllocTxnId | moodeng-core/src/wal.rs:195-200 | ids are handed out consecutively |
| Wal.WriteAheadLog.Append | moodeng-core/src/wal.rs:202-228 | appends one record with the next LSN; every tenth append syncs the file |
| Wal.WriteAheadLog.Flush | moodeng-core/src/wal.rs:231-236 | everything written is synced |
| Wal.WriteAheadLog.MarkCheckpoint | moodeng-core/src/wal.rs:242-258 | stores the checkpoint LSN after a sync and restarts the operation counter |
| Wal.WriteAheadLog.ReplaySince | moodeng-core/src/wal.rs:261-312 | reads the log file like the byte reader |
| Wal.WriteAheadLog.Truncate | moodeng-core/src/wal.rs:314-324 | the file is empty and LSNs restart at 0 while the stored checkpoint LSN stays |
| Wal.AboveConsecutive | moodeng-core/src/wal.rs:304-308 | on consecutive LSNs the filter drops exactly a prefix |
| Wal.BoundedLoss | moodeng-core/src/wal.rs:202-236 | any log prefix that contains the synced bytes replays to all but at most the last nine records |
| Wal.RestartedLsnSkips | moodeng-core/src/wal.rs:314-324 | after a truncation a reader from the stored LSN sees all records iff there are none or that LSN is 0 |
| Tables.ApplyAllEffects | moodeng-core/src/recovery.rs:65-91 | replaying a record list changes each row by the effects of its records in order |
| Tables.ApplyAllOk | moodeng-core/src/recovery.rs:65-91 | replay succeeds on records of known tables and creates no table |
| Tables.ReplayIdempotent | moodeng-core/src/recovery.rs:65-99 | from any state, applying a record list twice stores what applying it once stores |
| Tables.MixedReplay | moodeng-core/src/storage.rs:297-305 | replay over any mixture of old and newly written table files stores, table by table, what it stores over memory or over the old files |
| Tables.PartialPersist | moodeng-core/src/storage.rs:297-305 | replay over any mixture of old and newly written table files stores what memory held |
| Sorting.SortByKeySorts | moodeng-core/src/recovery.rs:53 | the stable library sort yields a sorted permutation |
| Sorting.SortOfPermutation | moodeng-core/src/recovery.rs:53 | with distinct keys every arrangement of the same elements sorts to the same sequence |
| Replaying.SelectedElements | moodeng-core/src/recovery.rs:46-52 | exactly the data records of committed transactions are selected |
| Replaying.GatheringOrderIrrelevant | moodeng-core/src/recovery.rs:46-53 | the hash-map order in which transactions are gathered does not matter |
| Replaying.CommittedHasCommit | moodeng-core/src/recovery.rs:22-44 | with one terminator per transaction, committed means that a Commit record exists |
| Replaying.FileOrderIrrelevant | moodeng-core/src/recovery.rs:20-60 | logs with the same frames in any order are replayed alike |
| Replaying.CommitAddsTransaction | moodeng-core/src/recovery.rs:20-60 | a Commit adds exactly the data records of its transaction |
| Recovery.GroupByTxn | moodeng-core/src/recovery.rs:20-44 | the first pass computes for every transaction whether it committed and its data records in file order |
| Recovery.Gather | moodeng-core/src/recovery.rs:46-52 | the second pass gathers the records of committed transactions, each once, in any map order |
| Recovery.ReplayWal | moodeng-core/src/recovery.rs:13-63 | replay applies the committed data records by LSN and returns their number, or fails if one names an unknown table |
| MemoryStorage.StorageEngine.Insert | moodeng-core/src/storage.rs:335-352 | stores the row under the next id and logs it |
| MemoryStorage.StorageEngine.Scan | moodeng-core/src/storage.rs:405-411 | all rows by increasing id, whatever order the hash map yields them in |
| MemoryStorage.StorageEngine.FetchByIds | moodeng-core/src/storage.rs:413-430 | the existing rows of the ids, in their order; an unknown table is an error |
| MemoryStorage.StorageEngine.Update | moodeng-core/src/storage.rs:432-468 | the version check: only the expected version is replaced, by the next version, and logged |
| MemoryStorage.StorageEngine.ApplyUpdate | moodeng-core/src/storage.rs:470-504 | replayed and undone updates take the next version of an existing row |
| MemoryStorage.StorageEngine.Delete | moodeng-core/src/storage.rs:506-524 | removes and logs the row if it is there |
| MemoryStorage.StorageEngine.CheckpointAll | moodeng-core/src/storage.rs:297-305 | every table file is overwritten from memory; at each step some are and the others are not |
| MemoryStorage.StorageEngine.Checkpoint | moodeng-core/src/recovery.rs:93-99 | table files, then the mark at the current LSN, then the truncation |
| MemoryStorage.StorageEngine.MaybeCheckpoint | moodeng-core/src/storage.rs:307-312 | nothing happens before fifty operations; from then on every table file is written, the LSN stored and the log emptied |
| MemoryStorage.StorageEngine.ApplyWalOp | moodeng-core/src/recovery.rs:65-91 | applies one record like the specification, errors included |
| LogProtocol.EveryLogWellFormed | moodeng-core/src/wal.rs:202-228 | over all interleavings: distinct LSNs, Begin before data, at most one terminator and nothing after it |
| LogProtocol.FileHoldsIssued | moodeng-core/src/wal.rs:202-228 | over all interleavings every record that took an LSN is in the file or on its way there, once, and nothing else is |
| LogProtocol.ReplayOfPrefix | moodeng-core/src/recovery.rs:20-60 | on any prefix of such a log, in any frame order, replay applies by LSN exactly the data records of transactions with a Commit in it |
| LogProtocol.CommitBringsAll | moodeng-core/src/transaction.rs:28-61 | a log prefix that holds a transaction's Commit holds all of its records |
| LogInvariant.StepAppends | moodeng-core/src/executor.rs:129-185 | every step outside DDL appends exactly the one record of its kind |
| LogInvariant.OnlyCommitAdds | moodeng-core/src/recovery.rs:22-44 | no step but COMMIT changes which data records count as committed |
| LogInvariant.RowStepEffect | moodeng-core/src/executor.rs:269-342 | a row step does to the stored values what its log record does |
| LogInvariant.CommitKeepsCrashInv | moodeng-core/src/executor.rs:141-151 | after COMMIT the committed records of the log show exactly the stored values |
| LogInvariant.RollbackKeepsCrashInv | moodeng-core/src/executor.rs:153-166 | after ROLLBACK the stored values are again what the committed records show |
| CrashAtomicity.DurablePointIsLast | moodeng-core/src/recovery.rs:46-60 | the durable point of a run is its last COMMIT whose record survived |
| CrashAtomicity.PrefixShows | moodeng-core/src/recovery.rs:13-63 | the first n records of a run's log show what was stored at the durable point |
| CrashAtomicity.CrashAtomic | moodeng-core/src/recovery.rs:13-63 | for every run and every byte prefix of its log, recovery succeeds and stores exactly the values of the last durable COMMIT |
| CrashAtomicity.CrashAtomicFromEmpty | moodeng-core/src/engine.rs:44-78 | from an empty database, what survives of the log alone brings back the last durable COMMIT |
| Reopening.ReopenExact | moodeng-core/src/engine.rs:44-96 | opening after a crash fails iff those values break a unique index of the catalog; otherwise rows and indexes are those of the durable point |
| Reopening.ReopenSucceeds | moodeng-core/src/engine.rs:75-77 | without a CREATE INDEX behind the durable point opening succeeds |
| UniqueIndexAfterDelete.OpeningFails | moodeng-core/src/engine.rs:75-77 | a concrete run: a deletion, its Commit record lost, CREATE UNIQUE INDEX, and the database does not open |
| Reopening.CheckpointSafe | moodeng-core/src/recovery.rs:93-99 | a crash after any subset of table files, after the mark or after the truncation recovers what memory held |
| InterruptedCheckpoint.LostTailExact | moodeng-core/src/recovery.rs:93-99 | after a crash inside a checkpoint, in a transaction or not and with any part of the log left, every mixture of table files recovers the last durable or the last COMMIT iff replaying the surviving records over memory gives the durable state, or gives the last committed one and the two differ in at most one table |
| HalfTransaction.HalfComesBack | moodeng-core/src/recovery.rs:93-99 | a concrete run: the table file was written, the log was not synced, and one of two changes of the lost transaction is back |
| HalfTransaction.UncommittedComesBack | moodeng-core/src/storage.rs:307-312 | a concrete run: a checkpoint inside a transaction is interrupted, and a row that was never committed is back |
| OpenDatabase.EnsureTables | moodeng-core/src/engine.rs:66-68 | every catalog table exists before the replay, empty if it had no file |
| OpenDatabase.Open | moodeng-core/src/engine.rs:44-96 | load, ensure tables, replay, rebuild computes the reopened engine the theorems speak about |
| Rollback.UndoStepExact | moodeng-core/src/transaction.rs:91-143 | undoing one record succeeds iff the older values satisfy the unique indexes, and restores exactly them |
| Rollback.UndoAllExact | moodeng-core/src/transaction.rs:91-143 | undoing a list fails iff an intermediate state breaks a unique index |
| Rollback.RowStepUndone | moodeng-core/src/executor.rs:329-336 | the undo record of every row step takes its effect back |
| Rollback.SameValuesSameIndexes | moodeng-core/src/index.rs:54-79 | indexes are determined by the stored values; unique ones literally |
| Rollback.RollbackRestores | moodeng-core/src/executor.rs:153-166 | after any row steps of an explicit transaction ROLLBACK succeeds and restores every row's values and every index |
| RollbackWithDdl.RollbackRestoresWithDdl | moodeng-core/src/executor.rs:153-166 | the same for transactions that also create tables and indexes that are not unique: ROLLBACK succeeds and restores every value, and the indexes of tables whose definition is the old one |
| UniqueIndexAfterDelete.RollbackFails | moodeng-core/src/executor.rs:793-838 | a concrete run in which CREATE UNIQUE INDEX makes ROLLBACK fail |
| Index.InsertAgrees | moodeng-core/src/index.rs:54-69 | an insertion is refused iff it would make a unique key occur twice, and keeps the agreement with the rows |
| Index.RemoveAgrees | moodeng-core/src/index.rs:71-79 | a removal keeps the agreement |
| Index.AgreementUnique | moodeng-core/src/index.rs:54-84 | trees that agree with the same rows hold the same ids under the same keys |
| Index.BuildAgrees | moodeng-core/src/index.rs:246-262 | an index built from a scan succeeds iff the keys are unique and agrees with the rows |
| Index.ComparableExact | moodeng-core/src/index.rs:28-42 | two values have the same key iff they are equal, or integers and timestamps with one number, or text and JSON with the same characters |
| Index.CaseIgnored | moodeng-core/src/catalog.rs:110 | names are the same iff they differ at most in the case of their letters |
| TableIndexes.AddRowAgrees | moodeng-core/src/index.rs:147-172 | a row enters all indexes of a table or is refused, exactly by uniqueness |
| TableIndexes.ReplaceRowAgrees | moodeng-core/src/executor.rs:730-743 | taking the old row out and putting the new values in keeps all indexes in agreement, or fails exactly by uniqueness |
| TableIndexes.BuildAllAgrees | moodeng-core/src/index.rs:233-267 | all indexes of a table can be rebuilt iff the rows satisfy them |
| Scans.ScanIsComplete | moodeng-core/src/storage.rs:68-81 | a scan lists exactly the stored rows by increasing id |
| Scans.SortedListIsScan | moodeng-core/src/storage.rs:71-78 | sorting the entries of a hash map, in any order, gives the scan |
| Agreement.CreateIndexKeepsInv | moodeng-core/src/executor.rs:793-838 | a created index agrees with the rows at once |
| Agreement.CreateTableKeepsInv | moodeng-core/src/executor.rs:187-242 | a created table starts empty with an agreeing primary-key index |
| SchemaEffects.CreateTableExact | moodeng-core/src/executor.rs:187-211 | CREATE TABLE succeeds iff the name is free; the table has these columns and no row |
| SchemaEffects.CreateIndexExact | moodeng-core/src/executor.rs:793-838 | CREATE INDEX succeeds iff table and columns exist, the name is free and, if unique, no two rows have the same key; it adds the definition and changes no row |
| PrimaryKeys.PrimaryKeyKept | moodeng-core/src/executor.rs:213-242 | after CREATE TABLE, in every state a run reaches, no two rows agree on all columns declared PRIMARY KEY |
| PrimaryKeys.HiddenKeyFails | moodeng-core/src/executor.rs:220-229 | if such a column has an earlier namesake that is not declared, a run stores two rows that agree on all declared columns |
| PrimaryKeys.PrimaryKeyExact | moodeng-core/src/executor.rs:213-242 | the primary key holds in every state that follows iff no declared column has such a namesake |
| Agreement.StepKeepsAgreement | moodeng-core/src/executor.rs:698-838 | every step that returned Ok keeps all indexes in agreement with the rows |
| Agreement.RebuildExact | moodeng-core/src/index.rs:233-267 | rebuild_all succeeds iff the stored values satisfy every unique index |
| Agreement.LiveIndexesAreRebuilt | moodeng-core/src/index.rs:233-267 | after any run, rollbacks and DDL included, the live indexes are what rebuild_all builds, which succeeds |
| Agreement.RollbackExact | moodeng-core/src/transaction.rs:91-143 | ROLLBACK succeeds iff every older state on the way satisfies the unique indexes of the present catalog |
| IndexManagement.IndexManager.CreateIndex | moodeng-core/src/index.rs:116-130 | an existing name is refused and nothing changes |
| IndexManagement.IndexManager.InsertRow | moodeng-core/src/index.rs:147-172 | adds the row to all indexes, or stops at a duplicate with the row in some of them |
| IndexManagement.IndexManager.RemoveRow | moodeng-core/src/index.rs:174-198 | removes the row's keys from all indexes of the table |
| IndexManagement.IndexManager.Lookup | moodeng-core/src/index.rs:200-207 | the ids under the key, none for an unknown index |
| IndexManagement.IndexManager.RebuildTable | moodeng-core/src/index.rs:240-262 | the definitions of a table are rebuilt in order, or one of them fails |
| IndexManagement.IndexManager.RebuildAll | moodeng-core/src/index.rs:233-267 | succeeds iff all tables can be rebuilt and leaves exactly the rebuilt indexes |
| Transactions.Transaction.Begin | moodeng-core/src/transaction.rs:28-40 | takes the next id, logs Begin and empties the undo list; refused while active |
| Transactions.Transaction.Commit | moodeng-core/src/transaction.rs:42-51 | logs Commit and forgets the undo list |
| Transactions.Transaction.Rollback | moodeng-core/src/transaction.rs:53-61 | logs Abort and hands out the undo records, the last one first |
| Catalog.CoerceTo | moodeng-core/src/types.rs:133-151 | which values convert to which types, and everything else is a type mismatch; a coerced value has the column's type, NULL and VARCHAR take every value as it is |
| Catalog.CoercionKeepsNumber | moodeng-core/src/types.rs:133-151 | a conversion changes the number iff it cuts an integer of more than 32 bits |
| Catalog.WrapInt4 | moodeng-core/src/types.rs:139 | narrowing keeps the low 32 bits, read as a signed number |
| Expressions.Bare | moodeng-core/src/parser.rs:163 | what follows the last dot of a name, or the whole name |
| Expressions.ColumnPositionFirst | moodeng-core/src/parser.rs:162-169 | the first column with the name or its bare part is read; an error only if there is none |
| Expressions.IntsOrdered | moodeng-core/src/parser.rs:171-224 | on integers of mixed widths the six comparisons are one total order |
| Planner.ConditionIsTwoValued | moodeng-core/src/parser.rs:171-203 | conditions of comparisons, NULL tests, AND, OR and NOT are true or false, never NULL |
| Planner.NotPartitions | moodeng-core/src/parser.rs:121-127 | WHERE NOT c keeps exactly the rows that WHERE c drops, rows with NULL included |
| ExpressionLaws.Connectives | moodeng-core/src/parser.rs:195-196 | both sides are evaluated; of two conditions AND is true where both are and OR where one is |
| ExpressionLaws.AndFiltersTwice | moodeng-core/src/parser.rs:195 | WHERE p AND q keeps, in order, what WHERE q keeps of what WHERE p keeps |
| ExpressionLaws.OrKeepsEither | moodeng-core/src/parser.rs:196 | WHERE p OR q keeps exactly the rows that WHERE p or WHERE q keeps |
| ExpressionLaws.SelectedByBoth | moodeng-core/src/parser.rs:195-196 | the same for the rows an UPDATE or a DELETE selects |
| ExpressionLaws.NoWhereKeepsAll | moodeng-core/src/executor.rs:522-530 | without a WHERE clause every row is kept, by a query as by UPDATE and DELETE |
| ExpressionLaws.WhereTruth | moodeng-core/src/parser.rs:270-290 | NULL and false drop a row, every other value keeps it |
| ExpressionLaws.NullTests | moodeng-core/src/parser.rs:137-144 | IS NULL keeps exactly the rows in which the expression is NULL, IS NOT NULL the others |
| ExpressionLaws.Comparisons | moodeng-core/src/parser.rs:171-224 | what each comparison gives on every pair of values, NULL and mixed kinds included |
| ExpressionLaws.EqualityKeeps | moodeng-core/src/parser.rs:204-212 | an equality with a text or truth value keeps exactly the rows with that value in the column |
| ExpressionLaws.NameReads | moodeng-core/src/parser.rs:162-169 | a name reads the first column it refers to, and is an error iff there is none |
| ExpressionLaws.QualifiedReads | moodeng-core/src/parser.rs:100-115 | a qualified name reads the first column called by its last part or by its last two |
| ExpressionLaws.ExcludedReads | moodeng-core/src/parser.rs:151-160 | `excluded.c` reads the proposed row, never the stored one; outside DO UPDATE it is an error |
| ExpressionLaws.IntegerArithmetic | moodeng-core/src/parser.rs:182-185 | sums, differences and products of integers are exact up to the width of their type |
| ExpressionLaws.NoOverflow | moodeng-core/src/parser.rs:182-185 | without overflow they are exact |
| ExpressionLaws.FloatAndText | moodeng-core/src/parser.rs:186-188 | sums and differences of 64-bit floats, and concatenation of texts |
| ExpressionLaws.UntypedIsNull | moodeng-core/src/parser.rs:171-199 | every other combination of operator and operand types, NULL included, gives NULL, and no defined one does |
| ExpressionLaws.UnaryOperators | moodeng-core/src/parser.rs:121-136 | minus negates a number up to the width of its type and leaves other values alone |
| Planner.PlanScan | moodeng-core/src/planner.rs:27-53 | the plan is one of those an equality on an indexed column allows |
| Planner.EqualityEvaluates | moodeng-core/src/parser.rs:171-212 | either operand order and any parentheses evaluate to the same NULL-rejecting comparison |
| Planner.EqualValuesSameKey | moodeng-core/src/index.rs:28-42 | of two values the comparison calls equal, only different 64-bit floats have different index keys |
| Planner.PlanExact | moodeng-core/src/executor.rs:509-530 | on any table, index lookup plus WHERE keeps the multiset of rows of full scan plus WHERE, and the sequence for a unique index, iff every row the equality selects is under the literal's key |
| PlanSafety.PlanSafeExact | moodeng-core/src/parser.rs:162-212 | an equality may be answered from an index on every table over a set of storable floats iff its name is read from the indexed column and no other storable float is within epsilon of the literal |
| Doubles.AloneExact | moodeng-core/src/parser.rs:208 | a 64-bit float compares equal to no other 64-bit float iff its size is above 1 |
| PlanSafety.FloatPlanExact | moodeng-core/src/parser.rs:208 | on an unambiguous column an index plan for a 64-bit float literal keeps the rows of every table iff the literal's size is above 1 |
| Planner.PlainNameUnambiguous | moodeng-core/src/parser.rs:162-169 | a name without a dot means the column its index is on |
| PlanSafety.DottedNameLosesRow | moodeng-core/src/parser.rs:162-169 | with columns `x` and `t.x`, for every literal that can be equal to something, an index plan for `t.x` loses a row of some table |
| Statements.InsertStatementIsRun | moodeng-core/src/executor.rs:269-342 | a successful INSERT, with or without ON CONFLICT, is a run of row steps in its own or the running transaction |
| InsertEffects.ProposedExact | moodeng-core/src/executor.rs:294-300 | a VALUES row is accepted iff there is a row with one converted cell per column, NULL where nothing is given, and no NULL where none is allowed; then it is that row |
| InsertEffects.InsertExact | moodeng-core/src/executor.rs:325-330 | storing a row succeeds iff the rows with it satisfy the unique indexes |
| InsertEffects.PlainInsertEffect | moodeng-core/src/executor.rs:269-342 | INSERT without ON CONFLICT succeeds iff every VALUES row is accepted and all rows together satisfy the unique indexes; then the table holds the old rows and one new one for each, under consecutive ids, and the count is their number |
| Statements.UpdateStatementIsRun | moodeng-core/src/executor.rs:698-750 | a successful UPDATE is a run of row steps |
| Statements.DeleteStatementIsRun | moodeng-core/src/executor.rs:752-791 | a successful DELETE is a run of row steps |
| Assignments.AssignedCells | moodeng-core/src/executor.rs:731-736 | after a list of assignments a cell holds the converted value of the last one to its column, evaluated in the row as the earlier ones left it; a cell without one stays, an unknown column changes nothing |
| Assignments.AssignedExact | moodeng-core/src/executor.rs:731-736 | a list of assignments fails iff one of them cannot be evaluated there or converted |
| Assignments.ChangedExact | moodeng-core/src/executor.rs:731-738 | the changed row is that row, and is refused iff it has a NULL where none is allowed |
| StatementEffects.UpdateStatementEffect | moodeng-core/src/executor.rs:698-750 | UPDATE changes exactly the rows WHERE selects, each cell by cell from its row before the statement, and counts them |
| StatementSuccess.UpdateSucceeds | moodeng-core/src/executor.rs:698-750 | UPDATE succeeds iff WHERE can be evaluated on every row, the assignments can be carried out on the selected ones, and at every point of the way by increasing id the rows satisfy the unique indexes |
| StatementEffects.DeleteStatementEffect | moodeng-core/src/executor.rs:752-791 | DELETE removes exactly the rows WHERE selects and counts them |
| StatementSuccess.DeleteSucceeds | moodeng-core/src/executor.rs:752-791 | DELETE fails iff its WHERE clause cannot be evaluated on some row |
| Statements.FindUniqueIndex | moodeng-core/src/executor.rs:372-391 | the first unique index on exactly the conflict columns, ignoring case; none only if there is none |
| Upsert.ConflictExact | moodeng-core/src/executor.rs:393-424 | the conflict check finds a row iff the proposed key is stored |
| Upsert.FirstPerKeyExact | moodeng-core/src/executor.rs:293-341 | the rows kept are the first per new key and as many as there are distinct new keys |
| Upsert.DoNothingFold | moodeng-core/src/executor.rs:293-341 | a successful DO NOTHING leaves the old rows plus the first VALUES row of each new key, under consecutive ids |
| Upsert.DoNothingCount | moodeng-core/src/executor.rs:269-342 | the statement's count is the number of distinct new keys |
| Upsert.DoNothingSucceeds | moodeng-core/src/executor.rs:293-341 | if the target is the only unique index, DO NOTHING never fails on a duplicate |
| UpsertEffects.ConflictIsKey | moodeng-core/src/executor.rs:393-424 | the conflict check finds the one stored row with the proposed key, if there is one |
| UpsertEffects.OneInsertedExact | moodeng-core/src/executor.rs:293-341 | one VALUES row with ON CONFLICT: a new key is inserted; a stored one is left, or its row gets exactly the assigned cells if the conflict WHERE holds, and is left otherwise |
| UpsertEffects.OnConflictEffect | moodeng-core/src/executor.rs:269-342 | INSERT with ON CONFLICT succeeds iff there is a table its VALUES rows lead to, one after the other, and leaves that table and count |
| UpsertEffects.NoConflictTarget | moodeng-core/src/executor.rs:344-391 | without a unique index on exactly the conflict columns it is refused |
| UpsertEffects.DefaultTarget | moodeng-core/src/executor.rs:344-364 | a conflict clause without columns means the columns declared PRIMARY KEY, and is refused iff there is none |
| UpsertEffects.SetExcluded | moodeng-core/src/executor.rs:456-461 | `SET c = EXCLUDED.c` puts the proposed cell in place of the stored one and changes no other |
| UpsertEffects.SetItself | moodeng-core/src/executor.rs:456-461 | `SET c = c` reads the stored row and changes nothing |
| Executors.Executor.Begin | moodeng-core/src/executor.rs:129-139 | moves the view by the BEGIN step or refuses, and counts the transaction |
| Executors.Executor.Commit | moodeng-core/src/executor.rs:141-151 | moves the view by the COMMIT step or refuses |
| Executors.Executor.ApplyUndo | moodeng-core/src/transaction.rs:91-143 | undoes one record exactly like the undo step |
| Executors.Executor.Rollback | moodeng-core/src/executor.rs:153-166 | undoes the reversed list record by record: the ROLLBACK step |
| Executors.Executor.BeginWriteTxn | moodeng-core/src/executor.rs:168-176 | joins the running transaction or opens one for the statement |
| Executors.Executor.FinishAutoCommit | moodeng-core/src/executor.rs:178-185 | commits the statement's own transaction |
| Executors.Executor.ChangeRow | moodeng-core/src/executor.rs:426-478 | remember, drop keys, assign, validate, store, add keys is one update step |
| Executors.Executor.FindConflictRow | moodeng-core/src/executor.rs:393-424 | resolves the target, finds its index and looks the key up |
| Executors.Executor.InsertOneRow | moodeng-core/src/executor.rs:293-341 | one VALUES row: coerced, validated, inserted, ignored or turned into an update |
| Executors.Executor.Insert | moodeng-core/src/executor.rs:269-342 | succeeds iff the INSERT statement does, with its state and count |
| Executors.Executor.Update | moodeng-core/src/executor.rs:698-750 | succeeds iff the UPDATE statement does, with its state and count |
| Executors.Executor.Delete | moodeng-core/src/executor.rs:752-791 | succeeds iff the DELETE statement does, with its state and count |
| Executors.Executor.CreateTable | moodeng-core/src/executor.rs:187-242 | the CREATE TABLE step with its primary-key index |
| Executors.Executor.CreateIndex | moodeng-core/src/executor.rs:793-838 | the CREATE INDEX step, built from a scan |
| Executors.Executor.Select | moodeng-core/src/executor.rs:480-533 | the rows kept are those of a full scan with the WHERE clause, whatever plan was taken, if every row the equality selects is under the literal's key; in the order of the scan if only unique indexes can be taken |
| Executors.FileHoldsLog | moodeng-core/src/wal.rs:202-228 | until the first checkpoint the log file is the encoding of the view's log |
| Lru.RecentTouch | moodeng-core/src/page_table.rs:67-72 | a touch moves a page to the end of the window; a new page pushes the oldest out |
| Lru.LruCache.Get | moodeng-core/src/page_table.rs:44-50 | a hit returns the cached body and counts as a touch, a miss changes nothing |
| Lru.LruCache.Insert | moodeng-core/src/page_table.rs:52-65 | the cached pages are the most recently touched distinct ones, at most max_pages, in order |
| Lru.SmallerCacheContained | moodeng-core/src/page_table.rs:44-72 | with the same touches a larger cache contains a smaller one |
| PageFile.ReadSlot | moodeng-core/src/page_table.rs:202-221 | a stored page decodes to what was stored |
| PageCodecs.CodecInverts | moodeng-core/src/page_table.rs:223-243 | for every list of rows there is a page serializer that can read all pages of such rows that it writes |
| PageCodecs.SomePageFile | moodeng-core/src/page_table.rs:87-112 | there is a page file that holds a row and meets what opening asks for |
| PageFile.StoredPage | moodeng-core/src/page_table.rs:223-243 | overwriting one slot changes that page and neither the header nor another page |
| PageFile.GrownFile | moodeng-core/src/page_table.rs:245-269 | growing adds empty pages and a header that counts them |
| PageFile.HeaderRoundTrip | moodeng-core/src/page_table.rs:175-200 | the header reads back as it was written |
| PageFile.RowsByPage | moodeng-core/src/page_table.rs:141-143 | a row is stored iff it is in the page its id belongs to |
| PageTables.PageTable.Open | moodeng-core/src/page_table.rs:87-112 | a file left by another page table opens to the same rows, a new one to none |
| PageTables.PageTable.LoadPage | moodeng-core/src/page_table.rs:202-221 | hit or miss, the page is the decoded slot and the cache stays coherent; an empty slot is not cached |
| PageTables.PageTable.CacheLen | moodeng-core/src/page_table.rs:127-129 | the number of cached pages, at most the capacity |
| PageTables.PageTable.StorePage | moodeng-core/src/page_table.rs:223-243 | write-through; a page that does not fit is refused and nothing changes |
| PageTables.PageTable.PutRow | moodeng-core/src/page_table.rs:271-278 | through growth and eviction the rows change by exactly this one |
| PageTables.PageTable.Insert | moodeng-core/src/page_table.rs:280-286 | acts as insertion into a plain table; an overflow only uses the id up |
| PageTables.PageTable.ApplyInsert | moodeng-core/src/page_table.rs:288-295 | insertion under a given id, keeping the next id above it |
| PageTables.PageTable.Get | moodeng-core/src/page_table.rs:297-304 | lookup in the plain table |
| PageTables.PageTable.Scan | moodeng-core/src/page_table.rs:306-316 | all rows by increasing id |
| PageTables.PageTable.Update | moodeng-core/src/page_table.rs:318-330 | replaces an existing row only |
| PageTables.PageTable.Delete | moodeng-core/src/page_table.rs:332-344 | removes an existing row only |
| PageTables.PageTable.RowCount | moodeng-core/src/page_table.rs:131-139 | the number of rows |
| PageTables.Reopen | moodeng-core/src/page_table.rs:87-112 | all rows survive reopening; the next id does iff the header was up to date |
| PageTables.CreateAndReopen | moodeng-core/src/page_table.rs:145-169 | a file created and never written to reopens with next id 0 |
| Backend.TableBackend.Insert | moodeng-core/src/storage.rs:36-46 | both backends insert under the next id; only a paged one can overflow |
| Backend.TableBackend.Scan | moodeng-core/src/storage.rs:68-81 | both backends list all rows by increasing id |
| Backend.TableBackend.Update | moodeng-core/src/storage.rs:83-88 | on an existing id both replace the row; on a missing one memory stores it and paged refuses |
| Backend.TableBackend.Delete | moodeng-core/src/storage.rs:90-95 | both remove the row and say whether it was there |
| Storage.TableStore.Insert | moodeng-core/src/storage.rs:335-352 | creates the table on first use, stores the row and logs it |
| Storage.TableStore.Update | moodeng-core/src/storage.rs:432-468 | unknown table, missing row, version conflict or the next version, in this order of checks |
| Storage.TableStore.ApplyUpdate | moodeng-core/src/storage.rs:470-504 | the next version of an existing row, logged on request |
| Storage.TableStore.ApplyDelete | moodeng-core/src/storage.rs:526-550 | removal, logged only if something was removed |
| Storage.TableStore.Record | moodeng-core/src/storage.rs:343-350 | one record, and a checkpoint after the fiftieth: the table is in its file, the log empty |
| Storage.TableStore.Checkpoint | moodeng-core/src/recovery.rs:93-99 | table file or pages written, log marked and emptied, table unchanged |
| BackendEquivalence.NextIdStaysAbove | moodeng-core/src/storage.rs:335-550 | the next id never falls and stays above every stored id |
| BackendEquivalence.ExecuteAll | moodeng-core/src/storage.rs:335-550 | any call sequence without overflow gives the results and the table of the plain table |
| BackendEquivalence.Lockstep | moodeng-core/src/storage.rs:30-117 | two stores with the same table, whatever their backends, answer every call sequence alike |
| Backup.StepKeeps | moodeng-core/src/backup.rs:51-57 | every step of every session and of the backup keeps the counter, the lock and the window consistent |
| Backup.LiveBackupIsConsistent | moodeng-core/src/backup.rs:51-57 | from the second zero count to the release no change is uncommitted or half undone, the rows of tables that are not dropped stand still and the archive is a copy of them; tables created meanwhile are empty |
| BackupContents.EveryStateExplained | moodeng-core/src/executor.rs:129-185 | over all interleavings without two unfinished changes of one row, each row is what its session's unfinished writes made of the committed one, and the pending changes are those that lead back |
| BackupContents.PendingTakenBack | moodeng-core/src/transaction.rs:91-143 | taking back what is pending, session by session in any order, gives the rows of the transactions that reached their Commit |
| BackupContents.BackupHoldsCommittedRows | moodeng-core/src/backup.rs:51-57 | in the window the rows, and then the archive, are exactly those of the transactions that reached their Commit |
| Backup.WindowFreezesRows | moodeng-core/src/executor.rs:289-291 | inside the window a step changes no row, except that CREATE TABLE adds an empty table and DROP TABLE removes one |
| Versions.StepKeepsVersions | moodeng-core/src/storage.rs:432-504 | a stored pair of id and version is never given to another row, unless a DELETE is rolled back that removed another version than its scan had read |
| Versions.StepKeepsPending | moodeng-core/src/transaction.rs:127-141 | what a DELETE removed in the version its scan had read stays the latest version of its row until the DELETE is rolled back |
| Versions.PutBackExact | moodeng-core/src/transaction.rs:127-141 | rolling back a DELETE keeps pairs of id and version unique iff no later version of the row was ever stored |
| Versions.UndoStores | moodeng-core/src/transaction.rs:91-126 | undo takes an inserted row away, and gives an updated one its old values under a version never used |
| Versions.UpdateReplacesWhatWasRead | moodeng-core/src/executor.rs:706-746 | over all interleavings in which every rolled-back DELETE removed the version its scan had read, a successful version-checked UPDATE replaces exactly the row it read |
| Versions.AtMostOneWinner | moodeng-core/src/storage.rs:448-453 | over the same interleavings, of several updates that read the same version at most one succeeds |
| Versions.RolledBackDeleteReusesVersions | moodeng-core/src/executor.rs:759-781 | a concrete run: rolling back a DELETE whose scan was stale gives a pair of id and version to two rows |
| Params.ReplacementReadBack | moodeng-core/src/query_util.rs:268-280 | a parameter becomes NULL iff it is missing or the word null; every other text can be read back from its replacement, which is the text itself iff it starts with a digit |
| Params.OneStep | moodeng-core/src/query_util.rs:264-283 | replacing `$m` takes the text from the stage after `$m+1` to the next, `$1` beside `$10` included, if no number runs into a digit put there before |
| Params.SubstituteParams | moodeng-core/src/query_util.rs:264-283 | replacing from the highest placeholder down computes the fold, and of a well-placed text the simultaneous substitution |
| ParamsExact.SubstitutionExact | moodeng-core/src/query_util.rs:264-283 | for every text and number of parameters: the loop is simultaneous substitution for all parameters without dollar signs iff the text is well placed |
| ParamsExact.AdjacentPair | moodeng-core/src/query_util.rs:264-283 | `$a$b` is well placed iff 10 a >= b |
| ParamsExact.StepsAreGreedy | moodeng-core/src/query_util.rs:264-283 | of any text, if no replacement starts with a digit, the loop replaces at every dollar sign the longest number that names a parameter |
| ParamsExact.PlaceholdersRunTogether | moodeng-core/src/query_util.rs:264-283 | `$1$12` with twelve parameters turns into 9 instead of 11 |

## Left out

- File, mmap and fsync calls: a file is a byte sequence with a synced length, a table file is written in one step, and `ensure_mmap` is folded into opening and growing.
- bincode: the serializers are parameters. Of a payload serializer a theorem asks that it can read what it writes of the records of that log; of a page serializer, that it can of every page whose rows it is made for (`PageCodec.storable`), and that it never writes nothing. An encoding is a function of the value, although a hash map can be serialized in any order.
- Paged mode after a crash: uncommitted rows are written through, so the crash theorems are for memory tables.
- Restart with an unfinished old log, and writes after a checkpoint followed by a crash: transaction ids and LSNs restart there, and the code keeps no invariant (see `Wal.RestartedLsnSkips`).
- A checkpoint that completes inside a transaction: the crash theorems cover runs without a checkpoint, checkpoints between transactions, and interrupted ones of either kind (`InterruptedCheckpoint`).
- Reopening.ReopenExact: takes the live catalog as the stored one; the code stores it after an execute call only if its last statement changed it (executor.rs:56-66, engine.rs:136-138), so a CREATE followed by another statement in one call is stored late.
- Error paths: a failed statement leaves partial changes and its own transaction open; runs consist of steps that returned Ok, and `Executors.Executor` methods say of a failure only that it happens exactly when the specification fails.
- DROP TABLE, except in `Backup`, and the import of old table files into paged mode.
- Storage.TableStore.Insert: one table at a time; the map of table names is on values in `MemoryStorage`, because disjointness of many heap-allocated backends adds frames and no property.
- BTreeIndex: a value that the index manager reassigns in its map, not an object of its own; insertion and removal are functions.
- IndexManagement.IndexManager.InsertRow: after a duplicate it says of each index only that it is the old one or has the row.
- Executors.Executor.Select: the rows before projection, ordering and limits; joins, aggregates, sorting and LIMIT are left out.
- Expressions: SQL functions, parsing and the conversion of literals are left out; a literal is the value it denotes, integers wrap, floats are exact reals (no NaN, no signed zero, no rounding in arithmetic or in the conversion of integers beyond 53 bits).
- Isolation between transactions that write the same rows: row locks end with the statement, so `Versions` claims only what the version check gives, and `Engine` is serial.
- `LockManager`, `range_scan`, `reconcile_storage`, restore, servers, TLS, authentication, metrics, configuration and the command line.
- Liveness of the backup's wait loops: only safety is claimed; one backup at a time.
- Backup.LiveBackupIsConsistent: the archive holds rows only; CREATE INDEX, which takes no backup lock either, touches no row and is not among the actions. What the rows are is said for interleavings in which no two sessions have an unfinished change of the same row (`BackupContents`): row locks end with the statement, and then an undo can overwrite another session's change.
- Parameters that contain dollar signs, which later steps replace again.
