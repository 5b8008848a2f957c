# rustnetec: verified models of the telemetry store, the packet export and the attribution parsers

rustnetec watches network connections, attributes them to processes and Kubernetes pods, keeps a
telemetry database with minute, hour and day roll-ups, and exports annotated packet captures. This
project models the parts of it where several functions or threads have to agree with each other, and
proves that they do, or says exactly when they do not. `dafny verify dfyconfig.toml` checks all of it.

- **Roll-up** (`Sums`, `Rollup`, `SqlText`, `Retention`, `Aggregation`, `RollupMeaning`, `RollupHistory`,
  `MinuteHistory`, `RollupClocks`, `TelemetryDb`, `RangeQuery`).
  Tables are sets of rows; a row's group is its bucket and its nullable dimensions, its key is what the
  unique index makes of them. `FullTable` is the table computed from all events at once. The windowed
  `INSERT OR REPLACE` passes, the rebuild and the range query are proved against it. The class
  `Database` performs the SQL statements in place; `Aggregation` reasons about one aggregation run,
  `RollupHistory` about any interleaving of inserts, runs and cleanups, separately for each day and each
  dimension tuple, `MinuteHistory` for each minute row. `RollupMeaning` says what the tables mean in
  terms of the columns of events and rows alone.
- **Upload cursor** (`UploadCursor`): writer, uploader and cleaner as a state machine in any interleaving.
- **PCAPNG export** (`Bytes`, `Pcapng`, `PcapngWriting`, `ExportPipeline`): the file writer with a reader
  that undoes it (draft-ietf-opsawg-pcapng, sections 3.1, 3.5, 4.1 to 4.3), and the export thread's FIFO
  queue in front of it. Every tracker lookup and clock reading is an arbitrary value; the thread is
  proved to produce only legal traces of arrivals, waits and departures, each departure with the
  tracker's answers for it, and the guarantees are lemmas about legal traces.
- **Sliding histories** (`Histories`): the 60 s interface window and the per-connection rate rings.
- **Small protocols** (`SnapshotPublication`, `WorkerCap`, `BootstrapCodes`).
- **Parsers with printers** (`Text`, `Cgroup`, `ProcNet`, `QueryString`).
- **Offline matching** (`PcapMatch`).

## Results that differ from what the code says of itself

- The comment above `run_aggregation` speaks of a two-minute window. The SQL compares
  `2026-08-04T20:...` with `2026-08-04 20:...` as text, and `T` sorts after a space, so only the dates
  are compared (`SqlText.TextWindowIsTextual`): every window starts at a day boundary. That is why the
  hour and day passes never split a group (`Aggregation.DayWhole`).
- The date compared for events is the local date of the stored timestamp (`src/app.rs:323`), the date it
  is compared with is UTC. West of Greenwich the events of the first hours of each UTC day fall outside
  the window (`WestLosesTheDaysStart`) and are then missing from every row of every later state
  (`RollupHistory.LostForGood`), whatever follows. `PartIsExact` and `MinuteIsExact` give the exact
  condition for every offset, every retention and every run; at or east of Greenwich, with at least one
  day of retention, it is met (`EastIsAlwaysMet`).
- With one day of retention a run in the first two minutes after midnight can bring back a row of a day
  that a cleanup just dropped (`RollupClocks.OneDayRevives`). `IncrementalRefinesFull` says exactly when
  the whole table is right; with two days or more this cannot happen (`DroppedStaysDropped`).
- `PersistentConfig::validate` refuses a retention of zero days, but only for settings sent over HTTP
  (`src/telemetry/http.rs:2068`); the writer thread uses the loaded file as it is (`src/main.rs:894-899`).
  The theorems therefore hold for every retention, zero included.
- The unique key maps NULL and the empty string to the same value while `GROUP BY` separates them. If
  both occur in one day no table under the index can be complete, and after a rebuild the index cannot
  be created (`UniqueHasNoCollision`, `NullAndEmptyCollide`, `Database.RebuildAggregates`).
- The points of `/stats/range` for one bucket add up to its total unless a process is literally named
  `_unknown` and the rows without a name moved bytes (`RangeQuery.SeriesAddUp`, `UnknownHidesUnnamed`). The comment above
  `handle_stats_range` says it never reads the roll-up table; all bucket widths but `5s` do.
- A request handler that panics never gives its slot back. The HTTP server can admit a request again
  if and only if fewer than 32 handlers have panicked (`WorkerCap.AdmitsUnlessAllCrashed`), and a run
  with 32 panics exists (`CrashRun`).
- The two query-string parsers disagree on a key exactly when its first and last value differ
  (`QueryString.AgreeExactly`).
- `ConnRateHistory` with capacity 0 keeps one sample.

## Model

| member | source | states |
|---|---|---|
| Sums.SumByGroups | src/telemetry/db.rs:433-482 | group totals add up to the total of the grouped elements, whatever the grouping key: the meaning of one `GROUP BY` pass over another |
| Rollup.TruncNests | src/telemetry/db.rs:438-482 | truncating a time to minutes, then hours, then days names the same buckets as truncating once |
| Rollup.MergeExact | src/telemetry/db.rs:433-482 | merging an exact minute level gives exactly the hour rows recomputed from events, and hours the day rows, row set for row set |
| Rollup.WindowSelects | src/telemetry/db.rs:841-842 | a window from a day boundary selects exactly the rows of the events since that day |
| SqlText.DateOrder | src/telemetry/db.rs:816 | `YYYY-MM-DD` texts compare as text exactly as the dates do in time |
| SqlText.SeparatorDecides | src/telemetry/db.rs:816 | a `T` timestamp is at least a space-separated one, as text, exactly when its date is not earlier |
| SqlText.TextWindowIsTextual | src/telemetry/db.rs:816 | the window test of the model is the text comparison, for every offset, time of day and Gregorian date |
| SqlText.YearStarts | src/telemetry/db.rs:816 | the calendar behind it has 365 days a year and one more in each year divisible by 4 but not 100, or by 400 |
| SqlText.UnixEpoch | src/telemetry/db.rs:816 | in it 1 January 1970 is day 719529 from 1 January of the year 0 |
| Aggregation.MinuteWhole | src/telemetry/db.rs:795-818 | the minute pass sees each group whole or has nothing new to see exactly when it reads each minute's events all or not at all and reads every new one, deleted events counting as not read |
| Aggregation.DayWhole | src/telemetry/db.rs:820-844 | a day-aligned pass misses something exactly when a new closed event is older than its window |
| Aggregation.UpsertExact | src/telemetry/db.rs:795-818 | `INSERT OR REPLACE` of a partial view leaves the fully recomputed level if every group was seen whole or unchanged |
| Aggregation.UpsertComplete | src/telemetry/db.rs:795-818 | conversely a level that equals the recomputed one shows that no group was seen in part |
| Aggregation.RunIsExact | src/telemetry/db.rs:793-871 | one run, its three statements each at its own time and over whatever events are still stored, turns the exact table of the events seen before into the exact table of all events if and only if it reaches every new event, reads no minute in part, and the key separates all groups |
| RollupMeaning.KeysCoincide | src/telemetry/db.rs:289-299 | two rows collide in the unique index exactly when all eight columns are equal, or one is missing and the other is the stand-in value |
| RollupMeaning.ReachedOnColumns | src/telemetry/db.rs:816-868 | the run reaches an event exactly when it is stored, its local date is not before that of two minutes ago, and its UTC date not before those of two hours and two days ago |
| RollupMeaning.RunWritesRows | src/telemetry/db.rs:793-871 | every row a run writes carries the received bytes, sent bytes, number and seconds of the closed events in the window, or of the finer rows in it, with its dimensions and in its span |
| RollupMeaning.FullTableDescribes | src/telemetry/db.rs:387-484 | the recomputed table is the only one that has, for each width, one row for every bucket and dimension tuple with events of type `connection_closed`, with the totals of their received bytes, sent bytes, number and seconds |
| Aggregation.UniqueHasNoCollision | src/telemetry/db.rs:289-299 | the recomputed table satisfies the unique index exactly when no two closed events of a day have different dimensions with one `COALESCE` image |
| Aggregation.NullAndEmptyCollide | src/telemetry/db.rs:289-299 | a missing and an empty process name on one day violate the unique index |
| Aggregation.OneOffsetNeverStraddles | src/telemetry/db.rs:801-817 | timestamps with one whole-minute offset never put a minute on both sides of the window, as long as deleted events are older than it |
| Aggregation.EastIsInWindow | src/telemetry/db.rs:816 | at or east of Greenwich stored events up to two minutes old are always in the windows of a run of less than an hour |
| Aggregation.WestLosesTheDaysStart | src/telemetry/db.rs:816 | west of it exactly the first `-offset` seconds of the UTC day are left out |
| Aggregation.WestOfGreenwichExample | src/telemetry/db.rs:816 | an event of 03:00 UTC at UTC-8 is outside the window a minute later, and every run then leaves the empty table empty |
| RollupHistory.RunOnPart | src/telemetry/db.rs:793-871 | what a run does to one UTC day, or to one dimension tuple of it, is a run over that part's events and rows alone: parts do not interact |
| RollupHistory.RunCounts | src/telemetry/db.rs:793-871 | rows only ever count events that were inside the minute window of some run, at every level, even where groups are replaced in part |
| RollupHistory.RunInv | src/telemetry/db.rs:541-558 | over every run, with any retention: each row's measures are the sums over one or more of its group's events seen by earlier runs, and keys stay unique |
| RollupHistory.MissingForGood | src/telemetry/db.rs:793-871 | an event that a level's rows lack and that is deleted or older than the level's window stays missing from them in every later state |
| RollupHistory.PartIsExact | src/telemetry/db.rs:487-564 | for every interleaving of inserts, runs and cleanups, every retention, and every day or dimension tuple of a day not yet dropped: its rows are those recomputed from all its events seen, deleted or not, if and only if every run reached its new events and read none of its minutes in part, and no two of its groups share a key |
| MinuteHistory.MinuteIsExact | src/telemetry/db.rs:795-818 | the same for a single minute row, whatever happened to any other: it is exact if and only if every run read its new events and read its events all or not at all, and no two groups share its key |
| RollupHistory.DayHasRows | src/telemetry/db.rs:880-899 | a day has rows exactly when some run read one of its closed events and no later cleanup dropped the day |
| RollupClocks.DroppedStaysDropped | src/telemetry/db.rs:880-899 | with two days of retention or more no run brings back rows of a day that a cleanup dropped |
| RollupClocks.OneDayRevives | src/telemetry/db.rs:880-899 | with one day a run does: a complete run of three steps after which the table is not the recomputed one |
| RollupHistory.IncrementalRefinesFull | src/telemetry/db.rs:487-564 | for every run, retention and offset the whole table equals the one recomputed from all events seen on the kept days if and only if every kept day met its condition at every run and no dropped day was filled again |
| RollupHistory.LostForGood | src/telemetry/db.rs:793-871 | a closed event that the first run after its insertion does not read is counted by no row at any level in any later state, whatever inserts, runs and cleanups follow and whatever the table was before |
| RollupClocks.EastIsAlwaysMet | src/telemetry/db.rs:789-792 | with one whole-minute offset at or east of Greenwich, at least one day of retention, and runs of less than an hour within two minutes of each closed event, every part meets the condition at every run |
| Aggregation.RerunChangesNothing | src/telemetry/db.rs:789-792 | a second run with no new events reproduces the table exactly when no minute straddles and no keys collide |
| Aggregation.RowsConserve | src/telemetry/db.rs:387-484 | for any selection of groups the rows of a level carry exactly the rx, tx, count and duration of the events in those groups |
| Aggregation.LevelsAgree | src/telemetry/db.rs:387-484 | for each dimension tuple minute, hour and day totals all equal the event totals |
| Aggregation.LevelsAgreeInTotal | src/telemetry/db.rs:387-484 | the same for the whole table |
| TelemetryDb.SumOver | src/telemetry/db.rs:808-811 | summing in any scan order gives the sum |
| TelemetryDb.Database.InsertOrReplace | src/telemetry/db.rs:797-801 | replacing rows one by one in any order leaves one row per key, the new ones where keys coincide, and no other old row changed |
| TelemetryDb.Database.RunAggregation | src/telemetry/db.rs:793-871 | the three statements in sequence, each at its own clock reading, as the relation `RunIsExact` is about; each row written has, column by column, the sums of the events or finer rows it stands for |
| TelemetryDb.Database.RebuildAggregates | src/telemetry/db.rs:387-484 | minute, hour and day passes over a fresh table give the table described by the event columns; the unique index can be created exactly when no keys collide |
| TelemetryDb.Database.RunCleanup | src/telemetry/db.rs:880-914 | an event stays exactly if its local date is not before the cut-off's, or with uploading enabled its id is beyond the cursor, and a row exactly if its bucket is not before that of the second statement's cut-off; with uploading enabled every later upload query has the same answers as before; an exact roll-up stays exact for the remaining days |
| Aggregation.CleanupKeepsTable | src/telemetry/db.rs:895-899 | dropping old rows from the table of some events leaves the table of their events since the cut-off day, at all three levels |
| TelemetryDb.Database.InsertEvent | src/telemetry/db.rs:126 | a new event gets an id above all earlier ones, deleted ones included |
| TelemetryDb.Database.WriteLoop | src/telemetry/db.rs:487-592 | whatever the batch size, the timing and the failures of SQLite, every received event whose insert and transaction succeed is stored once, in arrival order, with ascending ids, and no other |
| TelemetryDb.Database.QueryEventsForUpload | src/telemetry/db.rs:961-1024 | the events beyond the cursor with the smallest ids, in order, up to the limit, and nothing skipped below the last one |
| TelemetryDb.Database.RunOneBatch | src/telemetry/upload.rs:167-222 | the cursor moves to the last id sent when the server accepted, and stays otherwise |
| UploadCursor.StepKeepsInv | src/telemetry/upload.rs:167-222 | every step of writer, uploader and cleaner keeps the cursor invariant, cleanups with uploading disabled included |
| UploadCursor.RetentionNeverOutrunsUpload | src/telemetry/db.rs:880-890 | over every interleaved run, with uploading switched on and off at will: every event up to the cursor and every deleted event was uploaded or was purged beyond the cursor, everything else is still stored, deletion outran no upload exactly if every purged event was uploaded after all, and new ids exceed the cursor |
| UploadCursor.PurgesExactly | src/telemetry/db.rs:885-890 | no event is ever purged exactly if each cleanup, before it deletes, finds no expired event beyond the cursor; with uploading enabled that always holds |
| UploadCursor.NothingIsLost | src/telemetry/db.rs:880-890 | then the cursor skips no event, every deleted event was uploaded, and what is not uploaded is still stored |
| UploadCursor.CleanupFinishes | src/telemetry/db.rs:880-890 | at any point of any run a cleanup with uploading disabled, or one with nothing stored beyond the cursor, leaves exactly the events whose local date is not before the cut-off |
| UploadCursor.EmptyQueryMeansDrained | src/telemetry/upload.rs:177-182 | a round finds nothing exactly when no stored event is beyond the cursor, and then all were uploaded or purged |
| UploadCursor.AdvanceMovesForward | src/telemetry/upload.rs:213-216 | a completed round strictly advances the cursor |
| UploadCursor.DisabledCleanup | src/telemetry/db.rs:885-890 | at any point of any run a cleanup with uploading disabled deletes only uploaded events exactly when every expired event beyond the cursor had been uploaded |
| RangeQuery.StatsRange | src/telemetry/http.rs:1141-1236 | for any table the totals are, bucket by bucket and column by column, the sums of the rows of the named width in the range whose process is one of the named ones, whose interface is the named one and whose class is the named scope, a missing filter or another scope asking nothing |
| RangeQuery.RangeAgreesWithScan | src/telemetry/http.rs:1141-1236 | read from an exact table, for every filter, each bucket's rx, tx, count and duration equal a direct scan of closed events, and the buckets are those the scan would have |
| RangeQuery.RangeOnColumns | src/telemetry/http.rs:1141-1236 | read from an exact table the buckets are the aligned ones of the range with closed events of the named processes, interface and scope, and each carries their received bytes, sent bytes, number and seconds |
| RangeQuery.SumsTellRows | src/telemetry/http.rs:1141-1236 | a bucket's sums agree with those of a scan exactly when each of its rows is the recomputed one and none is missing: the counts give it away |
| RangeQuery.QueryAfterRuns | src/telemetry/http.rs:1141-1236 | over whole runs, bucket by bucket: the answer is that of a scan of all closed events seen, deleted ones included, if and only if the bucket's rows are exact, and they are if the dimension tuples of the scanned events met their conditions, whatever became of others |
| RangeQuery.MinuteQueryExactly | src/telemetry/http.rs:1141-1236 | for minute buckets without key collisions the answer is that of a scan if and only if every run treated each scanned event's own minute row as `MinuteIsExact` asks |
| RangeQuery.SeriesOfBucket | src/telemetry/http.rs:1252-1262 | which process names a bucket's series has and the point each of them ends up with |
| RangeQuery.SeriesAddUp | src/telemetry/http.rs:1252-1328 | the points add up to rx plus tx of the bucket if and only if no process is named `_unknown` there or the unnamed rows moved no bytes |
| RangeQuery.UnknownHidesUnnamed | src/telemetry/http.rs:1252-1328 | beside a process named `_unknown` the bytes of a row without a name are left out of the series |
| Bytes.LeOfValue | src/export/pcapng.rs:164-174 | writing the number that bytes spell gives those bytes back |
| Pcapng.TakeBlockOf | src/export/pcapng.rs:124-131 | a written block reads back with its type and body; the reader insists on a length that is a multiple of four and repeated in the trailer |
| Pcapng.ParseOneOption | src/export/pcapng.rs:137-149 | a padded option reads back with its code and value in front of the remaining options |
| Pcapng.PacketRoundTrip | src/export/pcapng.rs:99-122 | a packet block's body reads back as the timestamp, data, lengths and comment |
| Pcapng.ShbRoundTrip | src/export/pcapng.rs:66-79 | the section header reads back as little-endian version 1.0 of unspecified length with its application name |
| Pcapng.IdbRoundTrip | src/export/pcapng.rs:81-97 | the interface description reads back with link type, snap length, optional name and microsecond resolution |
| Pcapng.SectionHeaderBytes | src/export/pcapng.rs:66-79 | the section header's bytes spelled out: byte-order magic, version 1.0, unspecified length, option 4 |
| Pcapng.InterfaceBytes | src/export/pcapng.rs:81-97 | the interface description's bytes spelled out: link type, snap length, options 2 and 9 with microsecond resolution |
| Pcapng.HeaderOnTheWire | src/export/pcapng.rs:124-131 | both are blocks of types 0x0A0D0D0A and 1 whose length is repeated at the end and a multiple of four |
| Pcapng.PacketOnTheWire | src/export/pcapng.rs:99-131 | a packet's block spelled out: type 6, interface 0, the halves of the time, captured and original length, padded data, option 1 for a comment |
| Pcapng.FileRoundTrip | src/export/pcapng.rs:27-174 | the bytes of a file read back as one header and exactly its packets |
| PcapngWriting.TimestampMicros | src/export/pcapng.rs:54-60 | whole microseconds since the epoch, zero before it, the largest 64-bit value from where they no longer fit |
| PcapngWriting.PacketOfKeeps | src/export/pcapng.rs:99-131 | the packet has the call's data, the larger of its two lengths, its comment unless empty, and its time in microseconds; it is representable exactly if data, comment and padded block fit their length fields |
| PcapngWriting.EnhancedPacket | src/export/pcapng.rs:99-121 | the block body built step by step is the one of the format, and building fails only for an oversize comment |
| PcapngWriting.PcapngWriter.WritePacket | src/export/pcapng.rs:39-47 | a call is accepted exactly when data, comment and padded block fit, and then adds a packet with the call's data, time, comment and larger length; a rejected call adds no byte |
| PcapngWriting.WriteSession | src/export/pcapng.rs:27-174 | after any sequence of calls, rejected ones included, the file parses to the header asked for and to the packets of the calls that fit, each with its call's data, time, comment and the larger of its lengths |
| ExportPipeline.CommentExists | src/app.rs:3582-3653 | a comment is never empty and an attributed connection always has one |
| ExportPipeline.CommentText | src/app.rs:3582-3653 | the comment reads `rustnet process=... pid=...` and the further fields, with spaces between and without what is missing; there is none exactly if all is missing |
| ExportPipeline.Exporter.WriteRecord | src/app.rs:3522-3549 | writing or failing, the departure is added to the trace with the comment its answers determine, and counters and file stay those of the trace |
| ExportPipeline.Exporter.FlushReady | src/app.rs:3479-3502 | a suffix of the queue stays; it is empty, or its head has a key and a later deadline and the last lookup was for it and did not attribute it; a forced flush and one after all deadlines empty it |
| ExportPipeline.Exporter.HandleRecord | src/app.rs:3461-3474 | the record joins the back of the queue, byte accounting stays exact, and the queue is empty or its head was looked up last, unattributed and not yet due |
| ExportPipeline.Exporter.EnforceRetryLimits | src/app.rs:3504-3520 | the limits hold afterwards, and no record was forced out that the limits allowed to stay |
| ExportPipeline.Exporter.Run | src/app.rs:1793-1861 | over the thread's whole life the trace is legal and consists of exactly the tracker's answers; every received record left in arrival order, written if it fits the format or else counted as an error; the file parses to the written ones, each with its record's data, time, larger length and the comment its answers determine; records are forced only after the last arrival; the queue ends empty |
| ExportPipeline.NothingLost | src/app.rs:3461-3520 | in every legal trace what arrived has left or is queued, in arrival order |
| ExportPipeline.AnnotationIsSound | src/app.rs:3553-3593 | a comment was built from a connection returned for the record's own key whose creation time is the record's; a record without a creation time, or all of whose answers have another one, has none; and an answer of its generation with a process or pid, or failing that any second one, does give its comment |
| ExportPipeline.LeavesEarlyAttributed | src/app.rs:3488-3499 | before its deadline a keyed record leaves an unforced flush only with its attribution as comment |
| ExportPipeline.SettledSince | src/app.rs:1793-1861 | when a record arrives to a queue that is not empty, the last flush had stopped at its front and only evictions followed |
| ExportPipeline.EvictedOverLimits | src/app.rs:3504-3520 | the limits force out only the oldest record, and only from more than 10 000 records or 64 MiB |
| ExportPipeline.CountersMatchFile | src/app.rs:3530-3548 | the written, annotated and unannotated counters equal the packets of the file with and without a comment |
| Histories.WindowStartIsUnique | src/app.rs:2481-2489 | the window condition names one sample only |
| Histories.InterfaceWindow.Poll | src/app.rs:2479-2495 | the kept samples are a suffix of those seen since the last clear; what is dropped is followed by a sample at least 60 s old and the second one kept is younger; with non-decreasing timestamps the front is the newest sample at least 60 s old, or the first sample if there is none |
| Histories.LastGenerationIsLongest | src/app.rs:767-774 | the samples a ring may hold are the longest suffix of pushes with one creation time |
| Histories.ConnRateHistory.PushForGeneration | src/app.rs:761-791 | after any pushes both rings have equal length and hold the last samples of that suffix |
| SnapshotPublication.RunInv | src/app.rs:2355-2359 | in every interleaving the remembered generation never exceeds the list the UI shows |
| SnapshotPublication.SkippedTickIsUpToDate | src/main.rs:2540-2567 | a tick that skips the refresh shows a list at least as new as the last publication completed when it read the generation |
| WorkerCap.CapHolds | src/telemetry/http.rs:171-204 | in every interleaving the counter is live plus crashed workers plus at most one being spawned, and never above 32 |
| WorkerCap.ExactWithoutPanics | src/telemetry/http.rs:171-204 | without panics the counter is exactly the live workers plus the one being spawned |
| WorkerCap.CrashesBlockForever | src/telemetry/http.rs:182-195 | after 32 panics no request is admitted any more |
| WorkerCap.AdmitsUnlessAllCrashed | src/telemetry/http.rs:171-204 | from every reachable state some continuation admits a request if and only if fewer than 32 workers have panicked |
| WorkerCap.CrashRun | src/telemetry/http.rs:182-195 | for every number of panics up to 32 there is a run with that many and nothing else going on |
| BootstrapCodes.CodeBox.Issue | src/telemetry/http.rs:128-140 | a new code becomes redeemable and no other code changes |
| BootstrapCodes.CodeBox.Redeem | src/telemetry/http.rs:2514-2534 | over any history, clocks read before the lock included, a code is accepted exactly when it was issued, not redeemed before and younger than the lifetime now and at every earlier sweep; the unexpired others stay, as a multiset |
| BootstrapCodes.SwapRemoveKeepsTheOthers | src/telemetry/http.rs:2524 | removing by swapping loses and duplicates nothing |
| BootstrapCodes.RetainMembers | src/telemetry/http.rs:2521 | the sweep keeps exactly the live codes, and distinct codes stay distinct |
| Cgroup.CanonicalForm | src/network/kubernetes.rs:586-612 | hyphenated, underscored and bare spellings in any letter case have one canonical UID |
| Cgroup.CanonicalizeTwice | src/network/kubernetes.rs:586-612 | canonicalizing is idempotent |
| Cgroup.AcceptedUids | src/network/kubernetes.rs:586-636 | exactly 32 hex digits, or five groups of them with hyphens or underscores between, are accepted, and the result is lower-case with hyphens |
| Cgroup.LastMarker | src/network/kubernetes.rs:571-581 | whatever precedes it, the last `pod` of a segment is the marker before the UID |
| Cgroup.ShortSegment | src/network/kubernetes.rs:571-581 | a segment shorter than 35 characters never yields a UID |
| Cgroup.SegmentWithoutMarker | src/network/kubernetes.rs:571-581 | nor does one without a `p`, such as a bare container id of any length |
| Cgroup.PodSegmentParses | src/network/kubernetes.rs:571-581 | a pod segment in any spelling, with or without `.slice`, yields the canonical UID |
| Cgroup.PodScopeParses | src/network/kubernetes.rs:571-581 | likewise with `.scope`, and with `.slice` after it |
| Cgroup.TrimEndIsDone | src/network/kubernetes.rs:577-579 | trimming removes a suffix as often as it is there |
| Cgroup.ContainerSegmentParses | src/network/kubernetes.rs:638-654 | a container segment with any runtime prefix, with or without `.scope`, yields the lower-case id |
| Cgroup.ContainerIdShape | src/network/kubernetes.rs:638-654 | every container id found has at least 32 characters, all lower-case hex |
| Cgroup.FirstPodWins | src/network/kubernetes.rs:43 | the pod is that of the first segment that names one, and there is none exactly if no segment does |
| Cgroup.LastContainerWins | src/network/kubernetes.rs:44 | the container is that of the last segment that names one |
| Cgroup.FirstPodLineWins | src/network/kubernetes.rs:38-41 | the first line whose path mentions `kubepods` decides, and without one there is no answer |
| Cgroup.PathWithoutColons | src/network/kubernetes.rs:562-565 | a line with fewer than two colons is its own path |
| Cgroup.ReturnsAreDropped | src/network/kubernetes.rs:38-39 | lines may end in carriage return and newline; a return at the end of the file stays |
| Cgroup.PathRoundTrip | src/network/kubernetes.rs:37-51 | a pod path below any segments that yield no UID themselves gives back its pod and container |
| Cgroup.ContentsRoundTrip | src/network/kubernetes.rs:37-51 | so does the whole file, with any non-pod lines before, empty or ended by a carriage return included, and any lines after |
| Cgroup.SystemdLayout | src/network/kubernetes.rs:8-9 | for every QoS class, UID, runtime and container id the systemd layout parses to them, below any outer segments and among any other lines |
| Cgroup.UnifiedLayout | src/network/kubernetes.rs:10-11 | the same for the unified layout |
| ProcNet.FillIpv6 | src/network/kubernetes.rs:546-557 | filling the byte array word by word gives the recursive definition, failing where it fails |
| ProcNet.ParseWords | src/network/kubernetes.rs:534-557 | words printed with `%08X` on a little-endian host parse back to the network-order bytes |
| Text.ParseHexExactly | src/network/kubernetes.rs:513-531 | printed hex digits give their number, or nothing if it exceeds the bound |
| ProcNet.MappedIsIpv4 | src/network/kubernetes.rs:517-524 | `::ffff:a.b.c.d` becomes `a.b.c.d` and no other address changes |
| ProcNet.ParseEndpoint | src/network/kubernetes.rs:513-531 | a printed endpoint parses back, IPv4-mapped addresses as IPv4 |
| ProcNet.LineRoundTrip | src/network/kubernetes.rs:497-510 | every printed line parses to its two normalised endpoints |
| ProcNet.Build | src/network/kubernetes.rs:368-395 | the table gives each socket to the first process that lists it |
| ProcNet.OwnerIsFirst | src/network/kubernetes.rs:386-390 | that is the process of the first entry that parses to the socket, and there is none exactly if no entry does |
| ProcNet.PrintedSocketIsFound | src/network/kubernetes.rs:412-436 | a socket the kernel printed is found from either orientation, with the owner of the reverse tuple preferred only when there is one |
| QueryString.UrlDecode | src/telemetry/http.rs:2298-2317 | the loop computes the recursive decoding |
| QueryString.DecodesByPiece | src/telemetry/http.rs:2298-2317 | a plus sign decodes to a space, an escape of two hex digits to the character of that code, and any other escape or character to itself |
| QueryString.QueryBetweenMarks | src/telemetry/http.rs:2283-2295 | the query is the text between the first question mark and the second, if there is one |
| QueryString.PairAtFirstEquals | src/telemetry/http.rs:2283-2295 | a piece is split at its first equals sign and ignored without one |
| QueryString.ParseQueryParams | src/telemetry/http.rs:2283-2295 | the map holds the last value of each decoded key |
| QueryString.ParseQueryParam | src/telemetry/http.rs:2494-2504 | the answer is the first value of the decoded key |
| QueryString.ParsersAgree | src/telemetry/http.rs:2494-2504 | with distinct keys both parsers agree on every key |
| QueryString.FirstAndLast | src/telemetry/http.rs:2283-2317 | for every list of pairs and every key one parser answers with the first of its values, the other with the last |
| QueryString.AgreeExactly | src/telemetry/http.rs:2494-2504 | for every URL and key the parsers agree if and only if the key's first and last value are equal or it has none |
| QueryString.RepeatedKey | src/telemetry/http.rs:2494-2504 | printed URLs with one key and two values on which they disagree whenever the values differ |
| QueryString.DecodeUndoesEncode | src/telemetry/http.rs:2298-2317 | decoding undoes percent-encoding of ASCII text |
| QueryString.UrlRoundTrip | src/telemetry/http.rs:2283-2317 | any ASCII pairs printed into a URL are parsed back in order |
| QueryString.MapRoundTrip | src/telemetry/http.rs:2283-2317 | any ASCII map printed in any key order is parsed back |
| PcapMatch.LoadConnections | scripts/pcap_enrich.py:53-102 | the index files each usable record under both orientations, in file order |
| PcapMatch.FiledAreTheirs | scripts/pcap_enrich.py:53-102 | under a tuple stand exactly the records that have a protocol and both addresses and are that tuple in either direction |
| PcapMatch.DistanceToLife | scripts/pcap_enrich.py:137-142 | the score is zero inside a connection's life and else the time to its nearer end |
| PcapMatch.IndexIsSymmetric | scripts/pcap_enrich.py:86-90 | a tuple and its reverse have equal lists |
| PcapMatch.FindMatchingConnection | scripts/pcap_enrich.py:105-149 | the answer is the first connection of least distance among those whose life widened by the slack contains the packet's time, else the first without both times, and none exactly if every connection has both times and is outside |
| PcapMatch.AnswerIsUnique | scripts/pcap_enrich.py:105-149 | that description fixes the answer, and there is one exactly when some connection is in slack or untimed |
| PcapMatch.EnrichBothWays | scripts/pcap_enrich.py:105-149 | a packet and its reply at one time get the same connection |

## Left out

- SQLite itself, WAL, VACUUM, `interface` and `dest_class` schema migration, and reachability probes. Sums are unbounded; SQLite would raise an error on 64-bit overflow.
- TelemetryDb.Database.WriteLoop: which inserts and transactions fail is an input. Aggregation and cleanup timers are the steps of `RollupHistory.Step` instead.
- The histories of the roll-up take a wall clock that is never set back. A statement of a run or a cleanup that fails ends it early in the program; in the model all of them take effect.
- `insert_event`'s record switches: which optional columns are stored. The `interface` column is a dimension of the table although `insert_event` never fills it.
- RangeQuery.StatsRange: bounds that do not parse as RFC 3339, the truncated text of bucket names, and the JSON layout. The `5s` path, which compares raw local texts, is not modelled.
- RangeQuery.SeriesOfBucket: that SQLite sorts NULL before every name in `GROUP BY` is taken from SQLite.
- RangeQuery.RangeAgreesWithScan: the scan uses the stored destination class; `classify_dest` is not part of this model.
- The calendar in `SqlText` is Gregorian for years 0 to 9999; leap seconds are not modelled.
- PcapngWriting.PcapngWriter.WritePacket: I/O errors of the file. A sink that fails part-way through a block is not modelled, nor is the final flush error.
- The export channel's bound of 10 000 records and the queued and dropped counters, and the choice of link type at start-up.
- ExportPipeline.CommentExists: process name and pid are modelled as fields, the further fields as already printed text; UTF-8 and `sanitize_comment_value` are not modelled.
- The 64-bit wrap-around of the export counters and the reset of counters and snapshot by `clear_all_connections`.
- SnapshotPublication.SkippedTickIsUpToDate: the generation counter has not wrapped around; a poisoned lock, which skips a publication, is the absence of its steps.
- Graph scales, `traffic_since`, interface rates and the removal of vanished interfaces other than as a clear.
- Session cookies issued after a redeemed code (BLAKE3), CORS, routing and the other statistics handlers.
- Pod names from kubelet log directories, and reading `/proc`. Text outside ASCII in paths and socket lines.
- PcapMatch.FindMatchingConnection: times are exact reals, not floating point; reading captures and JSON, and upper-casing the protocol name.
- Capture set-up, privileges, the terminal UI, the tray and auto-start.
