# Verification of the bbts file distributor's core

A BitTorrent-based file distributor, as Dafny models of the code that carries its hardest promises, with proofs about them.

- **HDFS piece scheduler** (`PieceScan.dfy`, `ClusterWorkers.dfy`, `ClusterRuns.dfy`, `ClusterProgress.dfy`,
  `ThreadCap.dfy`): worker threads share two bitmaps, a queue of hash-failed pieces, a mutex and a condition variable.
  `PieceScan` is the shared object with its methods; `ClusterWorkers` is a transition system whose steps are the mutex
  regions of any number of threads, with a torrent that changes under them, pushes and notifications that are separate
  steps, spurious wake-ups, and a stop flag that rises at any moment; `ClusterRuns` is what holds in every run of it,
  `ClusterProgress` what threads can and cannot still do. `ThreadCap` is the dispatcher that starts threads under a
  global cap; a thread exists before it is counted and may end before it is counted.
- **Pre-allocation** (`PieceLayout.dfy`, `PreAllocate.dfy`): files of arbitrary size over fixed-size pieces, chunked
  allocation, and the opening of pieces behind it, whichever call fails.
- **GroupConfig codec** (`Varint.dfy`, `GroupConfFields.dfy`, `GroupConfTables.dfy`, `GroupConfWire.dfy`,
  `GroupConf.dfy`, `GroupConfBytes.dfy`): the generated message class over its 41 fields. What the generated code
  spells out separately (the schema, the parser's cases, both serializers, the size pass, three lists of defaults) are
  separate tables here, and they are proved to agree. Varints, tags and merging follow the Protocol Buffers encoding
  ("Base 128 Varints", "Message Structure", "Last One Wins").
- **Text writers and readers of the SQLite shell** (`SqlQuote.dfy`, `ShellArgs.dfy`, `ShellInPlace.dfy`,
  `ShellLine.dfy`, `CsvText.dfy`, `CsvImport.dfy`, `TablesLayout.dfy`): byte buffers changed in place, and the round
  trips between writer and reader. CSV quoting is that of section 2 of RFC 4180 with LF line ends.
- **Piece assembly from HDFS** (`HdfsRead.dfy`): one buffer filled from file slices under any schedule of short reads.
- **Registry** (`TaskRegistry.dfy`): the two maps and the finished list of the group manager.

`Basics.dfy`, `ByteSeq.dfy` and `Division.dfy` hold what several of them need. Code that changes things step by step is
a class or a method here, proved against a specification function or predicate; the lemmas then say what that
specification means.

## Findings

- The CSV round trip holds for every one-byte separator except the two that GoodSeparator names, a double quote and a
  newline, and for each of those some table is lost (`CsvText.RoundTripsIff`).
- The comment at the final sweep of the pre-allocation ("ensure all piece can be download") is not met in every case.
  A wanted file that is freshly allocated inside a single piece, or is padding, opens nothing itself, and the sweep starts
  at the last piece of the last processed file. `PreAllocate.AllWantedOpenedIff` gives the exact condition on the list
  of files, `PreAllocate.SmallFileNeverOpened` a case where every call succeeds and piece 0 stays closed.
- `<=` in the opening loop opens the frontier piece too, and that piece is never fully allocated when it is opened
  (`PreAllocate.AllocateFile`).
- A download thread that ends before it is counted leaves the thread counter one too high for good, at most once in the
  life of the process (`ThreadCap.CounterConservation`, `ThreadCap.LeakHappens`); the cap is exceeded by at most one,
  and that bound is reached (`ThreadCap.ThreadCapHolds`, `ThreadCap.BoundIsReached`), exactly by a creation with the
  counter at the cap before any decrement was skipped (`ThreadCap.CapPassedIff`).
- What `.show` prints for a separator restores it with `.separator` exactly when it holds no double quote: the printer
  does not escape that byte (`ShellArgs.SeparatorRestored`).
- The unescaper steps over the terminator of an argument that ends in an odd number of backslashes
  (`ShellInPlace.StaysInsideIff`). For a line this happens exactly when such an argument stands outside single quotes
  (`ShellInPlace.SplitSafeIff`): the next argument is moved and lost (`ShellInPlace.LoneBackslashLosesArgument`), or the
  cursor leaves the buffer (`ShellInPlace.LastBackslashLeavesBuffer`).
- The line reader's line is the plain one exactly when that holds no NUL byte (`ShellLine.ReadsPlainLineIff`); a NUL
  byte makes it lose the rest of that line and join it with the next (`ShellLine.NulJoinsLines`).
- A hash-failed piece that a thread took from the queue is forgotten when the thread fails to read it, even if the
  thread goes on: it goes back to no queue (`ClusterRuns.ForgottenIff`, `ClusterRuns.HashFailedPiecesAccounted`).
- Asking for the options of an unknown infohash leaves a null entry in the registry that makes every later add of that
  infohash fail (`TaskRegistry.NullEntryBlocks`); a re-key onto a registered infohash drops the moved entry from one map
  only (`TaskRegistry.RekeyKeepsInvIff`).

## Model

| member | source | states |
|---|---|---|
| PieceScan.GroupClusterTask.StartDownload | gko-src/group/group_cluster_task.cpp:87-102 | afterwards a piece counts as had exactly if it did before or its priority is zero; the marks keep their values; the thread number is capped by the piece count but not below 3 |
| PieceScan.GroupClusterTask.GetUndownloadedPiece | gko-src/group/group_cluster_task.cpp:125-148 | from any start: the first piece in cyclic order neither had nor marked, else the last marked one not had, else -1; the bitmap gains exactly the pieces the torrent reported on the way; the torrent is asked exactly about the pieces the bitmap lacks up to the result, in cyclic order and once each |
| PieceScan.ScanDeterministic | gko-src/group/group_cluster_task.cpp:125-148 | the scan's specification admits one result and one new bitmap only |
| PieceScan.WalkIs | gko-src/group/group_cluster_task.cpp:131-146 | the positions go up by one from the start, modulo the number of pieces, each once |
| PieceScan.ScanAlongWalk | gko-src/group/group_cluster_task.cpp:125-148 | along the walk: the first position that is neither had nor marked; if there is none, the last one not had; -1 exactly if there is none of those either |
| PieceScan.ScanExhausted | gko-src/group/group_cluster_task.cpp:125-148 | -1 exactly when all pieces are had afterwards; pieces are only added, and only ones the torrent has |
| PieceScan.ReissueOnlyWhenNothingFree | gko-src/group/group_cluster_task.cpp:137-147 | a marked piece is handed out exactly when something is missing and everything missing is marked |
| PieceScan.GroupClusterTask.GetPieceToDownload | gko-src/group/group_cluster_task.cpp:150-172 | in scan mode the last piece loses its mark and the scanned one gets one, all other marks stay; the mode is left exactly when every piece is had after the scan, for good; then the piece is the front of the hash-failed queue, which moves up, or -1 if that is empty |
| PieceScan.PickExists | gko-src/group/group_cluster_task.cpp:150-172 | in every state and for all answers of the torrent a pick has a result |
| PieceScan.GroupClusterTask.AddHashFailedPiece | gko-src/group/group_cluster_task.h:56-62 | the piece joins the end of the queue and nothing else changes |
| ClusterWorkers.NextInv | gko-src/group/group_cluster_task.cpp:179-266 | every step of any thread, of the torrent, of an alert or of the stop flag keeps the invariant |
| ClusterWorkers.PickKeepsMarks | gko-src/group/group_cluster_task.cpp:150-172 | a pick leaves every mark with a scan-mode holder and, until a marked piece has been handed out, holders distinct and marks exact |
| ClusterWorkers.PickKeepsWakeups | gko-src/group/group_cluster_task.cpp:201-206 | a pick, or falling asleep after it, leaves no queued piece without a wake-up on its way while anyone sleeps |
| ClusterRuns.MarkedPiecesAreHeld | gko-src/group/group_cluster_task.cpp:150-160 | in every run a marked piece is held by a scan-mode thread, which has exited only if the stop flag is up |
| ClusterRuns.DistinctUntilReissue | gko-src/group/group_cluster_task.cpp:125-172 | in every run, until a marked piece is handed out, scan-mode threads hold distinct pieces and the marks are exactly the held pieces |
| ClusterRuns.FirstReissueIsForced | gko-src/group/group_cluster_task.cpp:137-147 | the first hand-out of a marked piece is a pick of a thread for which every piece still missing was held by another thread |
| ClusterRuns.NoLostWakeup | gko-src/group/group_cluster_task.h:56-62 | in every run, while anyone sleeps, queued pieces are at most the notifications still to be sent plus the threads woken and not yet rechecked; with none of either the queue is empty |
| ClusterRuns.HashFailedModeJustified | gko-src/group/group_cluster_task.cpp:150-172 | if the torrent never loses a piece, then once any thread is in hash-failed mode or asleep, every piece of non-zero priority is had |
| ClusterRuns.NeverLost | gko-src/group/group_cluster_task.cpp:133-136 | a run whose torrent only grows keeps the history flag down and the wanted pieces fixed |
| ClusterRuns.ModeIsOneWay | gko-src/group/group_cluster_task.cpp:163-164 | a thread that has switched to hash-failed mode stays in it for the rest of the run |
| ClusterProgress.NoWorkAfterStop | gko-src/group/group_cluster_task.cpp:192-209 | in every run, once the stop flag is up it stays up; from then on a thread that is not reading never reads again, one that is awake never falls asleep, and one that is about to test the flag never picks |
| ClusterProgress.QueueIsFifo | gko-src/group/group_cluster_task.cpp:167-171 | a step leaves the queue alone, adds one piece behind its end, or hands its front to a hash-failed-mode thread |
| ClusterProgress.NobodyIsStuck | gko-src/group/group_cluster_task.cpp:181-268 | in every state that satisfies the invariant each thread that has not exited can take a step of its own |
| ClusterProgress.ReadEnds | gko-src/group/group_cluster_task.cpp:211-245 | a read ends in exactly these ways: handed over and on, handed over and out if the flag is up, dropped and retried, dropped with the flag raised and out |
| ClusterProgress.EnvironmentIsFree | gko-src/group/group_cluster_task.h:56-62 | in every state a hash-failed piece can be pushed, the torrent can change to anything, the flag can rise and a thread can be started |
| ClusterRuns.ReadsOnlyWantedPieces | gko-src/group/group_cluster_task.cpp:200-215 | what a thread reads is a piece of the torrent and, in scan mode, one of non-zero priority |
| ClusterRuns.HashFailedPiecesAccounted | gko-src/group/group_cluster_task.cpp:167-171 | in every run each push of a hash-failed piece is queued, in the hand of one thread, handed over again, or forgotten: the counts agree for every piece |
| ClusterRuns.ForgottenIff | gko-src/group/group_cluster_task.cpp:207-236 | a step forgets a hash-failed piece exactly when the thread that took it fails to read it or gets a wrong hash, retried or not, or sees the stop flag before reading |
| ClusterRuns.NothingForgotten | gko-src/group/group_cluster_task.cpp:207-236 | in a run without such a step no hash-failed piece is forgotten |
| ThreadCap.ClusterQueue.PushClusterThreadQueue | gko-src/group/group_manager.cpp:962-967 | the entry joins the end of the queue, the counter stays (meaning: CounterConservation, ThreadCapHolds) |
| ThreadCap.ClusterQueue.DeleteClusterThreadNum | gko-src/group/group_manager.cpp:1055-1060 | the counter falls by one unless it is zero (meaning: CounterConservation, ThreadCapHolds) |
| ThreadCap.ClusterQueue.TakeTask | gko-src/group/group_manager.cpp:1071-1089 | an entry is taken exactly below the cap from a non-empty queue, and it is the front; otherwise nothing changes (meaning: CounterConservation, ThreadCapHolds) |
| ThreadCap.ClusterQueue.CountThread | gko-src/group/group_manager.cpp:1107-1117 | the counter rises by one; exactly if it is above the cap then, the entry is put back at the end of the queue and the loop ends; otherwise the queue stays (meaning: TasksConserved, ThreadCapHolds) |
| ThreadCap.ReachesInv | gko-src/group/group_manager.cpp:1062-1120 | in every reachable state the counter is between 0 and cap + 1 and accounts for the live threads |
| ThreadCap.CounterConservation | gko-src/group/group_manager.cpp:1055-1117 | counter plus the one thread created but not counted equals live threads plus skipped decrements, and at most one decrement is ever skipped; so live threads never exceed counter plus one uncounted |
| ThreadCap.TasksConserved | gko-src/group/group_manager.cpp:1062-1120 | in every run the pushes of a task are its occurrences in the queue, plus one if the dispatcher holds it, plus the times it was let go: none is lost or doubled |
| ThreadCap.DismissedIff | gko-src/group/group_manager.cpp:1090-1119 | a step lets a task go exactly when the dispatcher drops it or ends its loop between two threads; passing the cap never does |
| ThreadCap.TakesTheFront | gko-src/group/group_manager.cpp:1071-1089 | a task is taken exactly by an idle dispatcher below the cap from a non-empty queue, and it is the front |
| ThreadCap.EnabledIff | gko-src/group/group_manager.cpp:1090-1119 | a push is always possible; a dispatcher in its loop can drop the task, create a thread or end the loop, one that has created a thread can count it, and any live thread can end: never otherwise |
| ThreadCap.CountAtCap | gko-src/group/group_manager.cpp:1107-1117 | counting a thread past the cap leaves its task as the last of the queue and the dispatcher idle; below the cap the queue stays and the task stays in hand |
| ThreadCap.ThreadCapHolds | gko-src/group/group_manager.cpp:1105-1117 | with a fixed cap N never more than N + 1 live threads, and never more than N after a skipped decrement |
| ThreadCap.CapPassedIff | gko-src/group/group_manager.cpp:1105-1117 | in a run the number of live threads passes the cap exactly by creating a thread while the counter stands at the cap and no decrement has ever been skipped |
| ThreadCap.CreateBelowCap | gko-src/group/group_manager.cpp:1105-1117 | a thread is never created while more than cap are live, and the creation passes the cap exactly when the counter stands at it and no decrement was skipped |
| ThreadCap.SkippedDecrement | gko-src/group/group_cluster_task.cpp:264-268 | a decrement is skipped exactly when the only live thread ends before it has been counted and none was skipped before |
| ThreadCap.LeakIsPermanent | gko-src/group/group_manager.cpp:1055-1060 | after a skipped decrement every step leaves the counter one above the threads it should count |
| ThreadCap.BoundIsReached | gko-src/group/group_manager.cpp:1105-1117 | for every cap of at least one, some run leaves cap + 1 threads live |
| ThreadCap.LeakHappens | gko-src/group/group_manager.cpp:1105-1110 | some run ends with no live thread and the counter at one |
| PieceLayout.FilesInOrder | gko-src/group/group_task.cpp:1014-1015 | a file starts no earlier than the piece and the byte where any earlier file ends |
| PieceLayout.CoversIff | gko-src/group/group_task.cpp:1014-1015 | a file covers a piece exactly if some byte of the file lies in it |
| PreAllocate.SetOrgPieces | gko-src/group/group_task.cpp:836-859 | a bit is set exactly if it was before or some wanted file covers the piece; an empty torrent has one bit |
| PreAllocate.AllocateFile | gko-src/group/group_task.cpp:1043-1085 | the calls and publications of a file alternate strictly: chunks are contiguous, each full unless the file ends, none after a failure; the priorities published behind a chunk open the file's pieces up to the frontier and nothing else, the frontier lies within the file, every byte before the frontier piece has been accepted and that piece itself is not complete; in the end all the file's pieces are open if it spans two or more, else none, whatever fails |
| PreAllocate.FrontierFacts | gko-src/group/group_task.cpp:1066-1072 | after whole chunks the frontier piece is within the file, all the file's bytes in earlier pieces lie below the current offset |
| PreAllocate.AllocatedExactly | gko-src/group/group_task.cpp:1045-1064 | the bytes covered by accepted calls are exactly those below (number of accepted calls) * (chunk length) |
| PreAllocate.ChunksDisjoint | gko-src/group/group_task.cpp:1045-1064 | no byte is asked for by two calls |
| PreAllocate.CountChunks | gko-src/group/group_task.cpp:1045-1064 | at most ceil(size / chunk) calls, and exactly that many when none fails |
| PreAllocate.OpenRange | gko-src/group/group_task.cpp:1068-1070 | exactly the priorities in the range become 1 |
| PreAllocate.PreAllocateThread | gko-src/group/group_task.cpp:982-1097 | share mode is left and the files' priorities are set first of all; then the zero vector is published; then come, file by file up to the first that cannot be opened, the events of each turn: nothing for an unwanted or padding file, one vector for a complete one, and for any other the alternation of chunks (dynamic_allocate pieces long, 50 if that is not positive) and vectors; the sweep's vector comes last. The final priorities are 1 exactly on the pieces of processed wanted files that were complete on disk or span two pieces, and on the wanted pieces from the last processed file's last piece on, 0 elsewhere; nothing published from the zero vector on opens any other piece |
| PreAllocate.FileReserved | gko-src/group/group_task.cpp:1043-1085 | in the turn of a wanted, incomplete, real file that can be opened a byte is reserved exactly if it lies below the accepted calls times the chunk length; if the calls for the file succeed, every byte of it is |
| PreAllocate.NothingElseReserved | gko-src/group/group_task.cpp:1009-1035 | in the turn of any other file nothing is reserved, and unwanted and padding files change no priority |
| PreAllocate.FrontierIs | gko-src/group/group_task.cpp:1066-1072 | the vector published behind a chunk opens the file's pieces through the one that holds the first byte not yet reserved, and leaves the others as they were |
| PreAllocate.StopFromIs | gko-src/group/group_task.cpp:1034-1042 | the files dealt with are those before the first wanted, incomplete, real one that cannot be opened |
| PreAllocate.OpenedOnlyWanted | gko-src/group/group_task.cpp:1088-1096 | no piece outside the wanted ones is opened, whichever call fails |
| PreAllocate.AllWantedOpenedIff | gko-src/group/group_task.cpp:1088-1096 | every wanted piece ends up open, whatever the file system does, exactly when each piece of a wanted file that is padding or inside one piece is shared with a wanted real file over two pieces, or no wanted real file ends in a later piece: a condition on the list of files alone |
| PreAllocate.SafeLayoutOpensAll | gko-src/group/group_task.cpp:1078-1096 | in such a layout every wanted piece is open in the end, whichever call fails |
| PreAllocate.ExactWhenNoSmallFiles | gko-src/group/group_task.cpp:1088-1096 | if every wanted file is real and complete on disk or spans two pieces, the opened pieces are exactly the wanted ones, whichever call fails |
| PreAllocate.SmallFileNeverOpened | gko-src/group/group_task.cpp:1078-1096 | two files over pieces of 4 bytes for which every call succeeds and the first piece, though wanted, stays closed |
| HdfsRead.MapBlockSize | gko-src/plugin/hdfstool.cpp:30-30 | slices of a range inside the torrent add up to its length |
| HdfsRead.SlicesTileRange | gko-src/plugin/hdfstool.cpp:30-33 | if its slices are there to be read, put together they are that range of the concatenated files, zeros for padding, whatever the other files hold |
| HdfsRead.ReadSlice | gko-src/plugin/hdfstool.cpp:50-67 | reads only a file that is open; 0 means the slice's bytes are in the buffer; -2 only behind a read that failed, -3 only behind one that returned nothing; if no read fails or stalls the result depends on the file's length only; nothing outside the slice is written |
| HdfsRead.ReadEntry | gko-src/plugin/hdfstool.cpp:31-69 | after success the buffer holds one slice more; -1 exactly if the file does not open; a padding slice asks the cluster for nothing, any other opens its file and closes it before returning |
| HdfsRead.GetFileContents | gko-src/plugin/hdfstool.cpp:25-71 | on success the first piece_size bytes are the piece's range of the torrent and each slice was readable; bytes past the piece are untouched; opens and closes are paired on every return; if every read makes progress the code returned is that of the first unreadable slice |
| HdfsRead.ReadableIfZero | gko-src/plugin/hdfstool.cpp:35-66 | the outcome is 0 exactly when every slice is padding, or opens and lies within its file |
| HdfsRead.OutcomeIs | gko-src/plugin/hdfstool.cpp:35-66 | the first slice that cannot be read decides: -1 if its file does not open, -3 if its file is too short |
| HdfsRead.SuccessIsThePiece | gko-src/plugin/hdfstool.cpp:25-71 | if the slices of a piece are there to be read, their bytes are the piece's range of the torrent; files outside the piece may be short or missing |
| Varint.DecodeEncoded | gko-src/group/GroupConf.pb.cc:427-430 | reading a varint gives back the value written, wherever it stands |
| Varint.EncodedDigits | gko-src/group/GroupConf.pb.cc:1345-1347 | byte i of an encoding holds the value's base-128 digit i in its low seven bits, and its high bit is set exactly if another byte follows |
| Varint.DecodesIff | gko-src/group/GroupConf.pb.cc:427-430 | a varint can be read exactly when one of the next ten bytes is in the input and has a clear high bit |
| Varint.DecodedDigits | gko-src/group/GroupConf.pb.cc:427-430 | the base-128 digits of what is read, whoever wrote it, are the low seven bits of the bytes read |
| Varint.ReadEncoded | gko-src/group/GroupConf.pb.cc:427-430 | either reader gets back an encoded 64-bit value, the 32-bit one its low half |
| Varint.Int32RoundTrip | gko-src/group/GroupConf.pb.cc:1104-1106 | an int32 goes out as a 64-bit value congruent to it modulo 2^64, and every one survives that and the cut back to 32 bits |
| Varint.VarintSize32Exact | gko-src/group/GroupConf.pb.cc:1595-1600 | the size thresholds give the number of bytes written |
| Varint.Int32SizeExact | gko-src/group/GroupConf.pb.cc:1595-1600 | the size of an int32 field is the number of bytes written, ten for every negative value |
| Varint.WriteVarintToArray | gko-src/group/GroupConf.pb.cc:1345-1347 | the varint's bytes stand at the position, nothing else changes |
| GroupConfFields.TagTable | gko-src/group/GroupConf.pb.cc:421-1083 | the parser's switch finds every field by its own tag, and the size pass adds the right number of tag bytes |
| GroupConfFields.ExpectTagTable | gko-src/group/GroupConf.pb.cc:434-1065 | each literal of the fast path is the tag of the field it leads to |
| GroupConfFields.DefaultFits | gko-src/group/GroupConf.pb.cc:235-283 | every default has its field's kind |
| GroupConfTables.SchemaTable | gko-src/group/GroupConf.proto:3-49 | numbers, kinds and defaults of the schema, field by field, are those the model uses everywhere |
| GroupConfTables.CasesTable | gko-src/group/GroupConf.pb.cc:421-1083 | each case of the parser's switch stands under the schema's number, tests the wire type of the schema's kind and reads a value of that kind |
| GroupConfTables.SwitchIff | gko-src/group/GroupConf.pb.cc:420-1092 | the switch goes to a field exactly on that field's number together with that wire type; any other tag is an unknown field |
| GroupConfTables.StreamWritesTable | gko-src/group/GroupConf.pb.cc:1101-1340 | each call in the stream serializer has the schema's number and kind |
| GroupConfTables.ArrayWritesTable | gko-src/group/GroupConf.pb.cc:1342-1589 | each call in the array serializer has the schema's number and kind |
| GroupConfTables.SizesTable | gko-src/group/GroupConf.pb.cc:1591-1880 | each summand of the size pass has the tag length of the schema's number and the payload of its kind |
| GroupConfTables.ConstructedTable | gko-src/group/GroupConf.pb.cc:235-283 | each value the constructor assigns is the schema's default |
| GroupConfTables.ClearedTable | gko-src/group/GroupConf.pb.cc:331-415 | so is each value that Clear assigns |
| GroupConfTables.UnsetTable | gko-src/group/GroupConf.pb.h:561-1712 | and each that a clear_x member assigns |
| GroupConfWire.SkipFieldWritten | gko-src/group/GroupConf.pb.cc:1090-1091 | an unknown field, nested groups included, is read back as it was written |
| GroupConfWire.ParseMerges | gko-src/group/GroupConf.pb.cc:417-1099 | parsing a serialized message anywhere in the input merges it into what was there |
| GroupConfWire.ParseSerialized | gko-src/group/GroupConf.pb.cc:417-1099 | parse undoes serialize for every valid message, unknown fields included |
| GroupConfWire.ParseConcatenation | gko-src/group/GroupConf.pb.cc:417-1099 | parsing two serialized messages one after the other gives the first merged with the second |
| GroupConfWire.MergedIsMergedFrom | gko-src/group/GroupConf.pb.cc:1906-2044 | merging field by field is "last one wins", each field on its own |
| GroupConfWire.ParseKeepsValid | gko-src/group/GroupConf.pb.cc:417-1099 | from any input the parser builds only valid messages |
| GroupConfWire.ReparseIsStable | gko-src/group/GroupConf.pb.cc:417-1099 | whatever was parsed from any input survives being written and parsed again |
| GroupConfWire.MergedFresh | gko-src/group/GroupConf.pb.cc:2052-2056 | merging into a fresh message copies |
| GroupConf.GroupConfig.constructor | gko-src/group/GroupConf.pb.cc:235-283 | a new message shows every default, no has-bit and no unknown field |
| GroupConf.GroupConfig.SetField | gko-src/group/GroupConf.pb.h:577-580 | the field has the value and its has-bit; nothing else changes; the has-bit/default invariant is kept |
| GroupConf.GroupConfig.ClearField | gko-src/group/GroupConf.pb.h:724-729 | the field shows its default and its has-bit is clear; nothing else changes |
| GroupConf.GroupConfig.MutableField | gko-src/group/GroupConf.pb.h:754-760 | the field is owned, counts as set and keeps its value |
| GroupConf.GroupConfig.ReleaseField | gko-src/group/GroupConf.pb.h:761-770 | the owned string is handed out, null if there was none; the field shows its default again |
| GroupConf.GroupConfig.Clear | gko-src/group/GroupConf.pb.cc:331-415 | although groups without has-bits are passed over, the message is a fresh one afterwards |
| GroupConf.GroupConfig.MergeFrom | gko-src/group/GroupConf.pb.cc:1906-2044 | the group-guarded merge is the plain field-by-field merge; unknown fields are appended |
| GroupConf.GroupConfig.CopyFrom | gko-src/group/GroupConf.pb.cc:2052-2056 | from any prior state the message equals the source; copying from itself changes nothing |
| GroupConf.GroupConfig.Swap | gko-src/group/GroupConf.pb.cc:2064-2112 | the two messages change places, also when they are the same object |
| GroupConf.GroupConfig.ByteSize | gko-src/group/GroupConf.pb.cc:1591-1892 | with its group guards and tag-size constants the sum is the number of bytes the serializers emit |
| GroupConf.FieldSizeExact | gko-src/group/GroupConf.pb.cc:1595-1880 | the size computed for a field is the length of its tag and payload |
| GroupConf.GroupConfig.SerializeWithCachedSizes | gko-src/group/GroupConf.pb.cc:1101-1340 | the output grows by exactly the message's bytes |
| GroupConf.GroupConfig.SerializeWithCachedSizesToArray | gko-src/group/GroupConf.pb.cc:1342-1589 | the same bytes stand in the array from the start position on, and nothing else is written |
| GroupConf.ExpectTag | gko-src/group/GroupConf.pb.cc:434-434 | true only if the tag's bytes come next, and false means nothing was consumed |
| GroupConf.ExpectedTagIsLoopTag | gko-src/group/GroupConf.pb.cc:434-447 | going on with a field because its tag was expected is what the tag loop would have done |
| GroupConf.GroupConfig.MergePartialFromCodedStream | gko-src/group/GroupConf.pb.cc:417-1099 | on every input, and whatever the buffer lets ExpectTag see, success, message, position and end-of-input flag are those of the plain tag loop |
| GroupConf.MutatedValid | gko-src/group/GroupConf.pb.h:561-1712 | every public mutator keeps "has-bit clear implies default value" |
| GroupConf.MutatorsKeepDefaults | gko-src/group/GroupConf.pb.h:561-1712 | whatever sequence of mutators built a message, clear has-bits mean defaults, it writes out to bytes that parse back to itself, and with no has-bit and no unknown field it is a fresh message |
| GroupConfBytes.FieldOnWire | gko-src/group/GroupConf.pb.cc:1101-1340 | a message with one field set goes out as the schema's number and wire type and the value in its encoding, and nothing else |
| GroupConfBytes.ThreadNumberOnWire | gko-src/group/GroupConf.pb.cc:503-514 | the bytes 48 x set max_cluster_thread_num to the int x and nothing else, and that message goes out as 48 x again; unset it shows 10 |
| GroupConfBytes.AllowAllOnWire | gko-src/group/GroupConf.pb.cc:518-531 | 56 and any varint set is_allow_all_add, to false exactly if the low 32 bits are zero; unset it shows false |
| GroupConfBytes.UnknownOnWire | gko-src/group/GroupConf.pb.cc:1090-1091 | an unknown field of each wire type goes out under its number with that type, groups with their end tag |
| GroupConfBytes.FieldsInOrder | gko-src/group/GroupConf.pb.cc:1101-1340 | set fields go out by number, the unknown ones behind them, byte for byte on an example |
| GroupConfBytes.LoopEnds | gko-src/group/GroupConf.pb.cc:420-1092 | the tag loop ends with success at the end of the input, at a zero or cut-off tag and at a lone end-group tag, and only the first counts as the end |
| GroupConfBytes.CutOffFails | gko-src/group/GroupConf.pb.cc:425-430 | a value that is cut off makes the parse fail |
| GroupConfBytes.BadUnknownFails | gko-src/group/GroupConf.pb.cc:1090-1091 | so do a group closed under another number, one that is not closed, one nested beyond the limit, and wire type 6 |
| GroupConfBytes.FreshShowsDefaults | gko-src/group/GroupConf.proto:3-49 | a new message shows the schema's defaults, with no has-bit and no unknown field |
| SqlQuote.DoubledLength | gko-src/sqlite/shell.c:909-915 | doubling adds one byte for each quote in the text |
| SqlQuote.DoubledExample | gko-src/sqlite/shell.c:509-534 | a literal byte for byte, for any quote |
| SqlQuote.ReadBack | gko-src/sqlite/shell.c:509-534 | undoubling recovers the text wherever the literal stands, unless another quote follows it |
| SqlQuote.QuotedReadsBack | gko-src/sqlite/shell.c:509-534 | a quoted text by itself reads back as the text |
| SqlQuote.NestedReadsBack | gko-src/sqlite/shell.c:1307-1314 | a name quoted twice, in double and then in single quotes, comes back through both levels |
| SqlQuote.AppendedLength | gko-src/sqlite/shell.c:909-917 | the length computed first is that of the result with its terminator |
| SqlQuote.AppendText | gko-src/sqlite/shell.c:904-938 | the new buffer is the old text, then the text appended (as it is for quote 0, else between quotes and doubled) and the terminator, filled to the last byte, as the code's own assertion says |
| SqlQuote.OutputQuotedString | gko-src/sqlite/shell.c:509-534 | copying span by span emits exactly the quote-doubled literal |
| SqlQuote.SetTableName | gko-src/sqlite/shell.c:863-893 | names that are not ASCII identifiers (a letter or underscore, then letters, digits and underscores) are stored quoted and doubled, others as they are; the buffer has exactly the size computed first |
| ShellArgs.OutputCString | gko-src/sqlite/shell.c:539-562 | the loop emits the C-string text of the bytes |
| ShellArgs.EscapedByteIs | gko-src/sqlite/shell.c:539-562 | tab, newline, carriage return and backslash print as a backslash and a letter or backslash, printable ASCII as itself, any other byte as a backslash and its three octal digits |
| ShellArgs.UnitIs | gko-src/sqlite/shell.c:1482-1509 | behind a backslash n, t and r stand for their control characters, one to three octal digits for their value in eight bits, any other byte for itself |
| ShellArgs.ResolveUndoesPrint | gko-src/sqlite/shell.c:539-562 | unescaping the printed text gives back every byte, octal escapes included |
| ShellInPlace.ResolveBackslashes | gko-src/sqlite/shell.c:1482-1509 | in place on any buffer: the unescaped bytes and a terminator stand where the text began and nothing else has changed, provided the read cursor finds a zero before the buffer ends, which the result tells |
| ShellArgs.WellEscapedIff | gko-src/sqlite/shell.c:1482-1509 | no backslash is left over at the end exactly when the closing run of backslashes is even |
| ShellArgs.TokenIs | gko-src/sqlite/shell.c:1587-1600 | a token starts at the next byte that is not white space; a quoted one runs to the next quote of its kind, a bare one to the next white space |
| ShellArgs.TokenTextIs | gko-src/sqlite/shell.c:1601-1606 | single-quoted text is taken as it stands, any other is unescaped |
| ShellInPlace.StaysInsideIff | gko-src/sqlite/shell.c:1486-1508 | the read cursor stops at the text's terminator exactly when the text ends in an even number of backslashes, and then the bytes written are the unescaped text; otherwise it steps over the terminator |
| ShellInPlace.SplitArgs | gko-src/sqlite/shell.c:1587-1606 | on any buffer the loop's bytes and argument starts are those of the split defined on byte strings, and the result tells whether all reads stayed inside the buffer; SplitSafeIff says what that split is for a line |
| ShellInPlace.SplitSafeIff | gko-src/sqlite/shell.c:1587-1606 | for a line without NUL bytes no read cursor leaves its argument exactly when every argument outside single quotes ends in an even number of backslashes; then the tokens, 50 at most, stand terminated and unescaped in the line's buffer at the noted starts |
| ShellInPlace.LoneBackslashLosesArgument | gko-src/sqlite/shell.c:1482-1508 | a line of three words whose second ends in a backslash: the cursor runs into the third word and only two arguments are found |
| ShellInPlace.LastBackslashLeavesBuffer | gko-src/sqlite/shell.c:1482-1508 | a line that ends in a backslash, in a buffer of its own size: the cursor leaves the buffer |
| ShellInPlace.TypedBackInPlace | gko-src/sqlite/shell.c:1589-1606 | a NUL-free argument without a double quote, printed and typed back, stands in the buffer as it was, behind the command word and as the only argument |
| ShellArgs.ArgumentTokens | gko-src/sqlite/shell.c:1589-1606 | the first two tokens of a command with a double-quoted argument are the word and the text between the quotes |
| ShellArgs.TypedBack | gko-src/sqlite/shell.c:1589-1606 | the tokenizer and the unescaper recover a printed argument exactly when it holds no double quote; otherwise the argument ends at the first one |
| ShellArgs.SeparatorRestored | gko-src/sqlite/shell.c:2221-2238 | the separator printed by .show and fed to .separator is restored exactly when it holds no double quote |
| ShellArgs.SeparatorIs | gko-src/sqlite/shell.c:2221-2225 | without exactly one argument the separator stays; else it is the argument up to its first NUL byte, nineteen bytes at most |
| CsvText.OutputCsv | gko-src/sqlite/shell.c:626-656 | NULL prints the null value; a field is copied as it is exactly if it is not empty and all its bytes are printable ASCII above space, no quote of either kind and not the separator; else it goes out between quotes and doubled; the separator follows if asked for |
| CsvText.OutputRow | gko-src/sqlite/shell.c:811-815 | the row's values with separators between them and a newline at the end |
| CsvText.OutputTable | gko-src/sqlite/shell.c:803-816 | the rows written one by one make the table's text |
| CsvText.NullExample | gko-src/sqlite/shell.c:634-635 | a row with NULLs in it, byte for byte |
| CsvText.PassRow | gko-src/sqlite/shell.c:366-375 | no newline inside a written row ends the line |
| CsvText.RowLine | gko-src/sqlite/shell.c:366-375 | a written row is read as one line, with no carriage return taken off it |
| CsvText.ColumnsOfRow | gko-src/sqlite/shell.c:1861-1873 | splitting a written row gives the texts of its fields |
| CsvText.ColumnsAre | gko-src/sqlite/shell.c:1861-1873 | for any line: its columns joined by the separator are the line, every separator inside a column has an odd number of quotes up to it, and every one that splits has an even number |
| CsvText.DequoteExamples | gko-src/sqlite/shell.c:1884-1891 | malformed columns: a lone quote inside a quoted column is dropped, a column that does not start with a quote stays |
| CsvText.ImportIs | gko-src/sqlite/shell.c:1856-1908 | for any input: success exactly when every line has the wanted number of columns; the rows are the dequoted columns of the lines before the first that has not |
| CsvText.DequoteField | gko-src/sqlite/shell.c:1884-1891 | dequoting a written field gives the field |
| CsvText.CsvRoundTrip | gko-src/sqlite/shell.c:1856-1893 | for every table of NUL-free fields and every one-byte separator but quote and newline, reading back what was written gives the same rows |
| CsvText.RoundTripsIff | gko-src/sqlite/shell.c:626-656 | the one-byte separators for which every such table comes back are exactly those other than a double quote and a newline |
| ShellLine.Fgets | gko-src/sqlite/shell.c:359-359 | the next piece of the input, through its first newline or as much as fits, with a terminator |
| ShellLine.CountQuotes | gko-src/sqlite/shell.c:366-369 | the scan covers the piece up to its first NUL, and the quote state is that of the bytes covered |
| ShellLine.GetLine | gko-src/sqlite/shell.c:339-380 | for every input and lines of any length the growing buffer ends up as exactly the line that the piece-by-piece reader makes and a terminator, null at the end of the input |
| ShellLine.ReadsPlainLineIff | gko-src/sqlite/shell.c:339-380 | whatever sizes the pieces have, the line read is the plain one (up to the first newline outside quotes, less a carriage return before it) exactly when that line holds no NUL byte, whatever the other lines hold |
| ShellLine.PlainLineIs | gko-src/sqlite/shell.c:339-380 | the plain line is the input up to 10, to 13 10 or to the end of the input; the newline that ends it counts and none before it does, where in CSV mode one inside quotes does not count |
| ShellLine.NextStopIs | gko-src/sqlite/shell.c:1862-1866 | every stop that is passed over has an odd number of quotes up to it, the one found an even number; without CSV the first stop is found |
| ShellLine.NulFreeLine | gko-src/sqlite/shell.c:339-380 | on input without NUL bytes every line is read plainly |
| ShellLine.NulJoinsLines | gko-src/sqlite/shell.c:366-375 | two lines of which the first holds a NUL byte come back as one, less everything between that byte and the second line |
| ShellLine.LineNulFree | gko-src/sqlite/shell.c:366-369 | whatever the input, a line holds no NUL byte |
| CsvImport.SplitColumns | gko-src/sqlite/shell.c:1861-1873 | the count is the line's number of columns, each stands terminated in the buffer, and the starts of the first nCol are noted |
| CsvImport.DequoteColumn | gko-src/sqlite/shell.c:1884-1891 | in place: the column is the dequoted text with a terminator; nothing outside it is written |
| CsvImport.ImportLine | gko-src/sqlite/shell.c:1857-1895 | refused exactly when the number of columns is wrong; else the bound values, read after all columns were dequoted in place, are the dequoted columns |
| CsvImport.ImportTable | gko-src/sqlite/shell.c:1856-1908 | for every input the rows imported and the success of the whole are those of the reader's specification |
| TablesLayout.PrintTables | gko-src/sqlite/shell.c:2313-2331 | the output grows by the grid for the longest name and the computed row and column counts |
| TablesLayout.PrintColsIs | gko-src/sqlite/shell.c:2321-2322 | as many columns as fit into 80 bytes with two blanks each, one at least |
| TablesLayout.RowsBounds | gko-src/sqlite/shell.c:2323-2323 | the least number of rows that has room for all names |
| TablesLayout.RowPlace | gko-src/sqlite/shell.c:2325-2331 | row i stands in the output behind all rows before it, a newline after each |
| TablesLayout.NamePlace | gko-src/sqlite/shell.c:2325-2331 | every name stands in row k mod rows at column k / rows, its own bytes, blanks behind it up to the cell's width and two blanks before every cell but the first |
| TablesLayout.PlaceIsName | gko-src/sqlite/shell.c:2325-2331 | row i has a column c exactly when i + c * rows is the number of a name, and that name's place is this one: each is printed once |
| TablesLayout.ColumnsBound | gko-src/sqlite/shell.c:2321-2324 | no row has more names than the computed number of columns |
| TablesLayout.RowWidth | gko-src/sqlite/shell.c:2325-2331 | a row is as wide as its cells, less the two spaces the first one lacks |
| TablesLayout.FitsScreen | gko-src/sqlite/shell.c:2321-2331 | all rows fit into 80 columns exactly when the longest name does |
| TaskRegistry.GroupManager.AddTaskToMap | gko-src/group/group_manager.cpp:496-522 | success exactly for a task that is not null, whose infohash is not empty, not registered, and 40 bytes long unless it is a torrent URL: then both maps gain exactly this entry; otherwise nothing changes and the status is ErrorParams for null and AddTaskExist for the rest |
| TaskRegistry.GroupManager.RemoveTorrentTmp | gko-src/group/group_manager.cpp:832-861 | the entry moves from both maps to the end of the finished list; a null entry stays (meaning: RemoveKeepsInvIff, LeavesOnlyByTimeout) |
| TaskRegistry.GroupManager.UpdateInfohashByTorrentUrl | gko-src/group/group_manager.cpp:1007-1038 | the entry found under the URL is under the infohash afterwards, unless one was there already; nothing changes if neither the map nor the finished list has the URL (meaning: RekeyKeepsInvIff) |
| TaskRegistry.GroupManager.GetFinishedTaskByInfohash | gko-src/group/group_manager.cpp:969-985 | what the first finished entry with this infohash holds, null if there is none |
| TaskRegistry.FinishedTaskIs | gko-src/group/group_manager.cpp:969-985 | the task of the first entry in the list with this non-empty infohash |
| TaskRegistry.FinishedTaskNone | gko-src/group/group_manager.cpp:969-985 | null for an empty infohash and for one that no entry has |
| TaskRegistry.GroupManager.TaskOfOptions | gko-src/group/group_manager.cpp:1179-1189 | looking up an unknown infohash adds a null entry (meaning: NullEntryBlocks) |
| TaskRegistry.GroupManager.EraseTimedOut | gko-src/group/group_manager.cpp:386-403 | with no null in the list the loop ends and leaves the list filtered by the timeout, order kept (meaning: KeptMember, KeptSplit) |
| TaskRegistry.KeptMember | gko-src/group/group_manager.cpp:386-403 | an entry stays exactly if it has not expired |
| TaskRegistry.KeptSplit | gko-src/group/group_manager.cpp:386-403 | filtering respects the order of the list |
| TaskRegistry.AddKeepsInv | gko-src/group/group_manager.cpp:496-522 | adding a new entry with a new handle keeps the registry sound |
| TaskRegistry.AddedIsRunning | gko-src/group/group_manager.cpp:504-513 | in every run such a task is running after its add, and any other add changes nothing |
| TaskRegistry.RemovedIsFinished | gko-src/group/group_manager.cpp:839-857 | in every run a registered task stops running when it is removed and is the last one finished |
| TaskRegistry.RekeyedIsFound | gko-src/group/group_manager.cpp:1031-1038 | in every run the entry found under a URL is under the infohash after a re-key and no longer under the URL; without a URL, with an infohash that is not 40 bytes long or for a URL that is no key nothing changes |
| TaskRegistry.TimedOutIff | gko-src/group/group_manager.cpp:386-403 | in every run a finished task stays over a timer step exactly if its time is not up or the timeout is -1 |
| TaskRegistry.RemoveKeepsInvIff | gko-src/group/group_manager.cpp:839-857 | a removal keeps the registry sound exactly when the handle is the one registered with the infohash |
| TaskRegistry.RekeyKeepsInvIff | gko-src/group/group_manager.cpp:1031-1038 | a re-key keeps it sound exactly when the infohash is not registered yet, or the entry moved is null |
| TaskRegistry.RunKeepsInv | gko-src/group/group_manager.cpp:496-1049 | over every sequence of operations torrent_map_ holds exactly the non-null entries of infohash_map_, each under one key and one handle; nothing is both running and finished; the finished list holds no null and nothing twice |
| TaskRegistry.LeavesOnlyByTimeout | gko-src/group/group_manager.cpp:386-403 | over every run an entry disappears only by timeout, and what is finished stays finished until then |
| TaskRegistry.NullEntryBlocks | gko-src/group/group_manager.cpp:1179-1189 | a null entry stays until a re-key moves it, and every add of that infohash is refused meanwhile |
| TaskRegistry.FirstNullIff | gko-src/group/group_manager.cpp:1179-1189 | a step of a registry without null entries makes one exactly if it asks for the options of an infohash that is not registered |
| TaskRegistry.NullsComeFromLookUps | gko-src/group/group_manager.cpp:1179-1189 | a run without such a look-up has no null entry in any state |

## Left out

- The torrent library, HDFS, Protocol Buffers, the C library and SQLite are not part of this model: the torrent is a bitmap that changes at will, `map_file` is floor division over running offsets with every file's last byte inside the torrent, `map_block` is the tiling of a range by file slices, and `hdfsPread`, `fgets` and the coded stream have the behaviour written out in `HdfsRead.Cluster`, `ShellLine.Fgets` and `GroupConfWire`.
- Integer widths: counters, offsets and lengths do not overflow, except for int32 fields, varints and string lengths of the message codec, and octal escapes, whose widths are modelled.
- A torrent without pieces makes the scan divide by zero; the scheduler is modelled for at least one piece.
- Liveness at shutdown: the stop flag is raised without the mutex, so whether every thread exits is not decided by this code.
- The number of threads of one download, which a thread raises itself after it has been created, and a change of the thread cap while the dispatcher runs.
- The piece's download, hash check, speed limits and statistics between two mutex regions are one step that leaves the shared state alone.
- PreAllocate.AllocateFile: a `posix_fallocate` call that returns EINVAL counts as accepted, as in the code, so "accepted" does not mean that the file system reserved the bytes.
- PreAllocate.SetOrgPieces: a trailing empty file behind a full last piece; its piece number is one past the end, where lines 847-853 (and 1026 for the thread) index out of range.
- PreAllocate.PreAllocateThread: which pieces the torrent wants between leaving share mode and the zero vector; a torrent without pieces, since the thread writes the priority of a piece it does not have for an empty file that is already there.
- GroupConf.GroupConfig.MergePartialFromCodedStream: after a failed parse only the invariant is stated, not which fields had been read; the recursion limit for groups is a parameter, the 64 MB limit of a stream and UTF-8 checks are left out.
- GroupConf.GroupConfig.MutableField: the pointer it returns is not followed after the call; string pointers are modelled as "shared default or owned", has-bit words as 41 booleans.
- Reflection, descriptors, cached sizes and IsInitialized of the message: generated code that one body settles.
- CsvText.OutputCsv: separators of more than one byte; the writer compares them at the start of the field (line 636), so the round trip is only meant for one byte.
- CsvText.CsvRoundTrip: header rows, NULL values (they come back as the text of the null value) and the insert statement itself.
- CsvImport.ImportTable: a statement that fails when it is stepped; only a wrong number of columns ends the import.
- ShellLine.GetLine: the prompt, and a failing malloc.
- ShellInPlace.ResolveBackslashes: what happens once a read has left the buffer; C gives that no meaning, and the method stops there.
- ShellArgs.OutputCString: bytes print by the C locale; `isprint` of a negative char is taken as false.
- The commands of the shell other than the ones above, statement execution, backup, prompts and timers.
- TaskRegistry.GroupManager.UpdateInfohashByTorrentUrl: a URL that only the finished list has: the code then reads an end iterator (line 1031), which has no meaning to model.
- TaskRegistry.GroupManager.RemoveTorrentTmp: an infohash that is not registered, for which line 842 reads an end iterator before the test.
- TaskRegistry.GroupManager.EraseTimedOut: the log line after an erase, which reads the next entry even when there is none.
- Network servers and clients, resume files, permissions, links, directories, option setters and status strings: input and output, or easy members settled by one branch.
