# A verified model of the db2023 storage and SQL engine

db2023 is a small relational database written in Java. Its back end has
several layers:

- a transaction manager (the "ledger") keeps one status byte per transaction id in an `.xid` file;
- a data manager stores items in 8 KiB pages behind a reference-counted page cache;
- every change first goes to a write-ahead log of checksummed records, and crash recovery redoes and undoes that log;
- a version manager keeps MVCC entries, meaning several versions of each row tagged with the creating and deleting transaction;
  - it decides visibility under read-committed and repeatable-read isolation;
  - it detects deadlocks through a wait-for graph kept in a lock table;
- a table manager encodes tables, fields and rows as byte strings and evaluates `where` clauses against field indexes;
- a recursive-descent parser turns SQL text into statement values;
- the server's executor runs statements inside or outside explicit transactions.

This project models that core in Dafny and proves properties of the model.

- **Pure code:** byte codecs, log record layouts, the SQL grammar, field and row encodings and visibility rules are datatypes and functions. Lemmas state round trips, error cases and meaning.
- **Stateful code:** the logger, the ledger, the caches, the page index, the data manager, entries, the lock table, the version manager and the executor are classes. Their fields are updated in place by methods with `modifies` clauses.
  - Each method's `ensures` ties the new state to specification functions of the old state.
  - The properties are then proved about those functions.
- **Files:** the disk is a byte-sequence field of the object that owns the file (`file: seq<byte>`). Reading and writing become `ReadAt`/`WriteAt` on that sequence.
- **Java integers:** their width and wrap-around are modelled explicitly (`Wrap16/32/64`, `JavaDiv`).
- **Java strings:** a `string` holds Unicode characters. The launcher's size option and the grammar's name test count UTF-16 units with `JavaLength`, as `length()` and `substring` do (`parseString` is discussed under Left out). The decimal parsers take the digits of every script, as `Character.digit` does.
- **Failure paths:** Java exceptions and panics become `Result`/`Outcome` values that carry the error kind.

Source paths below are relative to the repository root.

## Model

| member | source | states |
|---|---|---|
| Codec.ParseLong | src/main/java/top/lifeifan/db/backend/utils/Parser.java:14-17 | the first 8 bytes, big-endian two's complement, decode to a value in the `long` range |
| Codec.ParseInt | src/main/java/top/lifeifan/db/backend/utils/Parser.java:38-40 | the first 4 bytes decode to a value in the `int` range |
| Codec.ParseShort | src/main/java/top/lifeifan/db/backend/utils/Parser.java:25-28 | the first 2 bytes decode to a value in the `short` range |
| Codec.LongRoundTrip | src/main/java/top/lifeifan/db/backend/utils/Parser.java:14-22 | `long2Byte` writes 8 bytes and `parseLong` reads the same `long` back, whatever follows |
| Codec.LongOfBytes | src/main/java/top/lifeifan/db/backend/utils/Parser.java:14-22 | every 8-byte string is `long2Byte` of its own `parseLong` (the codec is a bijection) |
| Codec.IntRoundTrip | src/main/java/top/lifeifan/db/backend/utils/Parser.java:34-40 | `int2Byte` then `parseInt` gives the `int` back |
| Codec.IntOfBytes | src/main/java/top/lifeifan/db/backend/utils/Parser.java:34-40 | every 4-byte string is `int2Byte` of its `parseInt` |
| Codec.ShortRoundTrip | src/main/java/top/lifeifan/db/backend/utils/Parser.java:25-32 | `short2Byte` then `parseShort` gives the `short` back |
| Codec.ShortOfBytes | src/main/java/top/lifeifan/db/backend/utils/Parser.java:25-32 | every 2-byte string is `short2Byte` of its `parseShort` |
| Codec.FixedRoundTrip | src/main/java/top/lifeifan/db/backend/utils/Parser.java:14-40 | the shared k-byte big-endian codec: encoding a value in range gives k bytes that decode to it |
| Codec.FixedOfBytes | src/main/java/top/lifeifan/db/backend/utils/Parser.java:14-40 | decoding k bytes then encoding gives the same bytes |
| Codec.DecodeOne | src/main/java/top/lifeifan/db/backend/utils/Parser.java:44 | one step of `new String`'s UTF-8 decoder takes 1 to 4 bytes and never passes the end; a character above U+FFFF takes exactly 4; a step over several bytes starts at a lead byte C2-F4 and takes only continuation bytes after it; the body's branches are the JDK decoder's, giving one U+FFFD per maximal malformed subpart (see `NewStringMaximalSubparts`) |
| Codec.DecodeOneUtf8 | src/main/java/top/lifeifan/db/backend/utils/Parser.java:44 | the UTF-8 decoder of `new String(bytes)` reads one character's encoding back as that character and its length |
| Codec.NewStringOfGetBytes | src/main/java/top/lifeifan/db/backend/utils/Parser.java:44 | `new String(s.getBytes())` is `s` |
| Codec.NewStringJavaLength | src/main/java/top/lifeifan/db/backend/utils/Parser.java:44 | a decoded string has no more UTF-16 units than there were bytes |
| Codec.ByteLengthVsJavaLength | src/main/java/top/lifeifan/db/backend/utils/Parser.java:57-60 | a string's UTF-8 byte count is at least its `length()`, with equality exactly when it is ASCII |
| Codec.JavaLengthLast | src/main/java/top/lifeifan/db/backend/Launcher.java:67-71 | `length()` is the UTF-16 length without the last character plus that character's one or two units |
| Codec.AsciiBytes | src/main/java/top/lifeifan/db/backend/utils/Parser.java:57-60 | an ASCII string's bytes are its character codes |
| Codec.ParseString | src/main/java/top/lifeifan/db/backend/utils/Parser.java:42-46 | succeeds exactly when there are at least 4 bytes and the length they hold is in `[0, 2^31-4)`, the text being the body decoded as `new String` does (one U+FFFD per malformed maximal subpart) and `next` length + 4; a length outside that range fails with IllegalArgument (`copyOfRange` with `from > to`), a short header with IndexOutOfBounds |
| Codec.ParseStringFrame | src/main/java/top/lifeifan/db/backend/utils/Parser.java:42-46 | a length header followed by at least that many bytes parses to the first `n` bytes decoded by `new String`'s rules, next = n + 4 |
| Codec.ParseStringRoundTrip | src/main/java/top/lifeifan/db/backend/utils/Parser.java:42-60 | for ASCII text, `parseString(string2Byte(s) + rest)` gives `s` and the frame's length |
| Codec.ParseStringNonAscii | src/main/java/top/lifeifan/db/backend/utils/Parser.java:42-60 | for non-ASCII text the header (UTF-16 length) is shorter than the bytes written, so `next` stops inside the frame |
| Codec.NewStringMaximalSubparts | src/main/java/top/lifeifan/db/backend/utils/Parser.java:44 | an encoded surrogate ED A0 80 decodes to one U+FFFD; E2 82 41 decodes to one U+FFFD and then 'A' |
| Codec.ParseStringTruncated | src/main/java/top/lifeifan/db/backend/utils/Parser.java:42-60 | `parseString(string2Byte("你好"))` reads only E4 BD, the cut-off start of 你, as a single U+FFFD, with `next` 6 inside the 10 bytes written |
| Codec.HashFold | src/main/java/top/lifeifan/db/backend/utils/Parser.java:48-55 | the `h = h * 13331 + b` fold with wrap-around stays within the width |
| Codec.HashFoldIsPoly | src/main/java/top/lifeifan/db/backend/utils/Parser.java:48-55 | the wrapped fold equals the exact polynomial hash reduced once at the end |
| Codec.HashFoldAppend | src/main/java/top/lifeifan/db/backend/utils/Parser.java:48-55 | folding over `a + b` is folding over `b` from the result over `a` |
| Codec.StrUid | src/main/java/top/lifeifan/db/backend/utils/Parser.java:48-55 | a string's uid is a `long` |
| Codec.Str2Uid | src/main/java/top/lifeifan/db/backend/utils/Parser.java:48-55 | the byte loop computes `StrUid` of the key |
| Codec.StrUidEmpty | src/main/java/top/lifeifan/db/backend/utils/Parser.java:48-55 | the empty string hashes to 0 |
| LogRecords.IsInsertLog | src/main/java/top/lifeifan/db/backend/dm/Recover.java:143-145 | defined exactly on non-empty records; true iff the type byte is 0 |
| LogRecords.ParseInsertLog | src/main/java/top/lifeifan/db/backend/dm/Recover.java:163-170 | succeeds iff the record holds the 15-byte header; a 13- or 14-byte record fails with IllegalArgument (`copyOfRange` with `from > to`), a shorter one with IndexOutOfBounds; fields are in their Java ranges |
| LogRecords.ParseInsertLogFields | src/main/java/top/lifeifan/db/backend/dm/Recover.java:148-170 | xid, page, offset and raw are read from bytes 1-8, 9-12, 13-14 and 15 on |
| LogRecords.InsertLogRoundTrip | src/main/java/top/lifeifan/db/backend/dm/Recover.java:155-170 | an insert record built by `insertLog` is recognised as an insert and parses back to its xid, page, offset and raw |
| LogRecords.ParseUpdateLog | src/main/java/top/lifeifan/db/backend/dm/Recover.java:204-215 | the parser as written: succeeds iff the record holds the 17-byte header; a shorter one fails with IllegalArgument at 9-11 and 15 bytes (`copyOfRange` with `from > to`), else IndexOutOfBounds; fields are in their Java ranges |
| LogRecords.ParseUpdateLogErrors | src/main/java/top/lifeifan/db/backend/dm/Recover.java:204-215 | a record shorter than 17 bytes fails: as written with IllegalArgument at 9-11 and 15 bytes (`copyOfRange` with `from > to`) and IndexOutOfBounds otherwise; corrected with IllegalArgument at 9-15 bytes |
| LogRecords.ParseUpdateLogIntended | src/main/java/top/lifeifan/db/backend/dm/Recover.java:204-215 | the corrected parser, old image starting at byte 17 |
| LogRecords.ParseUpdateLogFields | src/main/java/top/lifeifan/db/backend/dm/Recover.java:204-215 | both parsers' fields: the uid splits into page (high 32 bits) and offset (low 16); halves of `(len - 17) / 2`; the as-written old image starts at byte 15 |
| LogRecords.UpdateLogFields | src/main/java/top/lifeifan/db/backend/dm/Recover.java:194-202 | an `updateLog` record has length 17 + 2n, type byte 1, and carries xid, uid, old and new images at their offsets |
| LogRecords.UpdateLogSlices | src/main/java/top/lifeifan/db/backend/dm/Recover.java:194-215 | where an update record's parts lie, and that bytes 15 to 17 + n are the uid's last two bytes followed by the old image |
| LogRecords.UpdateLogAsWritten | src/main/java/top/lifeifan/db/backend/dm/Recover.java:212 | parsing an update record as written yields an old image prefixed by the uid's last two bytes |
| LogRecords.UpdateLogAsWrittenWitness | src/main/java/top/lifeifan/db/backend/dm/Recover.java:212 | for `updateLog(1, 0, [], [])` the parsed old image is `[0, 0]`, not empty |
| LogRecords.UpdateLogRoundTrip | src/main/java/top/lifeifan/db/backend/dm/Recover.java:194-215 | with the corrected offset an update record parses back to its xid, page, offset, old and new images |
| Logger.CheckSum | src/main/java/top/lifeifan/db/backend/dm/logger/LoggerImpl.java:114-119 | the checksum fold stays an `int` |
| Logger.CheckSumAppend | src/main/java/top/lifeifan/db/backend/dm/logger/LoggerImpl.java:114-119 | the checksum over `a + b` continues the checksum over `a` (what `updateXCheckSum` relies on) |
| Logger.CheckSumIsPoly | src/main/java/top/lifeifan/db/backend/dm/logger/LoggerImpl.java:114-119 | the checksum is the polynomial hash with seed 13331, wrapped to 32 bits |
| Logger.CalCheckSum | src/main/java/top/lifeifan/db/backend/dm/logger/LoggerImpl.java:114-119 | the loop computes `CheckSum` |
| Logger.WrapLogFields | src/main/java/top/lifeifan/db/backend/dm/logger/LoggerImpl.java:190-194 | a framed record is 8 + n bytes holding the size, the data's checksum and the data |
| Logger.FrameFields | src/main/java/top/lifeifan/db/backend/dm/logger/LoggerImpl.java:190-194 | the size and checksum headers decode to what was written |
| Logger.FrameAt | src/main/java/top/lifeifan/db/backend/dm/logger/LoggerImpl.java:121-160 | the size, checksum and data `internNext` reads from a frame at the cursor are the frame's |
| Logger.NextAt | src/main/java/top/lifeifan/db/backend/dm/logger/LoggerImpl.java:121-160 | no record when the header reaches the end; a found record lies within the file size; the only fault, from a negative size field, is IllegalArgument |
| Logger.NextAtIsFrame | src/main/java/top/lifeifan/db/backend/dm/logger/LoggerImpl.java:121-160 | every record `internNext` accepts is the frame `wrapLog` builds of its data, read from the cursor |
| Logger.FrameOfFields | src/main/java/top/lifeifan/db/backend/dm/logger/LoggerImpl.java:121-160 | bytes whose size and checksum headers match their data are that data's frame |
| Logger.NextAtFrame | src/main/java/top/lifeifan/db/backend/dm/logger/LoggerImpl.java:121-160 | a frame written at the cursor is found whole |
| Logger.Scan | src/main/java/top/lifeifan/db/backend/dm/logger/LoggerImpl.java:88-112 | the tail scan's checksum stays an `int` and it stops at or after the start, within the file |
| Logger.ScanStep | src/main/java/top/lifeifan/db/backend/dm/logger/LoggerImpl.java:91-98 | one accepted record advances the scan by its length and folds it into the checksum |
| Logger.ScanEnd | src/main/java/top/lifeifan/db/backend/dm/logger/LoggerImpl.java:91-98 | the scan ends where `internNext` finds nothing, or carries its fault |
| Logger.Walk | src/main/java/top/lifeifan/db/backend/dm/logger/LoggerImpl.java:88-112 | the scan over any forward cursor function keeps the same bounds |
| Logger.NextOf | src/main/java/top/lifeifan/db/backend/dm/logger/LoggerImpl.java:121-160 | `internNext` as a cursor function only moves forward |
| Logger.RecordsUnfold | src/main/java/top/lifeifan/db/backend/dm/logger/LoggerImpl.java:206-218 | the records from a found record on are its data followed by the records after it |
| Logger.FindsCollect | src/main/java/top/lifeifan/db/backend/dm/logger/LoggerImpl.java:206-218 | a cursor that finds the frames `ws` yields their data parts in order |
| Logger.RecordsLogFile | src/main/java/top/lifeifan/db/backend/dm/logger/LoggerImpl.java:162-218 | reading a log built by `log(d1) … log(dn)` from its first record returns exactly `d1 … dn` |
| Logger.Check | src/main/java/top/lifeifan/db/backend/dm/logger/LoggerImpl.java:61-112 | a file passes `init` with an end position between the header and the file's end |
| Logger.CheckLogFile | src/main/java/top/lifeifan/db/backend/dm/logger/LoggerImpl.java:61-112 | a log built by `log` calls passes `init` with nothing truncated |
| Logger.LogFileFinds | src/main/java/top/lifeifan/db/backend/dm/logger/LoggerImpl.java:121-160 | `internNext` over such a log finds every frame in order |
| Logger.WalksFinds | src/main/java/top/lifeifan/db/backend/dm/logger/LoggerImpl.java:121-160 | frames found at each record start form a walk from byte 4 |
| Logger.CheckFinds | src/main/java/top/lifeifan/db/backend/dm/logger/LoggerImpl.java:88-112 | a file whose frames fill it and whose header is their checksum passes the check untouched |
| Logger.WalkRecords | src/main/java/top/lifeifan/db/backend/dm/logger/LoggerImpl.java:91-98 | walking known frames sums their checksum and ends after the last |
| Logger.FindsRecords | src/main/java/top/lifeifan/db/backend/dm/logger/LoggerImpl.java:121-160 | a cursor that finds each frame at its start finds the suffix from any frame |
| Logger.RecordAdvance | src/main/java/top/lifeifan/db/backend/dm/logger/LoggerImpl.java:91-98 | one more frame moves the start by its length and extends the checksum by it |
| Logger.Framed | src/main/java/top/lifeifan/db/backend/dm/logger/LoggerImpl.java:190-194 | framing a list keeps its length |
| Logger.FramedAppend | src/main/java/top/lifeifan/db/backend/dm/logger/LoggerImpl.java:162-177 | framing one more payload appends its frame |
| Logger.LogFileAppend | src/main/java/top/lifeifan/db/backend/dm/logger/LoggerImpl.java:162-188 | appending a frame and rewriting the header with the running checksum gives the log of one more payload |
| Logger.LogFilePrefix | src/main/java/top/lifeifan/db/backend/dm/logger/LoggerImpl.java:162-188 | the same step for the i-th payload of a list |
| Logger.Reheader | src/main/java/top/lifeifan/db/backend/dm/logger/LoggerImpl.java:179-188 | rewriting the 4-byte header replaces only the header |
| Logger.WriteHeader | src/main/java/top/lifeifan/db/backend/dm/logger/LoggerImpl.java:179-188 | writing 4 bytes at offset 0 replaces the first 4 bytes |
| Logger.ConcatAppend | src/main/java/top/lifeifan/db/backend/dm/logger/LoggerImpl.java:162-177 | laying lists of frames end to end distributes over append |
| Logger.ConcatPiece | src/main/java/top/lifeifan/db/backend/dm/logger/LoggerImpl.java:121-160 | frame i sits at its record start in the file |
| Logger.PieceWalks | src/main/java/top/lifeifan/db/backend/dm/logger/LoggerImpl.java:121-160 | `internNext` finds frame k at its start, and nothing after the last non-empty frame |
| Logger.LogFileWalks | src/main/java/top/lifeifan/db/backend/dm/logger/LoggerImpl.java:121-160 | the same for every k in a log built by `log` |
| Logger.NextAtPastEnd | src/main/java/top/lifeifan/db/backend/dm/logger/LoggerImpl.java:121-160 | a cursor past the bytes but below the recorded `fileSize` reads a zero frame as a record |
| Logger.LoggerImpl.Create | src/main/java/top/lifeifan/db/backend/dm/logger/Logger.java:30-46 | a fresh log holds the zero checksum and no record |
| Logger.LoggerImpl.Open | src/main/java/top/lifeifan/db/backend/dm/logger/LoggerImpl.java:55-59 | an opened log starts with default fields until `init` runs |
| Logger.LoggerImpl.Rewind | src/main/java/top/lifeifan/db/backend/dm/logger/LoggerImpl.java:220-223 | the cursor moves to the first record |
| Logger.LoggerImpl.Truncate | src/main/java/top/lifeifan/db/backend/dm/logger/LoggerImpl.java:196-204 | a negative size fails; otherwise the file is cut to that size when shorter |
| Logger.LoggerImpl.InternNext | src/main/java/top/lifeifan/db/backend/dm/logger/LoggerImpl.java:121-160 | returns `NextAt` at the cursor (so a negative size field is IllegalArgument) and advances past a found record |
| Logger.LoggerImpl.Next | src/main/java/top/lifeifan/db/backend/dm/logger/LoggerImpl.java:206-218 | returns the data part of the record `internNext` finds, `null` at the end, and advances past it |
| Logger.LoggerImpl.Log | src/main/java/top/lifeifan/db/backend/dm/logger/LoggerImpl.java:162-177 | appends the frame and rewrites the header with the checksum extended by the frame |
| Logger.LoggerImpl.UpdateXCheckSum | src/main/java/top/lifeifan/db/backend/dm/logger/LoggerImpl.java:179-188 | extends the running checksum by the record and writes it to the header |
| Logger.LoggerImpl.Init | src/main/java/top/lifeifan/db/backend/dm/logger/LoggerImpl.java:61-83 | fails (BadLogFile or the record fault) exactly when `Check` does; otherwise the file is cut after the last valid record |
| Logger.LoggerImpl.CheckAndRemoveTail | src/main/java/top/lifeifan/db/backend/dm/logger/LoggerImpl.java:88-112 | fails on a fault or a checksum mismatch with the header, else truncates to the scan's end and rewinds |
| Logger.LoggerImpl.SumRecords | src/main/java/top/lifeifan/db/backend/dm/logger/LoggerImpl.java:91-98 | the loop computes `Scan` from the cursor and leaves the cursor at its end |
| Logger.LogAll | src/test/java/top/lifeifan/db/backend/dm/logger/LoggerTest.java:13-19 | logging a list into a fresh log produces `LogFile` of the list |
| Logger.ReadBack | src/test/java/top/lifeifan/db/backend/dm/logger/LoggerTest.java:21-45 | repeated `next` until `null` reads back the records the file holds |
| Logger.LogReopenRead | src/test/java/top/lifeifan/db/backend/dm/logger/LoggerTest.java:13-47 | create, log each payload, reopen, rewind and read: the open succeeds and the payloads come back in order |
| Recovery.InsertPatch | src/main/java/top/lifeifan/db/backend/dm/Recover.java:172-188 | an insert record yields an insert patch for its page and offset exactly when it holds the header (and, for undo, a raw item to invalidate) |
| Recovery.UpdatePatch | src/main/java/top/lifeifan/db/backend/dm/Recover.java:217-226 | as written: an update record yields a patch exactly when `parseUpdateLog` accepts it, at the page and offset it reads, carrying the new image for redo and the old image cut from byte 15 for undo |
| Recovery.PatchOf | src/main/java/top/lifeifan/db/backend/dm/Recover.java:133-137 | a record is dispatched on its type byte: insert patch iff the type is 0 |
| Recovery.Apply | src/main/java/top/lifeifan/db/backend/dm/Recover.java:184 | applying a patch to a page keeps the page size |
| Recovery.ApplyAt | src/main/java/top/lifeifan/db/backend/dm/Recover.java:83-97 | patches touch only their own pages; a list with no patch for page q leaves q unchanged |
| Recovery.ApplyAppend | src/main/java/top/lifeifan/db/backend/dm/Recover.java:76-141 | applying `a + b` is applying `a` then `b` |
| Recovery.DoInsertLog | src/main/java/top/lifeifan/db/backend/dm/Recover.java:172-188 | a bad record fails with all pages unchanged; otherwise exactly the record's page gets the patch applied |
| Recovery.DoUpdateLog | src/main/java/top/lifeifan/db/backend/dm/Recover.java:217-238 | a bad record fails with all pages unchanged; otherwise exactly the record's page gets the as-written `UpdatePatch` applied (on undo, the image cut from byte 15) |
| Recovery.UndoUpdateAsWritten | src/main/java/top/lifeifan/db/backend/dm/Recover.java:204-226 | for a record `updateLog(xid, uid, old, new)`, redo writes `new` at the uid's page and offset, while undo as written writes the uid's last two bytes followed by `old` |
| Recovery.UndoUpdateAsWrittenWitness | src/main/java/top/lifeifan/db/backend/dm/Recover.java:212 | undoing `updateLog(1, 0, [], [])` as written writes two zero bytes where nothing was logged |
| Recovery.UpdatePatchIntended | src/main/java/top/lifeifan/db/backend/dm/Recover.java:204-226 | corrected: the patch exists exactly when the corrected parser accepts the record |
| Recovery.UndoUpdateIntended | src/main/java/top/lifeifan/db/backend/dm/Recover.java:204-226 | corrected: undo restores exactly `old` at the uid's page and offset; redo is the same as written |
| Recovery.PatchesOf | src/main/java/top/lifeifan/db/backend/dm/Recover.java:129-138 | when every record has a patch, there is one patch per record |
| Recovery.WriteBack | src/main/java/top/lifeifan/db/backend/dm/Recover.java:184-187 | patching a cached page and releasing it changes only that page's content |
| Recovery.ReleaseUnchanged | src/main/java/top/lifeifan/db/backend/dm/Recover.java:185-187 | releasing an unmodified page leaves every page's content as it was |
| Recovery.RecordXid | src/main/java/top/lifeifan/db/backend/dm/Recover.java:83-97 | a record's xid is read only from a record that also makes a redo patch |
| Recovery.RedoStep | src/main/java/top/lifeifan/db/backend/dm/Recover.java:83-97 | a record of a finished transaction gives its redo patch |
| Recovery.RedoPlan | src/main/java/top/lifeifan/db/backend/dm/Recover.java:76-99 | the redo plan holds at most one patch per record |
| Recovery.RedoPlanStep | src/main/java/top/lifeifan/db/backend/dm/Recover.java:76-99 | the plan of one more record is the old plan plus that record's step |
| Recovery.RecordsStep | src/main/java/top/lifeifan/db/backend/dm/Recover.java:76-99 | reading one record moves it from the records still to come to those seen |
| Recovery.RedoRecord | src/main/java/top/lifeifan/db/backend/dm/Recover.java:83-97 | one loop round: records of active transactions change nothing, others apply their redo patch |
| Recovery.RedoTransactions | src/main/java/top/lifeifan/db/backend/dm/Recover.java:76-99 | after the loop every page is the old page with the redo plan of all records applied in log order |
| Recovery.RedoSkipsActive | src/main/java/top/lifeifan/db/backend/dm/Recover.java:87-95 | records that all belong to active transactions produce no redo at all |
| Recovery.File | src/main/java/top/lifeifan/db/backend/dm/Recover.java:113-116 | filing a record under an xid appends it to that xid's list (creating it) and leaves other lists alone |
| Recovery.Collect | src/main/java/top/lifeifan/db/backend/dm/Recover.java:101-128 | the grouping of active transactions' records is well formed |
| Recovery.CollectOwned | src/main/java/top/lifeifan/db/backend/dm/Recover.java:101-128 | an xid has a group iff it owns a record of an active transaction, and its group is exactly its records in log order |
| Recovery.CollectStep | src/main/java/top/lifeifan/db/backend/dm/Recover.java:104-127 | one more record is filed under its owner when active, else ignored |
| Recovery.OwnerOf | src/main/java/top/lifeifan/db/backend/dm/Recover.java:109-127 | returns the record's owner only when the ledger marks it active |
| Recovery.CollectActive | src/main/java/top/lifeifan/db/backend/dm/Recover.java:101-128 | the loop computes `Collect` over all records of the log |
| Recovery.UndoSkipsFinished | src/main/java/top/lifeifan/db/backend/dm/Recover.java:112-126 | records of finished transactions produce no group |
| Recovery.UndoReadsUpdateXid | src/main/java/top/lifeifan/db/backend/dm/Recover.java:119-120 | reading an update record with the insert parser gives the same xid, so grouping is right |
| Recovery.Reversed | src/main/java/top/lifeifan/db/backend/dm/Recover.java:131 | the inner loop visits a group from its last record to its first |
| Recovery.UndoRecord | src/main/java/top/lifeifan/db/backend/dm/Recover.java:132-137 | one undo step applies the record's as-written undo patch to its page only; a record without a patch fails |
| Recovery.UndoGroup | src/main/java/top/lifeifan/db/backend/dm/Recover.java:129-138 | undoing a group applies its as-written undo patches in reverse log order |
| Recovery.Visited | src/main/java/top/lifeifan/db/backend/dm/Recover.java:129-130 | the xids of the iteration order that have a group, each once, including every group the order names |
| Recovery.Unnamed | src/main/java/top/lifeifan/db/backend/dm/Recover.java:129-130 | the groups the iteration order does not name, each once |
| Recovery.IterOrder | src/main/java/top/lifeifan/db/backend/dm/Recover.java:129-130 | the order `logCache.entrySet()` is visited in: every group exactly once |
| Recovery.VisitedAsHashed | src/main/java/top/lifeifan/db/backend/dm/Recover.java:129-130 | every ordering of exactly the groups' xids is an iteration order the model covers, visited as it is |
| Recovery.UndoOrderStep | src/main/java/top/lifeifan/db/backend/dm/Recover.java:129-140 | the undo sequence of one more group appends that group reversed |
| Recovery.AbortAllStep | src/main/java/top/lifeifan/db/backend/dm/Recover.java:139 | aborting one more group writes ABORTED at its xid's slot |
| Recovery.AbortAllStatus | src/main/java/top/lifeifan/db/backend/dm/Recover.java:139 | after undo, each grouped xid reads ABORTED and every other `long` xid keeps its status |
| Recovery.UndoGroups | src/main/java/top/lifeifan/db/backend/dm/Recover.java:129-140 | visiting the groups in the given order, every page gets each group's as-written undo patches, newest first, and the ledger marks each visited xid aborted |
| Recovery.UndoTransactions | src/main/java/top/lifeifan/db/backend/dm/Recover.java:101-141 | for the groups visited in any iteration order (`IterOrder(hash)`): the log's active records are grouped, each group is undone newest first with the as-written undo patches, and each grouped xid is aborted |
| Recovery.RecordPage | src/main/java/top/lifeifan/db/backend/dm/Recover.java:49-56 | a record's page number is an `int` |
| Recovery.MaxFrom0 | src/main/java/top/lifeifan/db/backend/dm/Recover.java:43-60 | the running maximum from 0 bounds every page number and is 0 or one of them |
| Recovery.MaxPgNo | src/main/java/top/lifeifan/db/backend/dm/Recover.java:43-60 | the maximum page over the log is a non-negative `int` |
| Recovery.Top | src/main/java/top/lifeifan/db/backend/dm/Recover.java:61-63 | the page count to keep is at least 1 |
| Recovery.ScanMaxPgNo | src/main/java/top/lifeifan/db/backend/dm/Recover.java:42-60 | the loop computes `MaxPgNo` over the log's records |
| Recovery.RedoThenUndo | src/main/java/top/lifeifan/db/backend/dm/Recover.java:67-70 | redo then undo applies the redo plan followed by the as-written undo patches, groups in any iteration order, and aborts the active groups |
| Recovery.Recover | src/main/java/top/lifeifan/db/backend/dm/Recover.java:39-74 | the file is cut to the maximum logged page (at least 1); each page is its truncated view with the redo plan and then the as-written undo patches applied, groups in any iteration order; the active transactions end aborted |
| Ledger.XidPosition | src/main/java/top/lifeifan/db/backend/tm/TransactionManagerImpl.java:72-74 | the position is computed in `long` arithmetic: for a `long` id it is exactly 8 + (xid - 1) from -7 to 2^63 - 8, so ids 1 to 2^63 - 8 lie after the header; for the last seven ids and below -7 it wraps negative, where every query faults |
| Ledger.PositionWraps | src/main/java/top/lifeifan/db/backend/tm/TransactionManagerImpl.java:72-74 | the two `long` wraps of the position sum, case by case: none inside the range, one below it or above it |
| Ledger.XidPositionInjective | src/main/java/top/lifeifan/db/backend/tm/TransactionManagerImpl.java:72-74 | two `long` ids with a non-negative position share it only when they are the same id |
| Ledger.Wrap64Max | src/main/java/top/lifeifan/db/backend/tm/TransactionManagerImpl.java:93 | incrementing the largest `long` counter wraps to the smallest |
| Ledger.CheckAccepts | src/main/java/top/lifeifan/db/backend/tm/TransactionManagerImpl.java:47-70 | the file is accepted iff it holds the header and its length is the header's counter plus 8; an accepted counter is at most 2^63 - 9, the last id whose next position does not wrap |
| Ledger.CheckCreated | src/main/java/top/lifeifan/db/backend/tm/TransactionManager.java:70-99 | a freshly created file (8 zero bytes) is accepted with counter 0 |
| Ledger.StatusAt | src/main/java/top/lifeifan/db/backend/tm/TransactionManagerImpl.java:137-147 | a status is read exactly when the id's wrapped `long` position is not negative; otherwise `position` faults with IllegalArgument |
| Ledger.StatusExclusive | src/main/java/top/lifeifan/db/backend/tm/TransactionManagerImpl.java:159-195 | active, aborted and committed read the status byte (the super transaction is committed and never active or aborted), and at most one holds |
| Ledger.StatusAfterWrite | src/main/java/top/lifeifan/db/backend/tm/TransactionManagerImpl.java:113-129 | writing one `long` id's status changes that id's status and no other `long` id's |
| Ledger.Stamped | src/main/java/top/lifeifan/db/backend/tm/TransactionManagerImpl.java:113-129 | stamping a counted xid keeps the file valid with the same counter and changes only that xid, among `long` ids |
| Ledger.BeginFile | src/main/java/top/lifeifan/db/backend/tm/TransactionManagerImpl.java:76-106 | `begin` on a valid file gives counter + 1, grows the file by one byte, marks the new xid active and keeps earlier statuses |
| Ledger.BeginHeader | src/main/java/top/lifeifan/db/backend/tm/TransactionManagerImpl.java:92-106 | the rewritten header makes the grown file valid with the new counter |
| Ledger.BeginStatus | src/main/java/top/lifeifan/db/backend/tm/TransactionManagerImpl.java:113-129 | the new xid reads active and earlier xids keep their status |
| Ledger.BeginLastRefused | src/main/java/top/lifeifan/db/backend/tm/TransactionManagerImpl.java:47-106 | once the counter is 2^63 - 9, `begin` leaves a ledger that the next open refuses with BadXidFile, because the next id's position wraps negative |
| Ledger.LedgerImpl.Create | src/main/java/top/lifeifan/db/backend/tm/TransactionManager.java:70-99 | a new ledger file is the 8-byte zero header with counter 0 |
| Ledger.LedgerImpl.Open | src/main/java/top/lifeifan/db/backend/tm/TransactionManager.java:101-118 | the ledger opens on the given file |
| Ledger.LedgerImpl.CheckXidCounter | src/main/java/top/lifeifan/db/backend/tm/TransactionManagerImpl.java:47-70 | fails with BadXidFile exactly when the file is rejected; otherwise the counter is the file's xid count |
| Ledger.LedgerImpl.UpdateXid | src/main/java/top/lifeifan/db/backend/tm/TransactionManagerImpl.java:113-129 | writes the status byte at the xid's wrapped position; fails with IllegalArgument, leaving the file, exactly when that position is negative |
| Ledger.LedgerImpl.IncrXidCounter | src/main/java/top/lifeifan/db/backend/tm/TransactionManagerImpl.java:92-106 | the counter is incremented with `long` wrap-around and written to the header |
| Ledger.LedgerImpl.Begin | src/main/java/top/lifeifan/db/backend/tm/TransactionManagerImpl.java:76-87 | the new xid is counter + 1, written active and then counted in the header; on a valid file whose counter is below 2^63 - 9 the file stays valid, the new xid is active, the file grows by one and older statuses are kept |
| Ledger.LedgerImpl.Commit | src/main/java/top/lifeifan/db/backend/tm/TransactionManagerImpl.java:149-152 | writes COMMITTED at the xid's wrapped position, failing when it is negative; for a counted xid it then reads committed, not active, not aborted, and no other `long` id's status changes |
| Ledger.LedgerImpl.Abort | src/main/java/top/lifeifan/db/backend/tm/TransactionManagerImpl.java:154-157 | writes ABORTED at the xid's wrapped position, failing when it is negative; for a counted xid it then reads aborted, not active, not committed, and no other `long` id's status changes |
| Cache.Bump | src/main/java/top/lifeifan/db/backend/common/AbstractCache.java:63 | taking one more reference increments that key's count and no other |
| Cache.Drop | src/main/java/top/lifeifan/db/backend/common/AbstractCache.java:102-118 | releasing a reference decrements the count, or removes the key at the last reference |
| Cache.DropBump | src/main/java/top/lifeifan/db/backend/common/AbstractCache.java:46-118 | a get followed by a release restores the reference counts |
| Cache.RefCache.constructor | src/main/java/top/lifeifan/db/backend/common/AbstractCache.java:38-44 | a new cache is empty with the given capacity |
| Cache.RefCache.Lookup | src/main/java/top/lifeifan/db/backend/common/AbstractCache.java:47-77 | one round of the get loop: busy while another load runs; a hit takes a reference; a full cache fails with CacheFull; otherwise the key is marked as loading and counted |
| Cache.RefCache.FinishLoad | src/main/java/top/lifeifan/db/backend/common/AbstractCache.java:89-93 | a finished load caches the value with one reference |
| Cache.RefCache.AbortLoad | src/main/java/top/lifeifan/db/backend/common/AbstractCache.java:82-87 | a failed load uncounts the key and clears its loading mark |
| Cache.RefCache.Get | src/main/java/top/lifeifan/db/backend/common/AbstractCache.java:46-96 | hit: the cached value with one more reference; full: CacheFull and nothing changes; miss: the loader's result, cached with one reference on success, nothing changed on failure |
| Cache.RefCache.Update | src/main/java/top/lifeifan/db/backend/common/AbstractCache.java:62 | writing through the shared cached object replaces that key's value |
| Cache.RefCache.Release | src/main/java/top/lifeifan/db/backend/common/AbstractCache.java:102-118 | a key without references fails with NullPointer; the last reference evicts the value and returns it; otherwise the count drops by one |
| Cache.RefCache.Close | src/main/java/top/lifeifan/db/backend/common/AbstractCache.java:123-137 | the `close` loop as written: the first key is evicted, and a second iteration fails with ConcurrentModification |
| Cache.RefCache.CloseAll | src/main/java/top/lifeifan/db/backend/common/AbstractCache.java:123-137 | the intended `close`: every cached value is released in key order and removed with its references |
| Cache.IdentityGetRelease | src/test/java/top/lifeifan/db/backend/dm/common/CacheTest.java:35-44 | with an identity loader, `get(uid)` returns `uid` and the release evicts it, leaving the cache as before |
| PageCache.MaxResourceOf | src/main/java/top/lifeifan/db/backend/dm/pageCache/PageCache.java:33 | the page budget `(int)(memory / 8192)` is an `int` |
| PageCache.PageOffset | src/main/java/top/lifeifan/db/backend/dm/pageCache/PageCacheImpl.java:162-164 | a page's file offset is a multiple of the page size |
| PageCache.PageOffsetOfNumber | src/main/java/top/lifeifan/db/backend/dm/pageCache/PageCacheImpl.java:162-164 | pages are numbered from 1: page p starts at `(p - 1) * 8192` |
| PageCache.PageOffsetNonPositive | src/main/java/top/lifeifan/db/backend/dm/pageCache/PageCacheImpl.java:162-164 | page numbers 0 and below have negative offsets |
| PageCache.PagesDisjoint | src/main/java/top/lifeifan/db/backend/dm/pageCache/PageCacheImpl.java:162-164 | distinct pages occupy disjoint byte ranges of the file |
| PageCache.LoadPage | src/main/java/top/lifeifan/db/backend/dm/pageCache/PageCacheImpl.java:57-72 | loading succeeds exactly at a non-negative offset and gives a clean 8192-byte page with that number |
| PageCache.FlushFile | src/main/java/top/lifeifan/db/backend/dm/pageCache/PageCacheImpl.java:141-155 | flushing succeeds exactly at a non-negative offset |
| PageCache.LoadAfterFlush | src/main/java/top/lifeifan/db/backend/dm/pageCache/PageCacheImpl.java:57-72 | a page flushed and loaded again comes back with the same data, clean |
| PageCache.ReadElsewhere | src/main/java/top/lifeifan/db/backend/dm/pageCache/PageCacheImpl.java:141-155 | a write does not change bytes outside its range |
| PageCache.FlushAllDurable | src/main/java/top/lifeifan/db/backend/dm/pageCache/PageCacheImpl.java:75-80 | after flushing a set of distinct pages, each dirty one loads back as it was |
| PageCache.SetLength | src/main/java/top/lifeifan/db/backend/dm/pageCache/PageCacheImpl.java:117-125 | `setLength` cuts the file or pads it with zeros |
| PageCache.PageCacheImpl.constructor | src/main/java/top/lifeifan/db/backend/dm/pageCache/PageCacheImpl.java:33-49 | an empty cache over the file, with `pageNumbers` = `(int)(length / 8192)` |
| PageCache.PageCacheImpl.GetPage | src/main/java/top/lifeifan/db/backend/dm/pageCache/PageCacheImpl.java:91-94 | the cache's `get` with the page loader: a hit takes a reference, a full cache fails, a miss loads the page and counts one more resource; no page's content changes |
| PageCache.PageCacheImpl.UpdatePage | src/main/java/top/lifeifan/db/backend/dm/pageCache/PageCacheImpl.java:71 | writing into a cached page changes that page's content and no other |
| PageCache.PageCacheImpl.Release | src/main/java/top/lifeifan/db/backend/dm/pageCache/PageCacheImpl.java:74-80 | releasing a page drops a reference; the last release flushes a dirty page; no other page changes; a file and cache within n pages stay within n pages |
| PageCache.FlushWithin | src/main/java/top/lifeifan/db/backend/dm/pageCache/PageCacheImpl.java:141-149 | writing back a page numbered 1..n keeps a file of at most n pages within n pages |
| PageCache.FlushAllWithin | src/main/java/top/lifeifan/db/backend/dm/pageCache/PageCacheImpl.java:96-98 | writing back any sequence of pages numbered 1..n keeps the file within n pages |
| PageCache.PageCacheImpl.NewPage | src/main/java/top/lifeifan/db/backend/dm/pageCache/PageCacheImpl.java:82-89 | the page count grows by one (32-bit wrap) and the initial data is written at the new page's offset |
| PageCache.PageCacheImpl.FlushPage | src/main/java/top/lifeifan/db/backend/dm/pageCache/PageCacheImpl.java:132-155 | the page's bytes are written at its offset, or nothing for a page before the file |
| PageCache.PageCacheImpl.TruncateByPageNo | src/main/java/top/lifeifan/db/backend/dm/pageCache/PageCacheImpl.java:116-125 | the file is set to `maxPageNo` pages and the count follows; pages then read as the cut file |
| PageCache.PageCacheImpl.GetPageNumber | src/main/java/top/lifeifan/db/backend/dm/pageCache/PageCacheImpl.java:127-130 | returns the page count |
| PageCache.PageCacheImpl.Close | src/main/java/top/lifeifan/db/backend/dm/pageCache/PageCacheImpl.java:96-105 | every cached page is evicted and the dirty ones flushed; a file and cache within n pages stay within n pages |
| PageCache.NewPageCache | src/main/java/top/lifeifan/db/backend/dm/pageCache/PageCache.java:29-41 | fails with MemTooSmall below 10 pages; otherwise an empty cache over the file |
| PageCache.CloseDurable | src/main/java/top/lifeifan/db/backend/dm/pageCache/PageCacheImpl.java:96-105 | after closing, each dirty evicted page is in the file |
| PageCache.NewPageResult | src/main/java/top/lifeifan/db/backend/dm/pageCache/PageCacheImpl.java:83-89 | a new page that was given a place reads back its initial bytes from the file; on an empty file it is page 1 |
| Pages.SetVcOpenRaw | src/main/java/top/lifeifan/db/backend/dm/page/PageOne.java:32-34 | opening writes the 8 random bytes at offset 100 and nothing else |
| Pages.SetVcCloseRaw | src/main/java/top/lifeifan/db/backend/dm/page/PageOne.java:41-43 | closing copies bytes 100-107 to 108-115 and nothing else |
| Pages.InitRaw | src/main/java/top/lifeifan/db/backend/dm/page/PageOne.java:21-25 | the first page is zeros except the random open marker |
| Pages.SetVcOpen | src/main/java/top/lifeifan/db/backend/dm/page/PageOne.java:27-30 | opening marks page one dirty and writes the open marker |
| Pages.SetVcClose | src/main/java/top/lifeifan/db/backend/dm/page/PageOne.java:36-39 | closing marks page one dirty and copies the marker |
| Pages.CheckVcAfterClose | src/main/java/top/lifeifan/db/backend/dm/page/PageOne.java:45-52 | after a clean close the check passes |
| Pages.CheckVcAfterOpen | src/main/java/top/lifeifan/db/backend/dm/page/PageOne.java:45-52 | after an open (no close) the check passes only if the random bytes equal the old close marker |
| Pages.SessionMarkers | src/main/java/top/lifeifan/db/backend/dm/page/PageOne.java:21-52 | open then close always checks; open without close fails the check unless the random bytes repeat the old marker |
| Pages.Insert | src/main/java/top/lifeifan/db/backend/dm/DataManagerImpl.java:84-90 | inserting into a page keeps its number and marks it dirty |
| Pages.RecoverInsert | src/main/java/top/lifeifan/db/backend/dm/Recover.java:184 | redoing or undoing an insert keeps the page number and marks it dirty |
| Pages.RecoverUpdate | src/main/java/top/lifeifan/db/backend/dm/Recover.java:234 | the same for an update |
| Pages.AddressToUid | src/main/java/top/lifeifan/db/backend/dm/dataItem/DataItem.java:56 | a page and offset pack into a `long` uid |
| Pages.UidOffset | src/main/java/top/lifeifan/db/backend/dm/DataManagerImpl.java:105 | the offset is the low 16 bits, as a `short` |
| Pages.UidPage | src/main/java/top/lifeifan/db/backend/dm/DataManagerImpl.java:106-107 | the page is the high 32 bits, as an `int` |
| Pages.UidOffsetRoundTrip | src/main/java/top/lifeifan/db/backend/dm/DataManagerImpl.java:105 | the offset comes back from a packed uid |
| Pages.UidPageRoundTrip | src/main/java/top/lifeifan/db/backend/dm/DataManagerImpl.java:106-107 | the page number comes back from a packed uid |
| PageIndex.FirstNonEmpty | src/main/java/top/lifeifan/db/backend/dm/pageIndex/PageIndex.java:46-53 | the scan stops at the first non-empty bucket from the start, or past the last |
| PageIndex.Fits | src/main/java/top/lifeifan/db/backend/dm/pageIndex/PageIndex.java:42-45 | a page from a higher bucket than the request's has more free space than requested |
| PageIndex.CountUpdate | src/main/java/top/lifeifan/db/backend/dm/pageIndex/PageIndex.java:46-65 | replacing one bucket changes a page's count by that bucket's difference |
| PageIndex.TakeHead | src/main/java/top/lifeifan/db/backend/dm/pageIndex/PageIndex.java:52 | removing a bucket's head removes one listing of its page |
| PageIndex.AddOne | src/main/java/top/lifeifan/db/backend/dm/pageIndex/PageIndex.java:65 | adding a page info adds one listing of its page |
| PageIndex.PageIndexImpl.constructor | src/main/java/top/lifeifan/db/backend/dm/pageIndex/PageIndex.java:30-36 | 41 empty buckets |
| PageIndex.PageIndexImpl.Add | src/main/java/top/lifeifan/db/backend/dm/pageIndex/PageIndex.java:60-69 | the info is appended to bucket `freeSpace / 204`; a bucket past 40 fails with IndexOutOfBounds and changes nothing |
| PageIndex.PageIndexImpl.Select | src/main/java/top/lifeifan/db/backend/dm/pageIndex/PageIndex.java:38-58 | a negative start fails; otherwise the head of the first non-empty bucket from `spaceSize / 204` (+1 below 40) is removed and returned, or `null`; a returned page has more free space than asked |
| DataItems.WrapDataItemFields | src/main/java/top/lifeifan/db/backend/dm/dataItem/DataItem.java:46-50 | a wrapped item is 3 + n bytes: valid byte 0, the size as a `short` (exact below 2^15), then the data |
| DataItems.SetDataItemRawInvalid | src/main/java/top/lifeifan/db/backend/dm/dataItem/DataItem.java:42-44 | sets byte 0 to 1 and changes nothing else; an empty array fails with IndexOutOfBounds |
| DataItems.InvalidatedWrap | src/main/java/top/lifeifan/db/backend/dm/dataItem/DataItem.java:42-50 | an invalidated wrapped item is invalid with its size and data intact |
| DataItems.Splice | src/main/java/top/lifeifan/db/backend/dm/dataItem/DataItemImpl.java:54-59 | copying bytes into a buffer at a position replaces that range and nothing else |
| DataItems.ParseDataItem | src/main/java/top/lifeifan/db/backend/dm/dataItem/DataItem.java:52-59 | a parsed item starts at the offset, spans `3 + size` bytes, and has uid `addressToUid(page, offset)` |
| DataItems.ParseWrapped | src/main/java/top/lifeifan/db/backend/dm/dataItem/DataItem.java:52-59 | a wrapped item stored at an offset parses to exactly its span, is valid, and holds the payload |
| DataItems.DataItemImpl.constructor | src/main/java/top/lifeifan/db/backend/dm/dataItem/DataItemImpl.java:30-39 | the item holds its page, uid and span, with an all-zero old image of the span's length |
| DataItems.DataItemImpl.Raw | src/main/java/top/lifeifan/db/backend/dm/dataItem/DataItemImpl.java:109-112 | the item's raw view has the span's length |
| DataItems.DataItemImpl.Data | src/main/java/top/lifeifan/db/backend/dm/dataItem/DataItemImpl.java:45-48 | `data()` is the span without its 3-byte header |
| DataItems.DataItemImpl.Before | src/main/java/top/lifeifan/db/backend/dm/dataItem/DataItemImpl.java:51-55 | marks the page dirty, copies the span into `oldRaw` and enters the write section |
| DataItems.DataItemImpl.UnBefore | src/main/java/top/lifeifan/db/backend/dm/dataItem/DataItemImpl.java:58-61 | copies `oldRaw` back over the span, so the span is as before, and leaves the write section |
| DataItems.DataItemImpl.After | src/main/java/top/lifeifan/db/backend/dm/dataItem/DataItemImpl.java:63-67 | appends one update record `updateLog(xid, uid, oldRaw, span)` to the log and leaves the write section |
| DataItems.BeforeThenUnBefore | src/main/java/top/lifeifan/db/backend/dm/dataItem/DataItemImpl.java:51-61 | `before` then `unBefore` leaves the page bytes as they were, only marked dirty |
| DataManager.PinsSnoc | src/main/java/top/lifeifan/db/backend/dm/DataManagerImpl.java:104-109 | holding one more item adds one pin on its page |
| DataManager.PinsMember | src/main/java/top/lifeifan/db/backend/dm/DataManagerImpl.java:104-109 | a held item pins its page |
| DataManager.PinsWithout | src/main/java/top/lifeifan/db/backend/dm/DataManagerImpl.java:113-115 | dropping a held item removes its pin |
| DataManager.CoversAddItem | src/main/java/top/lifeifan/db/backend/dm/DataManagerImpl.java:104-109 | caching an item with one more page reference keeps every held page covered |
| DataManager.CoversMarker | src/main/java/top/lifeifan/db/backend/dm/DataManagerImpl.java:127-148 | holding page one with one more reference keeps the pages covered |
| DataManager.CoversBump | src/main/java/top/lifeifan/db/backend/dm/DataManagerImpl.java:104-109 | one more reference on any page keeps the pages covered |
| DataManager.CoversDropItem | src/main/java/top/lifeifan/db/backend/dm/DataManagerImpl.java:113-115 | releasing an item's page reference keeps the remaining pages covered |
| DataManager.AllShapedRemove | src/main/java/top/lifeifan/db/backend/dm/DataManagerImpl.java:161-163 | removing a cached item keeps every cached slot at its uid's address |
| DataManager.AllShapedAdd | src/main/java/top/lifeifan/db/backend/dm/DataManagerImpl.java:104-109 | adding a slot at its uid's address keeps them all there |
| DataManager.ItemsSnoc | src/main/java/top/lifeifan/db/backend/dm/DataManagerImpl.java:89-93 | the item list and the cache stay in step when an item is cached |
| DataManager.Filed | src/main/java/top/lifeifan/db/backend/dm/DataManagerImpl.java:38-51 | filing page infos into the buckets keeps 41 buckets |
| DataManager.FiledSnoc | src/main/java/top/lifeifan/db/backend/dm/DataManagerImpl.java:48 | filing one more info appends it to its bucket |
| DataManager.Survey | src/main/java/top/lifeifan/db/backend/dm/DataManagerImpl.java:38-51 | one info per page from 2 on |
| DataManager.SurveyAt | src/main/java/top/lifeifan/db/backend/dm/DataManagerImpl.java:41-48 | entry k is page k + 2 with its free space |
| DataManager.SurveySnoc | src/main/java/top/lifeifan/db/backend/dm/DataManagerImpl.java:41-48 | surveying one more page appends its info |
| DataManager.FlushAllElsewhere | src/main/java/top/lifeifan/db/backend/dm/DataManagerImpl.java:49 | flushing other pages leaves page n as it reads |
| DataManager.FillIndex | src/main/java/top/lifeifan/db/backend/dm/DataManagerImpl.java:38-51 | the loop files pages 2..pageNumber with their free space, in page order; pages' contents and references are unchanged; with room for a page and every page fileable, it succeeds |
| DataManager.FileableAt | src/main/java/top/lifeifan/db/backend/dm/pageIndex/PageIndex.java:60-65 | when every page up to `pages` has a bucket, so does the surveyed entry of any page 2..pages |
| DataManager.IndexPage | src/main/java/top/lifeifan/db/backend/dm/DataManagerImpl.java:42-49 | one round: fetch page i, file it with its free space, release it; with room and a bucket for the page, it succeeds and the resource count is back where it was |
| DataManager.FreeSpaceOf | src/main/java/top/lifeifan/db/backend/dm/DataManagerImpl.java:42-49 | fetching and releasing a page reads its free space and changes no page; with room in the cache it cannot fail, and it leaves the resource count as it was |
| DataManager.DataManagerImpl.constructor | src/main/java/top/lifeifan/db/backend/dm/DataManagerImpl.java:30-36 | an unbounded item cache, an empty page index, no page one |
| DataManager.DataManagerImpl.GetForCache | src/main/java/top/lifeifan/db/backend/dm/DataManagerImpl.java:103-110 | decodes page and offset from the uid, fetches the page (one more reference) and parses the item there; no content changes |
| DataManager.DataManagerImpl.GetItem | src/main/java/top/lifeifan/db/backend/dm/DataManagerImpl.java:53-55 | the item cache's `get`: a hit returns the cached slot; a miss parses the item at the uid's address and caches it with one reference; a failure changes nothing |
| DataManager.DataManagerImpl.LoadItem | src/main/java/top/lifeifan/db/backend/dm/DataManagerImpl.java:79-93 | the loading half of `get`: success caches the parsed slot, failure leaves the cache as it was |
| DataManager.DataManagerImpl.AbortItem | src/main/java/top/lifeifan/db/backend/dm/DataManagerImpl.java:82-87 | a failed load leaves the item cache and its references unchanged |
| DataManager.DataManagerImpl.FillItem | src/main/java/top/lifeifan/db/backend/dm/DataManagerImpl.java:89-93 | a finished load caches the slot with one reference |
| DataManager.DataManagerImpl.Release | src/main/java/top/lifeifan/db/backend/dm/DataManagerImpl.java:112-115 | an uncached item fails with NullPointer; otherwise it loses a reference, and at its last one leaves the cache and releases its page (flushing it when that was the page's last reference) |
| DataManager.DataManagerImpl.DropItem | src/main/java/top/lifeifan/db/backend/dm/DataManagerImpl.java:161-163 | the item cache's `release`: reports whether the last reference went |
| DataManager.DataManagerImpl.Read | src/main/java/top/lifeifan/db/backend/dm/DataManagerImpl.java:53-61 | the item is returned (with one more reference) iff its valid byte is 0; an invalid item is released and `null` returned |
| DataManager.DataManagerImpl.SelectPage | src/main/java/top/lifeifan/db/backend/dm/DataManagerImpl.java:70-82 | at most 5 selects; each miss adds a new page; five misses fail with DatabaseBusy; a page found has room; with empty pages of full size one miss suffices |
| DataManager.DataManagerImpl.InsertAt | src/main/java/top/lifeifan/db/backend/dm/DataManagerImpl.java:83-100 | logs the insert record before the page changes, inserts into that page only, and re-files the page with its new free space; a failed fetch re-files it with 0 |
| DataManager.DataManagerImpl.PlaceInPage | src/main/java/top/lifeifan/db/backend/dm/DataManagerImpl.java:85-93 | fetches the page, logs, inserts and releases; the result is the offset and the new free space |
| DataManager.DataManagerImpl.WriteInsert | src/main/java/top/lifeifan/db/backend/dm/DataManagerImpl.java:87-92 | the log record holds the page's free-space offset before the insert, and the page content after is `PageX.insert` of it |
| DataManager.DataManagerImpl.Insert | src/main/java/top/lifeifan/db/backend/dm/DataManagerImpl.java:63-101 | DataTooLarge when the wrapped item exceeds the page's free space; the uid returned addresses the chosen page and offset; the log gets exactly the insert record of the wrapped data |
| DataManager.DataManagerImpl.FillPageIndex | src/main/java/top/lifeifan/db/backend/dm/DataManagerImpl.java:38-51 | the index is the old index with every data page's free space filed; no page content changes; with room and every page fileable, it succeeds |
| DataManager.DataManagerImpl.FetchMarker | src/main/java/top/lifeifan/db/backend/dm/DataManagerImpl.java:131-144 | page n is fetched and held as page one; an uncached page with room in the cache is always fetched, and counts one more resource |
| DataManager.DataManagerImpl.InitPageOne | src/main/java/top/lifeifan/db/backend/dm/DataManagerImpl.java:127-136 | a new page is allocated as page one, holding the initial marker page, and flushed; the file then reaches exactly to the end of the new page when it was shorter |
| DataManager.DataManagerImpl.LoadCheckPageOne | src/main/java/top/lifeifan/db/backend/dm/DataManagerImpl.java:142-149 | page 1 is held as page one and the result is its marker check; from an empty cache it cannot fail, and pages fileable on disk stay fileable with page 1 cached |
| DataManager.DataManagerImpl.FirstPageOne | src/main/java/top/lifeifan/db/backend/dm/DataManagerImpl.java:127-136 | on an empty store `initPageOne` cannot fail: page 1 is made with the open marker, cached and in the file, and the file is at least one page long |
| DataManager.DataManagerImpl.NewMarkerPage | src/main/java/top/lifeifan/db/backend/dm/pageCache/PageCacheImpl.java:83-89 | the page count grows by one (as an `int`) and the new page's bytes are written into the file at once and nothing else is; on an empty store it is page 1 |
| DataManager.DataManagerImpl.FlushMarker | src/main/java/top/lifeifan/db/backend/dm/pageCache/PageCacheImpl.java:133-135 | flushing the marker page writes its buffer at its offset and nothing else, and changes no page's bytes |
| DataManager.DataManagerImpl.CheckAndRecover | src/main/java/top/lifeifan/db/backend/dm/DataManager.java:30-36 | recovery runs exactly when page 1's marker check fails; skipped, the ledger, page count and pages are unchanged; run, they are as `RecoveredFrom` describes; a passing marker check always skips recovery, leaving room for the index fill |
| DataManager.DataManagerImpl.RecoverPages | src/main/java/top/lifeifan/db/backend/dm/DataManager.java:35 | recovery as `open` runs it leaves the ledger, page count and pages as `RecoveredFrom` describes them for the page file as it was |
| DataManager.DataManagerImpl.FillAndMark | src/main/java/top/lifeifan/db/backend/dm/DataManager.java:37-39 | the index is filled with the survey of pages 2 on as they were, page 1 gets the new open marker and is in the file, and no other page changes; with room and every page fileable, it succeeds |
| DataManager.DataManagerImpl.OpenMarker | src/main/java/top/lifeifan/db/backend/dm/DataManager.java:38-39 | page 1 gets the open marker `rnd` and the file holds it; other pages unchanged |
| DataManager.DataManagerImpl.OpenStore | src/main/java/top/lifeifan/db/backend/dm/DataManager.java:33-41 | recovery runs iff page 1's marker check fails; the index is filled from the pages as the check or recovery left them; page 1 holds the new marker and is in the file; a passing marker check over fileable pages, with room for two pages, always opens without recovery |
| DataManager.DataManagerImpl.Close | src/main/java/top/lifeifan/db/backend/dm/DataManagerImpl.java:118-125 | with the caches closed as intended: every cached item released, the marker page stamped with the close marker and in the file, the caches empty; without a marker page, NullPointer; a file and cache within n pages stay within n pages |
| DataManager.DataManagerImpl.ReleaseItems | src/main/java/top/lifeifan/db/backend/dm/DataManagerImpl.java:113-115 | each cached item gives back its page reference, in any order; the marker page keeps its bytes; a file and cache within n pages stay within n pages |
| DataManager.DataManagerImpl.CloseMarker | src/main/java/top/lifeifan/db/backend/dm/DataManagerImpl.java:122-124 | the marker page, stamped with the close marker, is in the file and the page cache is empty; a file and cache within n pages stay within n pages |
| DataManager.DataManagerImpl.StampMarker | src/main/java/top/lifeifan/db/backend/dm/DataManagerImpl.java:122-123 | the marker page gets the close marker, dirty in the cache or, once evicted, in the file; a file and cache within n pages stay within n pages |
| DataManager.Present | src/main/java/top/lifeifan/db/backend/common/AbstractCache.java:126-132 | the keys a `HashMap` iteration visits: exactly the map's keys the order lists, each once |
| DataManager.CloseKeepsPage | src/main/java/top/lifeifan/db/backend/common/AbstractCache.java:126-132 | closing the page cache puts every page in the file with the bytes it had, cached or not |
| DataManager.SurveySame | src/main/java/top/lifeifan/db/backend/dm/DataManagerImpl.java:38-51 | the index fill reads pages 2 on only |
| DataManager.Create | src/main/java/top/lifeifan/db/backend/dm/DataManager.java:21-28 | MemTooSmall exactly when the budget is too small; otherwise a new store whose page 1 holds the open marker, in the file, which is one page long, with an empty log |
| DataManager.Assemble | src/main/java/top/lifeifan/db/backend/dm/DataManager.java:21-33 | MemTooSmall exactly when the budget is too small; otherwise the caches over the page file and the log, nothing cached and an empty index |
| DataManager.Open | src/main/java/top/lifeifan/db/backend/dm/DataManager.java:30-43 | recovery runs iff page 1's marker check fails; the index is filled from the pages recovery left; page 1 holds the new open marker and is in the file; with enough memory, a sound log, a passing marker check and fileable pages, it always succeeds without recovery |
| DataManager.FileableUncached | src/main/java/top/lifeifan/db/backend/dm/DataManagerImpl.java:41-48 | pages fileable as the file reads stay fileable once some of them are cached with the same bytes |
| DataManager.ClosedOnePage | src/main/java/top/lifeifan/db/backend/dm/pageCache/PageCacheImpl.java:48 | a file of at most one page counts at most one page, so a reopen fills no page |
| DataManager.CreateCloseOpen | src/main/java/top/lifeifan/db/backend/dm/DataManager.java:21-43 | create, close, then open: with enough memory it always succeeds; the open skips recovery, the ledger is untouched, and page 1 holds the new open marker over the closed page |
| Entries.XminAt | src/main/java/top/lifeifan/db/backend/vm/Entry.java:83-91 | `getXmin` reads the `long` at the entry's start; it fails exactly when those bytes lie outside the page |
| Entries.XmaxAt | src/main/java/top/lifeifan/db/backend/vm/Entry.java:93-101 | `getXmax` reads the `long` 8 bytes in, within the same bounds |
| Entries.DataAt | src/main/java/top/lifeifan/db/backend/vm/Entry.java:61-71 | `data()` is the item's data without the 16-byte header; a shorter item fails with NegativeArraySize |
| Entries.ZeroLong | src/main/java/top/lifeifan/db/backend/vm/Entry.java:57 | eight zero bytes read as the `long` 0 |
| Entries.WrapEntryFields | src/main/java/top/lifeifan/db/backend/vm/Entry.java:55-59 | an entry built by `wrapEntryRaw(xid, data)` has xmin xid, xmax 0 and the data back |
| Entries.SpliceXmax | src/main/java/top/lifeifan/db/backend/vm/Entry.java:73-81 | writing `long2Byte(xid)` at the xmax offset makes xmax read xid and leaves xmin and the data as they were |
| Entries.Entry.constructor | src/main/java/top/lifeifan/db/backend/vm/Entry.java:33-39 | `newEntry` holds the uid and the data item |
| Entries.Entry.SetXmax | src/main/java/top/lifeifan/db/backend/vm/Entry.java:73-81 | brackets the write with `before`/`after`: the old image is saved, the page gets xid at the xmax offset and is dirty, and the log gets `updateLog(xid, uid, old image, new image)`; a header that does not fit fails with IndexOutOfBounds |
| Visibility.CommittedKnown | src/main/java/top/lifeifan/db/backend/vm/Visibility.java:16 | `isCommitted` answers exactly for the ids whose status position is not negative (and the super transaction); among `long` ids those are -7 to 2^63 - 8 |
| Visibility.ReadCommittedMeaning | src/main/java/top/lifeifan/db/backend/vm/Visibility.java:7-27 | read committed: visible iff created by t and not deleted, or created by a committed transaction and not deleted or deleted by another uncommitted one |
| Visibility.RepeatableReadMeaning | src/main/java/top/lifeifan/db/backend/vm/Visibility.java:29-48 | repeatable read: visible iff created by t and not deleted, or created by an earlier committed transaction outside t's snapshot and not deleted, or deleted by another transaction that is uncommitted, later than t, or in t's snapshot |
| Visibility.OwnInsertVisible | src/main/java/top/lifeifan/db/backend/vm/Visibility.java:12-35 | a transaction sees its own undeleted insert at both levels |
| Visibility.OwnDeleteInvisible | src/main/java/top/lifeifan/db/backend/vm/Visibility.java:22-42 | a transaction never sees a version it deleted itself |
| Visibility.RepeatableReadStable | src/main/java/top/lifeifan/db/backend/vm/Visibility.java:29-48 | under repeatable read the answer depends only on the status of transactions before t and outside its snapshot, so later commits do not change it |
| Visibility.VersionSkipMeaning | src/main/java/top/lifeifan/db/backend/vm/Visibility.java:57-65 | never a version skip at read committed; otherwise a skip iff the deleter committed and is later than t or in its snapshot |
| VersionManager.StampXmax | src/main/java/top/lifeifan/db/backend/vm/Entry.java:73-81 | stamping xmax keeps the entry's length |
| VersionManager.ReadOwnInsert | src/main/java/top/lifeifan/db/backend/vm/VersionManagerImpl.java:90-100 | an entry a transaction inserted reads back as its data |
| VersionManager.ReadAfterOwnDelete | src/main/java/top/lifeifan/db/backend/vm/VersionManagerImpl.java:133-143 | after a transaction deletes an entry, it reads `null` there |
| VersionManager.StampKeeps | src/main/java/top/lifeifan/db/backend/vm/Entry.java:73-81 | stamping sets xmax and keeps xmin and the data |
| VersionManager.ReadStable | src/main/java/top/lifeifan/db/backend/vm/VersionManagerImpl.java:57-84 | under repeatable read a read gives the same answer whatever commits outside the snapshot happen later |
| VersionManager.VersionManagerImpl.constructor | src/main/java/top/lifeifan/db/backend/vm/VersionManagerImpl.java:25-34 | only the super transaction 0 is registered, at read committed with an empty snapshot; the lock table is new and empty |
| VersionManager.VersionManagerImpl.Begin | src/main/java/top/lifeifan/db/backend/vm/VersionManagerImpl.java:160-172 | the ledger's next id is registered with the level and snapshot; below the counter's limit the id is the old counter + 1 and active in the ledger |
| VersionManager.VersionManagerImpl.Read | src/main/java/top/lifeifan/db/backend/vm/VersionManagerImpl.java:57-84 | an unregistered xid faults (NullPointer), a sticky error is rethrown, otherwise the entry's data when visible and `null` when not or when the item is invalid |
| VersionManager.VersionManagerImpl.Insert | src/main/java/top/lifeifan/db/backend/vm/VersionManagerImpl.java:90-100 | NullPointer or the sticky error change nothing; otherwise the data manager stores `wrapEntryRaw(xid, data)` under the uid returned, which the inserter then reads back |
| VersionManager.VersionManagerImpl.InternAbort | src/main/java/top/lifeifan/db/backend/vm/VersionManagerImpl.java:210-222 | an unregistered xid faults; a manual abort unregisters; unless already auto-aborted, the lock table's `remove` as written (`RemovedAsWritten`) releases xid and the ledger records it aborted |
| VersionManager.VersionManagerImpl.Abort | src/main/java/top/lifeifan/db/backend/vm/VersionManagerImpl.java:200-203 | `internAbort(xid, false)`: unregistered, locks released by `remove` as written and ABORTED written, or nothing more after an auto-abort |
| VersionManager.VersionManagerImpl.AutoAbort | src/main/java/top/lifeifan/db/backend/vm/VersionManagerImpl.java:149-153 | the transaction stays registered and is flagged auto-aborted, its locks are released by `remove` as written, ABORTED is written, and the conflict error is thrown |
| VersionManager.VersionManagerImpl.Commit | src/main/java/top/lifeifan/db/backend/vm/VersionManagerImpl.java:178-198 | an unregistered xid faults and a sticky error is rethrown with nothing changed; otherwise the xid is unregistered, its locks released by `remove` as written and COMMITTED written |
| VersionManager.VersionManagerImpl.Delete | src/main/java/top/lifeifan/db/backend/vm/VersionManagerImpl.java:102-147 | over the lock table as written: errors as in `read`; an invisible entry is not deleted; a deadlock auto-aborts with ConcurrentUpdate; a wait leaves the xid blocked on the uid; a delete stamps xmax with xid and nothing else |
| VersionManager.VersionManagerImpl.AbortConcurrent | src/main/java/top/lifeifan/db/backend/vm/VersionManagerImpl.java:121-140 | sets the sticky ConcurrentUpdate error and auto-aborts, releasing the locks by `remove` as written |
| VersionManager.VersionManagerImpl.LockEntry | src/main/java/top/lifeifan/db/backend/vm/VersionManagerImpl.java:116-131 | `lockTable.add` as written: on a deadlock the transaction is auto-aborted; a wait changes nothing else; otherwise the delete goes on |
| VersionManager.VersionManagerImpl.ResumeDelete | src/main/java/top/lifeifan/db/backend/vm/VersionManagerImpl.java:132-143 | already deleted by xid: false; a version skip auto-aborts with ConcurrentUpdate, releasing by `remove` as written; otherwise xmax becomes xid, xmin and data stay, and xid no longer sees the entry |
| LockTable.ReachSnoc | src/main/java/top/lifeifan/db/backend/vm/LockTable.java:149-164 | a walk of n + 1 edges is the walk of n edges plus the next edge, if there is one |
| LockTable.ReachPrefix | src/main/java/top/lifeifan/db/backend/vm/LockTable.java:149-164 | a walk that reaches step n passes every earlier step |
| LockTable.ReachPastStuck | src/main/java/top/lifeifan/db/backend/vm/LockTable.java:149-164 | past a transaction without an outgoing edge the walk goes nowhere |
| LockTable.ReachPeriodic | src/main/java/top/lifeifan/db/backend/vm/LockTable.java:149-164 | once a walk is back where it was m edges earlier, it repeats with period m |
| LockTable.StuckNotRevisits | src/main/java/top/lifeifan/db/backend/vm/LockTable.java:159-160 | a walk that stops at a transaction waiting for nothing has no cycle |
| LockTable.EndsNotBreaks | src/main/java/top/lifeifan/db/backend/vm/LockTable.java:159-162 | a walk that stops cannot also meet a dangling edge |
| LockTable.EndsExclusive | src/main/java/top/lifeifan/db/backend/vm/LockTable.java:149-164 | the three outcomes of `dfs` are exclusive: a walk that stops neither cycles nor dangles |
| LockTable.ReachStep | src/main/java/top/lifeifan/db/backend/vm/LockTable.java:161-163 | a walk from x through its edge to y is the walk from y one step shorter |
| LockTable.EndsStep | src/main/java/top/lifeifan/db/backend/vm/LockTable.java:163 | x's walk stops if its successor's does |
| LockTable.BreaksStep | src/main/java/top/lifeifan/db/backend/vm/LockTable.java:163 | x's walk dangles if its successor's does |
| LockTable.OneMoreEdge | src/main/java/top/lifeifan/db/backend/vm/LockTable.java:151-163 | a cycle or a hit on this round's stamp found from x's successor is found from x |
| LockTable.FewerLeft | src/main/java/top/lifeifan/db/backend/vm/LockTable.java:157 | stamping one more transaction shrinks what is left to stamp, so `dfs` terminates |
| LockTable.PutIntoList | src/main/java/top/lifeifan/db/backend/vm/LockTable.java:172-176 | the value is appended to the key's list, created empty when missing; other keys unchanged |
| LockTable.IndexOf | src/main/java/top/lifeifan/db/backend/vm/LockTable.java:181 | the first position of the value, or the length when absent |
| LockTable.RemoveFirst | src/main/java/top/lifeifan/db/backend/vm/LockTable.java:181 | `List.remove(Object)`: the first occurrence is cut out; an absent value changes nothing |
| LockTable.RemoveFromList | src/main/java/top/lifeifan/db/backend/vm/LockTable.java:178-182 | a missing key changes nothing; otherwise the key's list loses its first occurrence of the value |
| LockTable.FirstWaiting | src/main/java/top/lifeifan/db/backend/vm/LockTable.java:113-126 | the position of the first queued transaction that still waits for a lock, every one before it not waiting |
| LockTable.QueueUpdate | src/main/java/top/lifeifan/db/backend/vm/LockTable.java:115-117 | taking the front off the queue, and dropping the queue once it is empty, leaves the remainder filed |
| LockTable.SelectTakes | src/main/java/top/lifeifan/db/backend/vm/LockTable.java:107-128 | with the k-th queued transaction the first still waiting, it becomes the holder and stops waiting, the queue keeping what followed it |
| LockTable.SelectNobody | src/main/java/top/lifeifan/db/backend/vm/LockTable.java:107-128 | when no queued transaction waits, the entry is left free and the queue consumed |
| LockTable.TakeWaiting | src/main/java/top/lifeifan/db/backend/vm/LockTable.java:113-127 | the loop takes transactions off the front until one still waits, which it returns; if none waits the queue is dropped and no transaction is returned |
| LockTable.SelectFifo | src/main/java/top/lifeifan/db/backend/vm/LockTable.java:113-126 | first come first served: the earliest still-waiting transaction gets the entry, and with nobody waiting it is free |
| LockTable.SelectRecorded | src/main/java/top/lifeifan/db/backend/vm/LockTable.java:107-128 | `selectNewXID` corrected: the selection is `Select`, and the new holder, if any, gets the entry listed |
| LockTable.SelectRecordedPending | src/main/java/top/lifeifan/db/backend/vm/LockTable.java:113-126 | a handover never adds to what `remove(xid)` has left, so its loop terminates |
| LockTable.ReleaseHeldKeepsRecord | src/main/java/top/lifeifan/db/backend/vm/LockTable.java:88-94 | corrected: with every held entry listed under its holder, the handovers keep that so and empty `xid`'s list |
| LockTable.RemovedHoldsNothing | src/main/java/top/lifeifan/db/backend/vm/LockTable.java:85-101 | after the corrected `remove(xid)`, no entry is held by `xid` |
| LockTable.ReleaseKeepsOthers | src/main/java/top/lifeifan/db/backend/vm/LockTable.java:88-94 | with `remove` as written, entries outside the released list keep their holder |
| LockTable.LockTableImpl.constructor | src/main/java/top/lifeifan/db/backend/vm/LockTable.java:33-40 | all five maps start empty |
| LockTable.LockTableImpl.Dfs | src/main/java/top/lifeifan/db/backend/vm/LockTable.java:149-164 | true only if the walk from x cycles or meets this round's stamp; false only if it stops at a non-waiter; a dangling edge faults with NullPointer; stamps grow only by this round's |
| LockTable.LockTableImpl.HasDeadLock | src/main/java/top/lifeifan/db/backend/vm/LockTable.java:133-147 | over the holders in hash order: true only if some holder's walk cycles, false only if every holder's walk stops, NullPointer only if some walk dangles; and false whenever every walk stops |
| LockTable.LockTableImpl.Add | src/main/java/top/lifeifan/db/backend/vm/LockTable.java:49-79 | as written: an entry already held by xid: nothing; a free one: granted and listed; otherwise xid waits for it and is queued under its own id (`putIntoList(wait, xid, uid)`), answering true, or on a deadlock withdraws the wait and fails |
| LockTable.LockTableImpl.Wait | src/main/java/top/lifeifan/db/backend/vm/LockTable.java:62-75 | as written, the waiting half of `add`: holders and lists untouched; on success xid waits for uid and is queued under its own id; on a deadlock the wait is withdrawn and the queue under uid loses xid |
| LockTable.LockTableImpl.SelectNewXid | src/main/java/top/lifeifan/db/backend/vm/LockTable.java:107-128 | as written: the new state is `Select` of the old, the earliest queued transaction still waiting taking the entry without being listed as its holder |
| LockTable.LockTableImpl.Remove | src/main/java/top/lifeifan/db/backend/vm/LockTable.java:85-101 | as written: the new state and lists are `RemovedAsWritten`: each entry xid holds is handed over by `Select` in list order, xid is no longer listed and no longer waits |
| LockTable.QueueWaiter | src/main/java/top/lifeifan/db/backend/vm/LockTable.java:65 | corrected: the waiter is appended to the queue filed under the entry, where `selectNewXID` looks, other queues unchanged |
| LockTable.LostWakeup | src/main/java/top/lifeifan/db/backend/vm/LockTable.java:65-111 | as written: a waiter queued under its own id is never handed the entry; it stays waiting and the entry free |
| LockTable.QueuedWaiterWoken | src/main/java/top/lifeifan/db/backend/vm/LockTable.java:107-126 | queued under the entry, the only waiter receives the entry and stops waiting |
| LockTable.HandoverUnrecorded | src/main/java/top/lifeifan/db/backend/vm/LockTable.java:121 | as written: a handed-over entry is not listed under the new holder, and that holder's `remove` leaves it held |
| LockTable.SelectRecordedKeepsRecord | src/main/java/top/lifeifan/db/backend/vm/LockTable.java:107-128 | recording the new holder keeps every held entry listed under its holder |
| Executors.ExecutorImpl.constructor | src/main/java/top/lifeifan/db/backend/server/Executor.java:13-16 | a new session has no open transaction and has made no calls |
| Executors.ExecutorImpl.Close | src/main/java/top/lifeifan/db/backend/server/Executor.java:18-23 | an open transaction is aborted; nothing else is called |
| Executors.ExecutorImpl.Execute | src/main/java/top/lifeifan/db/backend/server/Executor.java:25-52 | the new transaction id, the calls made on the table manager and the result are those of `ExecuteSpec` on the parsed statement |
| Executors.ExecutorImpl.Execute2 | src/main/java/top/lifeifan/db/backend/server/Executor.java:55-92 | the same for a data statement, through `Execute2Spec` |
| Executors.OpenCountAppend | src/main/java/top/lifeifan/db/backend/server/Executor.java:25-92 | the balance of begins over commits and aborts adds up over concatenated call sequences |
| Executors.ExecuteBalances | src/main/java/top/lifeifan/db/backend/server/Executor.java:25-92 | when begin and commit succeed, one `execute` changes the begin/end balance by exactly the change in whether a transaction is open |
| Executors.TemporaryBalances | src/main/java/top/lifeifan/db/backend/server/Executor.java:55-92 | outside a transaction a data statement opens and closes its own transaction and leaves none open |
| Executors.SessionBalances | src/main/java/top/lifeifan/db/backend/server/Executor.java:18-92 | over any sequence of statements, the calls balance begins against ends up to the open transaction, and `close` brings the balance back to where the session started |
| Executors.TemporaryTransaction | src/main/java/top/lifeifan/db/backend/server/Executor.java:58-91 | outside a transaction: a read-committed begin, the statement, then abort if the statement failed or commit otherwise; the session is left without a transaction unless that commit failed; the statement's error is rethrown |
| Executors.MalformedStatement | src/main/java/top/lifeifan/db/backend/server/Executor.java:27-91 | a statement that does not parse runs as a temporary transaction that is begun and committed with no result |
| Executors.InsideTransaction | src/main/java/top/lifeifan/db/backend/server/Executor.java:58-78 | inside a transaction a data statement runs under that xid and neither begins nor ends one |
| Executors.ControlStatements | src/main/java/top/lifeifan/db/backend/server/Executor.java:28-48 | `begin` inside a transaction fails with NestedTransaction; `commit`/`abort` outside one fail with NoTransaction, calling nothing; otherwise they begin, commit or abort and set the xid (a failed commit keeps it) |
| SqlParser.ParseSingleExp | src/main/java/top/lifeifan/db/backend/parser/Parser.java:404-423 | a comparison is a name, a comparison operator and a value, three tokens long |
| SqlParser.ParseWhere | src/main/java/top/lifeifan/db/backend/parser/Parser.java:370-398 | a parsed `where` holds one or two well-formed comparisons joined by `and`/`or` and ends the statement |
| SqlParser.ParseUpdate | src/main/java/top/lifeifan/db/backend/parser/Parser.java:88-115 | `update t set f = v [where …]` parses to a well-formed statement |
| SqlParser.ParseDelete | src/main/java/top/lifeifan/db/backend/parser/Parser.java:117-133 | `delete from t where …` parses to a well-formed statement |
| SqlParser.ParseDrop | src/main/java/top/lifeifan/db/backend/parser/Parser.java:211-229 | `drop table t`, with nothing after, parses to a well-formed statement |
| SqlParser.SelectNames | src/main/java/top/lifeifan/db/backend/parser/Parser.java:175-187 | the field list of `select` is one or more names separated by commas |
| SqlParser.ValuesAfter | src/main/java/top/lifeifan/db/backend/parser/Parser.java:155-162 | the values of `insert` are every token up to the end of input |
| SqlParser.ValuesNonEmpty | src/main/java/top/lifeifan/db/backend/parser/Parser.java:155-162 | no value of `insert` is the empty token |
| SqlParser.CreateFields | src/main/java/top/lifeifan/db/backend/parser/Parser.java:246-271 | the field list of `create table` gives as many names as types and stops before "(" |
| SqlParser.CreateFieldsOk | src/main/java/top/lifeifan/db/backend/parser/Parser.java:246-271 | every parsed field has a name and a known type |
| SqlParser.IndexNames | src/main/java/top/lifeifan/db/backend/parser/Parser.java:283-294 | corrected index loop: names up to ")"; a non-name fails with InvalidLogOp, the end of input with InvalidCommand |
| SqlParser.SelectRest | src/main/java/top/lifeifan/db/backend/parser/Parser.java:189-208 | after the fields: `from`, a table name, and an optional `where` ending the statement |
| SqlParser.ParseSelect | src/main/java/top/lifeifan/db/backend/parser/Parser.java:167-209 | `select` parses to a well-formed statement |
| SqlParser.ParseInsert | src/main/java/top/lifeifan/db/backend/parser/Parser.java:135-165 | `insert into t values …` parses to a well-formed statement |
| SqlParser.ParseCreate | src/main/java/top/lifeifan/db/backend/parser/Parser.java:231-302 | `create table` parses to a well-formed statement |
| SqlParser.Dispatch | src/main/java/top/lifeifan/db/backend/parser/Parser.java:21-65 | the first token chooses the rule; what it builds is well formed |
| SqlParser.PrefixedNone | src/main/java/top/lifeifan/db/backend/parser/Parser.java:155-162 | nothing in front of a parsed list leaves it as it is |
| SqlParser.PrefixedAppend | src/main/java/top/lifeifan/db/backend/parser/Parser.java:155-162 | collecting the list one element at a time builds the same list |
| SqlParser.ParseSelectFields | src/main/java/top/lifeifan/db/backend/parser/Parser.java:175-187 | the `select` field loop computes `SelectNames` |
| SqlParser.ParseInsertValues | src/main/java/top/lifeifan/db/backend/parser/Parser.java:155-162 | the `insert` values loop computes `ValuesAfter` |
| SqlParser.ValuesRound | src/main/java/top/lifeifan/db/backend/parser/Parser.java:155-162 | one round of the values loop either stops at the end or takes one more value |
| SqlParser.ParseCreateFields | src/main/java/top/lifeifan/db/backend/parser/Parser.java:246-271 | the `create` field loop computes `CreateFields` |
| SqlParser.FieldsNone | src/main/java/top/lifeifan/db/backend/parser/Parser.java:246-271 | no fields in front of a parsed field list leaves it as it is |
| SqlParser.FieldsRound | src/main/java/top/lifeifan/db/backend/parser/Parser.java:246-271 | one round of the field loop: stop at "(", reject a bad name or type, continue on ",", TableNoIndex at the end, stop on "(" after a type |
| SqlParser.ParseIndexList | src/main/java/top/lifeifan/db/backend/parser/Parser.java:283-294 | the index loop, with the end of input rejected, computes `IndexNames` |
| SqlParser.ParseSelectStatement | src/main/java/top/lifeifan/db/backend/parser/Parser.java:167-209 | `parseSelect` computes `ParseSelect` |
| SqlParser.ParseInsertStatement | src/main/java/top/lifeifan/db/backend/parser/Parser.java:135-165 | `parseInsert` computes `ParseInsert` |
| SqlParser.ParseCreateStatement | src/main/java/top/lifeifan/db/backend/parser/Parser.java:231-302 | `parseCreate` computes `ParseCreate` |
| SqlParser.ParseCreateTail | src/main/java/top/lifeifan/db/backend/parser/Parser.java:276-302 | the rest of `parseCreate`, after its field list, computes `CreateTail` |
| SqlParser.Parse | src/main/java/top/lifeifan/db/backend/parser/Parser.java:21-78 | `Parse` gives the statement its rule built, or null when the rule failed; trailing tokens are not rejected |
| SqlParser.NameList | src/main/java/top/lifeifan/db/backend/parser/Parser.java:175-187 | n names are written as 2n - 1 tokens |
| SqlParser.PeekIn | src/main/java/top/lifeifan/db/backend/parser/Parser.java:21-78 | (token positions) a part set between two others is read at its offset |
| SqlParser.PeekAfter | src/main/java/top/lifeifan/db/backend/parser/Parser.java:21-78 | (token positions) right after a part comes what follows it |
| SqlParser.NameListParses | src/main/java/top/lifeifan/db/backend/parser/Parser.java:175-187 | a comma-separated name list parses back to its names |
| SqlParser.ValuesParse | src/main/java/top/lifeifan/db/backend/parser/Parser.java:155-162 | non-empty values at the end of input parse back to themselves |
| SqlParser.FieldsParse | src/main/java/top/lifeifan/db/backend/parser/Parser.java:246-271 | a written field list parses back to its names and types |
| SqlParser.IndexParse | src/main/java/top/lifeifan/db/backend/parser/Parser.java:283-294 | a written index list closed by ")" parses back to its names |
| SqlParser.SingleUnitName | src/main/java/top/lifeifan/db/backend/parser/Parser.java:425-427 | a token of one UTF-16 unit is a name exactly when it is a letter |
| SqlParser.WhereParse | src/main/java/top/lifeifan/db/backend/parser/Parser.java:370-423 | a written `where` clause parses back to itself |
| SqlParser.SelectRestParses | src/main/java/top/lifeifan/db/backend/parser/Parser.java:189-208 | `from t [where …]` parses back |
| SqlParser.RenderSelectParses | src/main/java/top/lifeifan/db/backend/parser/Parser.java:167-209 | a written `select` parses back to itself |
| SqlParser.SelectFieldsParse | src/main/java/top/lifeifan/db/backend/parser/Parser.java:169-187 | a written field list is `*` alone or parses back as names |
| SqlParser.SelectSteps | src/main/java/top/lifeifan/db/backend/parser/Parser.java:167-209 | `parseSelect` is its field list followed by `SelectRest` |
| SqlParser.RenderCreateParses | src/main/java/top/lifeifan/db/backend/parser/Parser.java:231-302 | a written `create table` parses back to itself |
| SqlParser.CreateSteps | src/main/java/top/lifeifan/db/backend/parser/Parser.java:231-302 | `parseCreate` is the head, the field list, the index list and the end check in turn |
| SqlParser.RenderUpdateParses | src/main/java/top/lifeifan/db/backend/parser/Parser.java:88-115 | a written `update` parses back to itself |
| SqlParser.RenderParses | src/main/java/top/lifeifan/db/backend/parser/Parser.java:21-78 | every well-formed statement, written out as tokens, parses back to itself |
| SqlParser.RenderCreateStat | src/main/java/top/lifeifan/db/backend/parser/Parser.java:39-41 | the same for `create` |
| SqlParser.RenderSelectStat | src/main/java/top/lifeifan/db/backend/parser/Parser.java:45-47 | the same for `select` |
| SqlParser.RenderInsertStat | src/main/java/top/lifeifan/db/backend/parser/Parser.java:48-50 | the same for `insert` |
| SqlParser.RenderDeleteStat | src/main/java/top/lifeifan/db/backend/parser/Parser.java:51-53 | the same for `delete` |
| SqlParser.RenderDeleteParses | src/main/java/top/lifeifan/db/backend/parser/Parser.java:117-133 | a written `delete` parses back to itself |
| SqlParser.RenderUpdateStat | src/main/java/top/lifeifan/db/backend/parser/Parser.java:54-56 | the same for `update` |
| SqlParser.RenderKeywordParses | src/main/java/top/lifeifan/db/backend/parser/Parser.java:29-59 | the same for `begin`, `commit`, `abort`, `show` and `drop` |
| SqlParser.IndexLoopCorrected | src/main/java/top/lifeifan/db/backend/parser/Parser.java:283-294 | wherever the loop as written stops it agrees with `IndexNames`; where `IndexNames` reports the missing ")", it never stops |
| SqlParser.UnclosedIndexNeverEnds | src/main/java/top/lifeifan/db/backend/parser/Parser.java:283-294 | `create table t a int32 ( index a` never leaves the index loop as written |
| Fields.TypeCheck | src/main/java/top/lifeifan/db/backend/tbm/Field.java:73-77 | passes exactly for `int32`, `int64` and `string`; anything else fails with InvalidField |
| Fields.CreateField | src/main/java/top/lifeifan/db/backend/tbm/Field.java:60-71 | fails with InvalidField iff the type is unknown; otherwise a field with that name and type, indexed iff asked (the index root is a parameter) |
| Fields.FieldRaw | src/main/java/top/lifeifan/db/backend/tbm/Field.java:98-103 | `persistSelf`'s bytes: the name and type frames and the 8-byte index root, which `parseSelf` reads back as the same column when name and type are ASCII |
| Fields.ParseSelf | src/main/java/top/lifeifan/db/backend/tbm/Field.java:79-96 | a loaded column keeps its uid, its name is `parseString` of the record and its index a `long`; its only errors are IllegalArgument and IndexOutOfBounds, and a record under 4 bytes fails |
| Fields.ParseSelfCuts | src/main/java/top/lifeifan/db/backend/tbm/Field.java:83-87 | the copies `parseSelf` takes inside the record are exactly the bytes there |
| Fields.ParseSelfSteps | src/main/java/top/lifeifan/db/backend/tbm/Field.java:79-96 | `parseSelf` reads the name, then the type from where the name ended, then the 8-byte root |
| Fields.ParseSelfPieces | src/main/java/top/lifeifan/db/backend/tbm/Field.java:79-96 | the same over a record given as its three pieces |
| Fields.FieldRoundTrip | src/main/java/top/lifeifan/db/backend/tbm/Field.java:79-103 | what `persistSelf` writes, `parseSelf` reads back as the same field (ASCII name and type) |
| Fields.CreateThenLoad | src/main/java/top/lifeifan/db/backend/tbm/Field.java:49-103 | a created field, loaded back from its record, has the name, type and indexing it was created with |
| Fields.String2Value | src/main/java/top/lifeifan/db/backend/tbm/Field.java:131-141 | an integer type parses its text, in decimal digits of any script, within its range or fails with NumberFormat; `string` keeps the text; an unknown type gives null |
| Fields.Value2Uid | src/main/java/top/lifeifan/db/backend/tbm/Field.java:115-129 | the key is defined iff the type is unknown (key 0) or the value has the column's type; a null value fails with NullPointer, a mistyped one with ClassCast |
| Fields.Value2Raw | src/main/java/top/lifeifan/db/backend/tbm/Field.java:143-157 | 4 bytes for `int32`, 8 for `int64`, a length-prefixed UTF-8 string for `string`; a null fails with NullPointer, a mistyped value with ClassCast |
| Fields.DecodeValue | src/main/java/top/lifeifan/db/backend/tbm/Field.java:189-207 | a decoded cell has the column's type, the long case chosen by the case label given |
| Fields.ParserValueAsWritten | src/main/java/top/lifeifan/db/backend/tbm/Field.java:189-207 | as written the long case is labelled `int62`, so an `int64` column decodes to null with shift 0 |
| Fields.ParserValue | src/main/java/top/lifeifan/db/backend/tbm/Field.java:189-207 | corrected: a decoded cell has the column's type |
| Fields.ParserValueAgrees | src/main/java/top/lifeifan/db/backend/tbm/Field.java:189-207 | both agree on every type but `int64` and `int62` |
| Fields.ValueRoundTrip | src/main/java/top/lifeifan/db/backend/tbm/Field.java:143-207 | what `value2Raw` writes, the corrected `parserValue` reads back, with the shift its length |
| Fields.Int64NeverDecoded | src/main/java/top/lifeifan/db/backend/tbm/Field.java:196 | an encoded `int64` is null as written and decoded correctly after the fix |
| Fields.PrintValue | src/main/java/top/lifeifan/db/backend/tbm/Field.java:209-222 | fails with ClassCast only for a `string` column holding a non-string |
| Fields.PrintThenParse | src/main/java/top/lifeifan/db/backend/tbm/Field.java:131-222 | what `printValue` writes, `string2Value` reads back as the same value |
| Fields.ShowIntAscii | src/main/java/top/lifeifan/db/backend/tbm/Field.java:213-216 | a printed integer is ASCII |
| Fields.KeyOf | src/main/java/top/lifeifan/db/backend/tbm/Field.java:165-179 | the key of a comparison's text is a `long`, or NumberFormat |
| Fields.CalExp | src/main/java/top/lifeifan/db/backend/tbm/Field.java:159-183 | corrected: fails iff the operator is known and its text has no key |
| Fields.CalExpMeaning | src/main/java/top/lifeifan/db/backend/tbm/Field.java:159-183 | corrected: a `long` key lies in the range iff it satisfies the comparison |
| Fields.IntegerKey | src/main/java/top/lifeifan/db/backend/tbm/Field.java:115-141 | the key of a printed integer is that integer |
| Fields.LessThanAsWritten | src/main/java/top/lifeifan/db/backend/tbm/Field.java:163-170 | as written `< n` never reaches a negative key, and `< 0` scans the key 0 |
| Fields.GreaterThanMaxAsWritten | src/main/java/top/lifeifan/db/backend/tbm/Field.java:176-180 | as written `> Long.MAX_VALUE` wraps to a range holding every key |
| Fields.CalExpAsWritten | src/main/java/top/lifeifan/db/backend/tbm/Field.java:159-183 | as written: NumberFormat exactly when the comparison's value is not a key of the column's type; `<` scans from 0 and `>` up to Long.MAX_VALUE |
| Fields.RangesAgree | src/main/java/top/lifeifan/db/backend/tbm/Field.java:159-183 | as written and corrected, `calExp` fails on the same comparisons with the same error and agrees on `=` |
| Fields.CalExpAsWrittenMeaning | src/main/java/top/lifeifan/db/backend/tbm/Field.java:159-183 | as written, `< k` scans the keys from 0 below k (0 alone when k is 0, none when k is negative), `= k` the key k, `> k` the keys above k, and every key when k is Long.MAX_VALUE |
| Tables.IsIndexedName | src/main/java/top/lifeifan/db/backend/tbm/Table.java:46-53 | the inner loop finds a column iff its name is in the index list |
| Tables.CreateTable | src/main/java/top/lifeifan/db/backend/tbm/Table.java:41-57 | fails with InvalidField iff some column type is unknown; otherwise the table has the given name, next uid and uid, and one field per column in order, indexed iff named in the index list |
| Tables.NewColumn | src/main/java/top/lifeifan/db/backend/tbm/Table.java:41-57 | column i of a `create table` has the statement's name and type and its own uid, and with a non-zero root it is indexed exactly when the index clause names it, on that root |
| Tables.UidsRaw | src/main/java/top/lifeifan/db/backend/tbm/Table.java:88-91 | the field uids are written as 8 bytes each |
| Tables.PersistSelf | src/main/java/top/lifeifan/db/backend/tbm/Table.java:85-94 | the record written is the table's layout: name, next uid, field uids |
| Tables.TableRaw | src/main/java/top/lifeifan/db/backend/tbm/Table.java:85-94 | `persistSelf`'s bytes: the name frame, 8 bytes of next uid and 8 per column, which `parSelf` (its loop moving on) reads back as the name, next uid and column uids when the name is ASCII |
| Tables.ParSelf | src/main/java/top/lifeifan/db/backend/tbm/Table.java:70-83 | corrected `parSelf` (advancing past each uid) computes `HeadOf` |
| Tables.ParHead | src/main/java/top/lifeifan/db/backend/tbm/Table.java:70-76 | the header `parSelf` reads: `parseString`'s error, or its text as the name, a `long` next uid, and the loop's start `next + 8` |
| Tables.UidLoopAsWritten | src/main/java/top/lifeifan/db/backend/tbm/Table.java:78-81 | as written the loop never moves: it finishes only when the position is already past the record, having read no uid |
| Tables.UidLoop | src/main/java/top/lifeifan/db/backend/tbm/Table.java:78-81 | corrected loop, moving 8 bytes on: no uid iff the position is past the record, otherwise one uid per started 8 bytes |
| Tables.ParSelfAsWritten | src/main/java/top/lifeifan/db/backend/tbm/Table.java:70-83 | as written: a header error is returned; a finished read has no column uids and finishes only when the header already reaches the record's end |
| Tables.HeadOf | src/main/java/top/lifeifan/db/backend/tbm/Table.java:70-83 | corrected `parSelf`: succeeds exactly when the header does, with its name and next uid and a column uid for every 8 bytes after it |
| Tables.UidLoopReads | src/main/java/top/lifeifan/db/backend/tbm/Table.java:78-81 | the corrected loop reads back the uids written after the header |
| Tables.ParHeadPieces | src/main/java/top/lifeifan/db/backend/tbm/Table.java:72-76 | the header is the name followed by the next uid |
| Tables.TableRoundTrip | src/main/java/top/lifeifan/db/backend/tbm/Table.java:70-94 | what `persistSelf` writes, the corrected `parSelf` reads back: name, next uid and field uids |
| Tables.UidLoopStuck | src/main/java/top/lifeifan/db/backend/tbm/Table.java:78-81 | as written, the loop never moves `position`, so with bytes left it never ends |
| Tables.ParSelfNeverEnds | src/main/java/top/lifeifan/db/backend/tbm/Table.java:70-83 | as written, loading a stored table with any field never ends; without fields it agrees with the corrected one |
| Tables.Names | src/main/java/top/lifeifan/db/backend/tbm/Table.java:119-124 | one name per field |
| Tables.PutsSnoc | src/main/java/top/lifeifan/db/backend/tbm/Table.java:123 | putting one more cell into the map extends it by that key |
| Tables.Cells | src/main/java/top/lifeifan/db/backend/tbm/Table.java:120-124 | one parsed cell per column up to n |
| Tables.CellsErrStays | src/main/java/top/lifeifan/db/backend/tbm/Table.java:120-124 | the first failing column's error ends the loop |
| Tables.String2Entry | src/main/java/top/lifeifan/db/backend/tbm/Table.java:115-126 | the loop computes `EntryOf` |
| Tables.EntryOf | src/main/java/top/lifeifan/db/backend/tbm/Table.java:115-126 | InvalidValues when the counts differ, otherwise NumberFormat when a value does not convert; a built row has exactly the column names as keys |
| Tables.PutsDomain | src/main/java/top/lifeifan/db/backend/tbm/Table.java:119-124 | putting values under names gives a map whose keys are exactly the names |
| Tables.PutsGet | src/main/java/top/lifeifan/db/backend/tbm/Table.java:119-124 | with distinct names, each column's cell is read back under its name |
| Tables.PutsKeys | src/main/java/top/lifeifan/db/backend/tbm/Table.java:119-124 | the map's keys are exactly the column names |
| Tables.CellsMeaning | src/main/java/top/lifeifan/db/backend/tbm/Table.java:120-124 | the cells are defined iff every column's text parses, and each is `string2Value` of its text |
| Tables.EntryOfMeaning | src/main/java/top/lifeifan/db/backend/tbm/Table.java:115-126 | InvalidValues when the count differs; otherwise defined iff every text parses, with each column's cell under its name and only those names |
| Tables.Value2RawWritesJavaCells | src/main/java/top/lifeifan/db/backend/tbm/Table.java:107-113 | `value2Raw` is a cell writer of the kind `entry2Raw` expects |
| Tables.EntryRawErrStays | src/main/java/top/lifeifan/db/backend/tbm/Table.java:107-113 | the first failing cell's error ends `entry2Raw` |
| Tables.EntryRawStep | src/main/java/top/lifeifan/db/backend/tbm/Table.java:109-111 | one round of `entry2Raw` appends the next column's cell or stops on its error |
| Tables.Entry2Raw | src/main/java/top/lifeifan/db/backend/tbm/Table.java:107-113 | the loop computes `EntryRaw` |
| Tables.EntryRaw | src/main/java/top/lifeifan/db/backend/tbm/Table.java:107-113 | `entry2Raw` over the first n columns succeeds only if every column's cell is written, and fails with the error of a column whose writer fails |
| Tables.Decoded | src/main/java/top/lifeifan/db/backend/tbm/Table.java:204-208 | n columns decoded give n cells |
| Tables.DecodedStep | src/main/java/top/lifeifan/db/backend/tbm/Table.java:204-208 | one round of `parseEntry` appends the next cell and advances by its shift (as an `int`) |
| Tables.DecodedFails | src/main/java/top/lifeifan/db/backend/tbm/Table.java:204-208 | a cell that fails to decode ends the loop with its error |
| Tables.DecodedErrStays | src/main/java/top/lifeifan/db/backend/tbm/Table.java:204-208 | the error stays once it happened |
| Tables.ParseEntry | src/main/java/top/lifeifan/db/backend/tbm/Table.java:201-210 | the loop computes `EntryFrom` |
| Tables.EntryFrom | src/main/java/top/lifeifan/db/backend/tbm/Table.java:201-210 | `parseEntry` succeeds exactly when every column decodes, and the row has exactly the column names as keys |
| Tables.CellsOf | src/main/java/top/lifeifan/db/backend/tbm/Table.java:107-113 | the cells of the first n columns of a row |
| Tables.CellsOfAt | src/main/java/top/lifeifan/db/backend/tbm/Table.java:107-113 | entry i is column i's cell |
| Tables.ReadColumnWritten | src/main/java/top/lifeifan/db/backend/tbm/Table.java:205 | corrected reader (`long` case spelled "int64"): a cell written by `value2Raw` is read back at its position, with its length as the shift |
| Tables.ReadColumn | src/main/java/top/lifeifan/db/backend/tbm/Table.java:205 | the corrected reader: IllegalArgument past the record's end, IndexOutOfBounds before 0, otherwise `parserValue` of the rest of the record |
| Tables.ReadColumnAsWritten | src/main/java/top/lifeifan/db/backend/tbm/Table.java:205 | `parserValue` as written (`long` case spelled "int62"): the same bounds errors, and the corrected reader's result on every type but `int64` |
| Tables.CodecReadsBack | src/main/java/top/lifeifan/db/backend/tbm/Table.java:107-210 | `value2Raw` and the corrected `parserValue` form a writer/reader pair |
| Tables.EntryRawPrefix | src/main/java/top/lifeifan/db/backend/tbm/Table.java:107-113 | with such a pair, `entry2Raw` succeeds and each prefix is the previous plus one cell |
| Tables.DecodeOneMore | src/main/java/top/lifeifan/db/backend/tbm/Table.java:204-208 | decoding one more written cell adds it and moves past it |
| Tables.DecodeWritten | src/main/java/top/lifeifan/db/backend/tbm/Table.java:201-210 | decoding what `entry2Raw` wrote gives the cells back, ending where they end |
| Tables.RowRoundTrip | src/main/java/top/lifeifan/db/backend/tbm/Table.java:107-210 | for any writer/reader pair, a row written and read back holds every column's cell |
| Tables.StoredRowRoundTrip | src/main/java/top/lifeifan/db/backend/tbm/Table.java:107-210 | corrected reader: with the column codec, a stored row reads back with every column's cell |
| Tables.StoredRowRoundTripAsWritten | src/main/java/top/lifeifan/db/backend/tbm/Table.java:107-210 | as written, a table without `int64` columns reads every stored row back with every column's cell |
| Tables.Int64RowReadsNull | src/main/java/top/lifeifan/db/backend/tbm/Field.java:189-207 | as written, a stored `int64` cell reads back as null, where the corrected reader gets the value back |
| Tables.Texts | src/main/java/top/lifeifan/db/backend/tbm/Table.java:189-197 | one printed text per column |
| Tables.TextsErrStays | src/main/java/top/lifeifan/db/backend/tbm/Table.java:189-197 | the first failing column's error ends the loop |
| Tables.TextsStep | src/main/java/top/lifeifan/db/backend/tbm/Table.java:190-191 | one round prints the next column's cell |
| Tables.PrintedSnoc | src/main/java/top/lifeifan/db/backend/tbm/Table.java:191-196 | each text is followed by ", " and the last by "]" |
| Tables.PrintEntry | src/main/java/top/lifeifan/db/backend/tbm/Table.java:187-199 | the loop computes `EntryText` |
| Tables.EntryText | src/main/java/top/lifeifan/db/backend/tbm/Table.java:187-199 | `printEntry` starts with "[" and, when there are columns, ends with "]"; the only failure is ClassCast |
| Tables.PrintedCells | src/main/java/top/lifeifan/db/backend/tbm/Table.java:187-199 | printing a row gives texts that parse back to its cells |
| Tables.PrintedCell | src/main/java/top/lifeifan/db/backend/tbm/Table.java:191 | a printed cell parses back to itself |
| Tables.PrintThenInsert | src/main/java/top/lifeifan/db/backend/tbm/Table.java:115-199 | a row printed by `read` and fed back to `insert` gives the same cells |
| Tables.CalWhere | src/main/java/top/lifeifan/db/backend/tbm/Table.java:262-290 | `calWhere` over `calExp` as written (`corrected` false) or corrected: single iff the operator is not `or`; an operator other than "", `and`, `or` fails with InvalidLogOp |
| Tables.CalWhereMeaning | src/main/java/top/lifeifan/db/backend/tbm/Table.java:262-290 | corrected: with the corrected ranges, a key is selected iff it satisfies the first comparison, both (`and`) or either (`or`), both comparisons taken on the first one's column |
| Tables.CalWhereAgree | src/main/java/top/lifeifan/db/backend/tbm/Table.java:262-290 | as written and corrected, `calWhere` fails on the same clauses with the same error, and the two agree on equality comparisons |
| Tables.FirstIndexed | src/main/java/top/lifeifan/db/backend/tbm/Table.java:218-224 | the first indexed column, none before it indexed |
| Tables.FirstNamed | src/main/java/top/lifeifan/db/backend/tbm/Table.java:230-239 | the first column with the name, none before it so named |
| Tables.ScanAllSelects | src/main/java/top/lifeifan/db/backend/tbm/Table.java:216-227 | without a where clause the first indexed column is scanned: corrected, over a range holding every `long` key; as written, over exactly the keys from 0 up; no indexed column faults with NullPointer |
| Tables.ScanAll | src/main/java/top/lifeifan/db/backend/tbm/Table.java:216-227 | fails with NullPointer exactly when no column is indexed; otherwise the first indexed column over the single range from `low` to Long.MAX_VALUE |
| Tables.ScanWhere | src/main/java/top/lifeifan/db/backend/tbm/Table.java:228-247 | the scanned column is indexed, in the table, and named by the first comparison; the errors are FieldNotFound, FieldNotIndexed or `calWhere`'s |
| Tables.WherePlanAsWritten | src/main/java/top/lifeifan/db/backend/tbm/Table.java:212-253 | `parseWhere` as written: the scanned column is an indexed column of the table, and without a where clause the keys scanned are exactly 0 to Long.MAX_VALUE |
| Tables.WherePlan | src/main/java/top/lifeifan/db/backend/tbm/Table.java:212-253 | corrected `parseWhere`: without a where clause every `long` key is scanned |
| Tables.ScanAllMissesNegative | src/main/java/top/lifeifan/db/backend/tbm/Table.java:225-226 | as written, the scan without a where clause starts at 0 and misses negative keys |
| Tables.ScanWhereErrors | src/main/java/top/lifeifan/db/backend/tbm/Table.java:228-247 | as written: FieldNotFound iff no column has the where clause's name; FieldNotIndexed if the first one so named has no index; otherwise that column's `calWhere` as written |
| Tables.UpdateUnknownColumn | src/main/java/top/lifeifan/db/backend/tbm/Table.java:141-150 | FieldNotFound iff no column has the updated name |
| Tables.UpdateColumn | src/main/java/top/lifeifan/db/backend/tbm/Table.java:141-151 | the first column with the name is updated to `string2Value` of the text, or its error |
| Tables.UpdateTarget | src/main/java/top/lifeifan/db/backend/tbm/Table.java:139-152 | `update` before its loop: a failure of `parseWhere` as written is returned; otherwise the scan is that plan, the column is the table's one with the statement's field name, and the new value is a cell, non-null exactly when the type is known |
| Tables.IndexKeys | src/main/java/top/lifeifan/db/backend/tbm/Table.java:164-168 | corrected: one key per column (none for an unindexed one) |
| Tables.UpdateKeysAsWritten | src/main/java/top/lifeifan/db/backend/tbm/Table.java:164-168 | as written: every indexed column gets the updated column's key |
| Tables.ColumnKey | src/main/java/top/lifeifan/db/backend/tbm/Table.java:164-168 | only an indexed column's key can fail |
| Tables.IndexKeysMeaning | src/main/java/top/lifeifan/db/backend/tbm/Table.java:164-168 | corrected: the keys are defined iff each column's is, and entry i is column i's own key |
| Tables.UpdatedKeys | src/main/java/top/lifeifan/db/backend/tbm/Table.java:159-168 | corrected: after the update each indexed column is keyed by its own cell, the updated column by the new value |
| Tables.UpdateKeysCollide | src/main/java/top/lifeifan/db/backend/tbm/Table.java:166 | two indexed int columns a = 5, b = 7: as written both are keyed 5, corrected 5 and 7 |
| Launcher.ParseMem | src/main/java/top/lifeifan/db/backend/Launcher.java:63-83 | a parsed size is a `long`; a size parsed from text ends in KB, MB or GB; every failure is InvalidMem or NumberFormat |
| Launcher.ParseMemDefault | src/main/java/top/lifeifan/db/backend/Launcher.java:64-66 | no option, or an empty one, gives 64 MiB |
| Launcher.ParseMemUnits | src/main/java/top/lifeifan/db/backend/Launcher.java:70-79 | a number written by `String.valueOf` followed by KB, MB or GB is that many units; the `long` product wraps, and is exact while in range |
| Launcher.ParseMemTooShort | src/main/java/top/lifeifan/db/backend/Launcher.java:67-71 | a single character of one UTF-16 unit is refused with InvalidMem; one above U+FFFF is two units, taken as the unit after an empty number, and fails with NumberFormat |
| Launcher.ParseMemErrors | src/main/java/top/lifeifan/db/backend/Launcher.java:67-81 | with the last two characters single UTF-16 units: text before the unit that is not a `long` fails with NumberFormat whatever the unit, and an unknown unit after a number fails with InvalidMem; a last character above U+FFFF is a surrogate-pair unit, so the result is NumberFormat or InvalidMem as the rest parses; a supplementary character just before a BMP last one leaves half a surrogate pair in the number, so NumberFormat |
| Launcher.ParseMemFullwidth | src/main/java/top/lifeifan/db/backend/Launcher.java:70-79 | the number may use digits of another script: fullwidth "64MB" is 64 MiB |
| Decimal.ParseLongText | src/main/java/top/lifeifan/db/backend/tbm/Field.java:136 | `Long.parseLong` yields a `long` or NumberFormat |
| Decimal.ParseIntText | src/main/java/top/lifeifan/db/backend/tbm/Field.java:134 | `Integer.parseInt` yields an `int` or NumberFormat |
| Decimal.DigitFromRun | src/main/java/top/lifeifan/db/backend/tbm/Field.java:134-136 | the offset found is taken within a run of the table that holds the character, and -1 means no run from there on holds it |
| Decimal.DigitFromUnique | src/main/java/top/lifeifan/db/backend/tbm/Field.java:134-136 | with runs apart, the offset found is the character's offset in any run holding it, and -1 exactly when none does |
| Decimal.AdjacentApart | src/main/java/top/lifeifan/db/backend/tbm/Field.java:134-136 | runs that each end before the next one starts are pairwise apart |
| Decimal.ZerosApart | src/main/java/top/lifeifan/db/backend/tbm/Field.java:134-136 | the table's runs of ten digits ascend without overlapping |
| Decimal.DigitValue | src/main/java/top/lifeifan/db/backend/tbm/Field.java:134-136 | `Character.digit(c, 10)` is -1 or a digit value below 10, and an ASCII digit's value is its offset from '0' |
| Decimal.DigitValueRuns | src/main/java/top/lifeifan/db/backend/tbm/Field.java:134-136 | a character in a run of Unicode decimal digits has its offset in the run as its value, and a character in no run is not a digit |
| Decimal.DigitOfRun | src/main/java/top/lifeifan/db/backend/tbm/Field.java:134-136 | a character in the `k`-th run has its offset from that run's zero as its value |
| Decimal.TwoDigits | src/main/java/top/lifeifan/db/backend/tbm/Field.java:134-136 | two digits spell ten times the first value plus the second |
| Decimal.FullwidthDigits | src/main/java/top/lifeifan/db/backend/tbm/Field.java:136 | `Long.parseLong` reads fullwidth "64" as 64 |
| Decimal.FullwidthSigned | src/main/java/top/lifeifan/db/backend/tbm/Field.java:134 | `Integer.parseInt` reads fullwidth "-12", after an ASCII minus, as -12 |
| Decimal.NatDigitsValue | src/main/java/top/lifeifan/db/backend/tbm/Field.java:213-216 | the digits written for a number are ASCII digits and spell that number |
| Decimal.ShowIntParses | src/main/java/top/lifeifan/db/backend/tbm/Field.java:213-216 | the text `String.valueOf` writes for any integer reads back as that integer |
| Decimal.LongTextRoundTrip | src/main/java/top/lifeifan/db/backend/tbm/Field.java:136-216 | `Long.parseLong(String.valueOf(v)) == v` for every `long` |
| Decimal.IntTextRoundTrip | src/main/java/top/lifeifan/db/backend/tbm/Field.java:134-213 | `Integer.parseInt(String.valueOf(v)) == v` for every `int` |
| Decimal.LongTextRejects | src/main/java/top/lifeifan/db/backend/tbm/Field.java:134-136 | empty text, a lone sign, and a character that is not a decimal digit of any script (after an optional leading sign) are refused by both parsers |
| Decimal.NatDigitsLength | src/main/java/top/lifeifan/db/backend/tbm/Field.java:213-216 | a number below 10^k is written with at most k digits |
| Decimal.ShowIntShape | src/main/java/top/lifeifan/db/backend/tbm/Field.java:216 | a `long` is written with at most 20 characters, ASCII digits and a leading minus |

## Left out

- Concurrency: the Java locks (`ReentrantLock`, `synchronized`, the page lock in `PageImpl`) are not modelled; every method runs atomically. A lock request that would block becomes a `Waits`/`Busy` result, and the blocked `delete` resumes through `ResumeDelete`.
- Real file I/O: `RandomAccessFile`/`FileChannel` become a `seq<byte>` field; a read past the end sees zeros and a write past the end extends the file with zeros. Creating, opening and closing files, and their failures other than a bad header, are not modelled.
- `Panic.panic` ends the process; here it is an error result carrying the exception kind.
- `RandomUtil` (the random bytes of the first page's check value) is a parameter.
- `HashMap` iteration order is a parameter wherever the source iterates a map. The undo pass takes `hash` and visits the groups in `IterOrder(hash)`, which reaches every ordering of the groups (`VisitedAsHashed`). The cache close, the lock table's deadlock scan and the item release take the order as a sequence of keys.
- Printing to `System.out` in the executor and the launcher is not modelled.
- The server, the client, the socket transport and `Package`/`Encoder` are not part of this model.
- The command-line handling of `Launcher.main` (`openDB`/`createDB` wiring) is not modelled; only `parseMem` is.
- The B+ tree (`im/BPlusTree.java`, `im/Node.java`) is not part of this model: index searches and inserts are left to the callers, and `where` evaluation stops at the key ranges it would search.
- `TableManagerImpl`, `Booter` and the `Transaction` class are not part of this model; a transaction's snapshot of active ids is a parameter of `Begin`.
- The tokenizer (`parser/Tokenizer.java`) is not part of this model: statements are parsed from token lists.
- `PageX` (free-space bookkeeping of ordinary pages) is not part of this model beyond the record of its operations used by the data manager.
- Creating and opening the page file and the log file, and the logger's `close`, are file I/O and not modelled: `DataManager.Create` starts from empty files and `DataManager.Open` from the files' contents, and `Close` leaves the log as it is.
- DataManager.DataManagerImpl.Close: the item cache and the page cache are closed as intended (`CloseAll`), every cached key released once; `AbstractCache.close` as written removes from the key set it iterates, which is under Findings (`Cache.RefCache.Close`).
- `Table.insert`, `delete`, `update` and `read` as a whole are not modelled because they call the version manager and the B+ tree; their pure parts (row text, row encoding, where plans, updated index keys) are.
- Entries.Entry.SetXmax: its `ensures` states the new page map and log record; what that means for xmin, xmax and data is proved about `SpliceXmax` instead.
- Codec.NewString: `new String(bytes)` and `getBytes()` use the platform's default charset; the model takes it to be UTF-8.
- Codec.ParseString: `parseString` counts UTF-16 code units while `string2Byte` writes bytes; the model keeps this as written (characters stand for code units, bytes for UTF-8 bytes), and `ParseStringNonAscii` shows the disagreement for non-ASCII text. The body is decoded by the JDK's replacement rules, one U+FFFD per maximal malformed subpart, so the cut-off text is what Java returns: `ParseStringTruncated` shows "你好" read back as a single U+FFFD.
- Logger.LoggerImpl.Next: `LoggerImpl` never updates `fileSize` after `truncate` or `log`; the model keeps this as written, and `NextAtPastEnd` shows what a reader past the real end then sees. No corrected logger is given.
- Launcher.ParseMem: its own `ensures` gives the `long` range, the unit and the error kinds; the values it computes are stated by the lemmas beside it.
- Decimal.DigitValue: the table of decimal digits is that of Unicode 7.0 and later, as in Java 9 and later; Java 8's older table lacks the Sinhala Lith (U+0DE6) and Myanmar Tai Laing (U+A9F0) digits.
- LockTable.LockTableImpl.HasDeadLock: true and NullPointer are given in one direction only, because the scan stops at the first holder whose walk cycles or dangles, so which of the two it reports depends on the order; false is given in both directions.
- LockTable.QueueWaiter, LockTable.SelectRecorded and LockTable.Removed are the corrected lock table; the class and the version manager run the table as written (`PutIntoList(wait, xid, uid)`, `Select`, `RemovedAsWritten`).
- Tables.ReadColumnWritten: stated for the corrected reader; as written the same holds on every type but `int64` (`Tables.ReadColumnAsWritten`), and an `int64` cell reads back as null (`Tables.Int64RowReadsNull`).
- Tables.StoredRowRoundTrip: stated for the corrected reader; as written it holds for tables without `int64` columns (`Tables.StoredRowRoundTripAsWritten`).
- Tables.CalWhereMeaning: stated for the corrected ranges; what one comparison scans as written is `Fields.CalExpAsWrittenMeaning`.

## Findings

Recovery, the lock table, the version manager and the where plans run the code as written; each corrected definition sits beside them with its property proved. Three operations run corrected instead:

- two loops that never end as written, `parSelf`'s uid loop and the index-name loop of `create table`, whose as-written forms are given on fuel;
- the cache close, which `DataManager.DataManagerImpl.Close` takes as intended.

| source | as written | input that shows it | evidently intended | confidence | as-written member | corrected member |
|---|---|---|---|---|---|---|
| src/main/java/top/lifeifan/db/backend/dm/Recover.java:212 | the old image of an update record is copied from offset 15 | undoing `updateLog(1, 0, [], [])` writes the old image `[0, 0]` | the old image starts at offset 17, after type, xid and uid, so undo restores it | high, not executed | Recovery.UndoUpdateAsWrittenWitness | Recovery.UndoUpdateIntended |
| src/main/java/top/lifeifan/db/backend/vm/LockTable.java:65 | a waiting transaction is queued under its own id, not the entry's | xid 2 waits for entry 5 held by xid 1; xid 1 is removed | xid 2 is queued under entry 5 and is handed it when xid 1 ends | high, not executed | LockTable.LostWakeup | LockTable.QueuedWaiterWoken |
| src/main/java/top/lifeifan/db/backend/vm/LockTable.java:121 | an entry handed to a waiter is recorded in `u2x` but not listed in `x2u` | the new holder is later removed | the handover lists the entry under the new holder, so its `remove` frees it | high, not executed | LockTable.HandoverUnrecorded | LockTable.RemovedHoldsNothing |
| src/main/java/top/lifeifan/db/backend/parser/Parser.java:283-294 | the index-name loop only stops at ")" | `create table t a int32 ( index a` | a missing ")" is a syntax error | high, not executed | SqlParser.UnclosedIndexNeverEnds | SqlParser.IndexLoopCorrected |
| src/main/java/top/lifeifan/db/backend/tbm/Field.java:196 | the `long` case of `parserValue` is labelled `int62` | any cell of an `int64` column | the case is `int64` | high, not executed | Fields.Int64NeverDecoded | Fields.ValueRoundTrip |
| src/main/java/top/lifeifan/db/backend/tbm/Field.java:163-180 | `<` scans from 0 and `>` adds 1 to the key without a guard | `a < -5`, or `a > 9223372036854775807` | the ranges hold exactly the keys satisfying the comparison | medium, not executed | Fields.GreaterThanMaxAsWritten | Fields.CalExpMeaning |
| src/main/java/top/lifeifan/db/backend/tbm/Table.java:78-81 | the field-uid loop never advances `position` | loading any table with at least one field | `position` moves 8 bytes per uid | high, not executed | Tables.ParSelfNeverEnds | Tables.TableRoundTrip |
| src/main/java/top/lifeifan/db/backend/tbm/Table.java:216-227 | a scan without `where` covers the keys from 0 up | a row whose indexed `int64` value is -1 | every key is scanned | medium, not executed | Tables.ScanAllMissesNegative | Tables.ScanAllSelects |
| src/main/java/top/lifeifan/db/backend/tbm/Table.java:166 | every indexed column is re-indexed by the updated column's value | two indexed int columns a = 5, b = 7, `update t set a = 5` | each column is indexed by its own value | high, not executed | Tables.UpdateKeysCollide | Tables.UpdatedKeys |
| src/main/java/top/lifeifan/db/backend/common/AbstractCache.java:126-132 | `close` removes from the map it is iterating | a cache holding two pages | every cached value is released and removed | high, not executed | Cache.RefCache.Close | Cache.RefCache.CloseAll |
