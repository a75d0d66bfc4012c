# TDengine ODBC driver: a verified model of its protocols and data formats

This project models the parts of the TDengine ODBC driver where a mistake is hard to see by reading
one function, and proves that they keep their promises on every input and in every run.

| module | what it models |
| --- | --- |
| `DriverInit` | the compare-and-swap protocol that picks the process-wide driver, run by any number of threads |
| `Handles` | reference counts and child counters of environments, connections and descriptors under concurrent alloc, free and use calls |
| `Topic` | the topic consumer: poll, describe, fetch, commit, reset and reopen |
| `EjsonHeap` | the reference-counted heap of ejson values, with shared children |
| `EjsonText`, `EjsonWriter` | the text of an ejson value, and the serializer that writes it into a buffer |
| `Hex` | hexadecimal printing and reading, and the chunked reader of binary literals |
| `RawBlock` | the columnar raw block format and the reader of one cell |
| `Transcode` | UTF-16 and UTF-32 transcoding through 16-bit words (RFC 2781, sections 2.1 and 2.2) and the chunked conversion loop |
| `Cursors` | the row cursors over blocks, filtered tables, and the columns of those tables |
| `TsdbStmt` | ownership of results and prepared statements, and the fields of parameters |
| `TableTypes` | the packed list of table types and the search in it |
| `Errs` | the diagnostic records of a handle |
| `Tally` | sums over sequences, used by the step machines |

How the models are built:

- Protocols that several threads run (`DriverInit`, `Handles`) are step machines: one atomic access is
  one step, and a schedule interleaves the steps of all calls. Theorems speak about every schedule.
- Code that changes an object in place is a class with the same fields, or a method over an array.
  `Topic.Consumer` and `TsdbStmt.Statement` are tied by their `ensures` clauses to functions on a state
  value, and the theorems about whole runs are lemmas about those functions. `Cursors`, `Errs`,
  `EjsonHeap` and the byte-level methods state the property itself.
- What taosc, tmq, iconv or the allocator answers is an argument, or part of the state when it
  arrives over time (the feed of polled messages, the blocks of a query). In `Topic` and `TsdbStmt`
  the calls made on them are kept in a log; `Next` lists the rules a log must follow, independently of
  the driver's code, and every run is shown to obey them.
- Widths matter in these places and are written out: bytes, 16-bit words and 32-bit codes in
  `Transcode` and `RawBlock`, the 64-bit wrap-around of the serializer's remaining length and the
  32-bit int that counts its characters (texts stay below 2147483648 characters), the 16-bit parameter
  count in `TsdbStmt`, the row count of a raw block (at most 2147483640, so that the bitmap's length
  does not overflow an int), and the hex table's filler for characters that are not digits.

Results worth knowing:

- A failed commit or description is for ever: `do_not_commit` is never cleared, not even when the
  statement subscribes to a topic again (`Topic.FailureIsForever`).
- A type list whose last comma is followed by nothing but blanks is either rejected or accepts the
  empty type name as well, depending on what iconv does with a null input (`TableTypes.Accepts`,
  `TableTypes.BlankTailExample`).
- The number of parameters of a prepared insert passes through a 16-bit counter, so the list of
  fields is as long as the placeholder count exactly when it has fewer than 32768 entries
  (`TsdbStmt.ParamCount`, `TsdbStmt.CountWraps`).
- A conversion from UTF-32 to UTF-32 accepts a high surrogate when another code follows it in the same
  round, and combines the two (`Transcode.HighCodeExamples`); `Transcode.DoIconv` says exactly when a
  conversion succeeds.
- UTF-32 text goes through the 16-bit form unchanged exactly when no code is a high surrogate or
  above U+10FFFF; lone low surrogates survive (`Transcode.CodesRoundTrip`).
- Releasing references is safe and terminates even when a heap contains a cycle; a cycle merely keeps
  its nodes (`EjsonHeap.Heap.DecRef` asks for no acyclicity).
- `ORDINAL_POSITION` counts through all tables of a column listing, it does not restart with each
  table (`Cursors.Columns.Fetch`, `Cursors.FetchAll`).

## Model

| member | source | states |
|---|---|---|
| `DriverInit.OneInitialiser` | src/core/conn.c:541-580 | in every interleaving at most one call is between a won claim and the store that ends it, and taos_options succeeds at most once |
| `DriverInit.ChosenForever` | src/core/conn.c:546-580 | a chosen driver never changes |
| `DriverInit.ReturnedForever` | src/core/conn.c:546-580 | a call that has returned stays returned |
| `DriverInit.ReturnMeaning` | src/core/conn.c:541-580 | a call that returned 0 agrees with the driver for ever; one that returned -1 saw its own taos_options fail or wanted the other driver |
| `DriverInit.RetriesPayForFailures` | src/core/conn.c:546-573 | a call restarts at most once per distinct other call whose taos_options failed |
| `DriverInit.Progress` | src/core/conn.c:546-573 | while a call is unfinished some step changes the state |
| `DriverInit.StepDescends` | src/core/conn.c:546-573 | every step that changes the state lowers one measure |
| `DriverInit.NoEndlessRetry` | src/core/conn.c:546-573 | n calls make at most n(2n+5) such steps in any run, so no retry chain is endless |
| `DriverInit.StepInv` | src/core/conn.c:541-580 | mutual exclusion, the meaning of the word and of each call's position are kept by every step |
| `DriverInit.EitherOutcome` | src/core/conn.c:552-562 | a call inside taos_options can go on either way, and nothing else can happen to it |
| `DriverInit.ClaimDecides` | src/core/conn.c:546-573 | the winner of the compare-and-swap enters taos_options, the others wait while it is claimed or compare once a driver is chosen |
| `Handles.Safety` | src/core/env.c:78-130 | in every interleaving no count assertion fails, nothing freed is accessed, parents outlive children, open handles are live |
| `Handles.StepInv` | src/odbc.c:415-515 | every atomic step of alloc, free and use calls keeps the accounting |
| `Handles.HeldLive` | src/core/conn.c:162-179 | a structure on which a thread holds a reference is live, with at least that many references |
| `Handles.ParentLive` | src/core/conn.c:105-147 | a child that has not let go of its parent has a live parent that counts it |
| `Handles.NoReferencesNoKids` | src/core/env.c:78-84 | a structure without references has no children: the assertion in the environment's release |
| `Handles.ReleasedOnce` | src/core/desc.c:49-111 | a release only moves forward and a freed structure never changes again: each is released and freed at most once |
| `Handles.NoLeak` | src/core/conn.c:186-216 | when no call is in progress and all handles were freed, every structure has been given back |
| `Handles.FreeDecides` | src/core/conn.c:186-216 | a free call goes through exactly when the handle has no child left and, for a connection, nothing else keeps it; otherwise no structure changes |
| `Handles.FreeRefused` | src/core/env.c:120-130 | in every interleaving freeing an environment or a connection with a child leaves every structure as it is |
| `Handles.FreedAlone` | src/core/env.c:120-130 | in every interleaving a free of an environment or a connection that goes through finds no child |
| `Handles.KidsAreChildren` | src/core/conn.c:105-147 | the child counter is positive exactly while a child counts in it or is about to be handed out |
| `Handles.FreeDrops` | src/core/desc.c:97-111 | a free that passed its checks drops the application's reference and nothing else, never the last one |
| `Handles.AllocHandsOut` | src/core/env.c:267-276 | an alloc hands out a connection of an environment or a descriptor of a connection, with one reference |
| `Handles.AllocSteps` | src/core/conn.c:105-118 | on the way the parent gains a reference and then a place in its counter; refused memory ends the call |
| `Handles.CallBrackets` | src/odbc.c:415-515 | every call starts by taking a reference on its handle |
| `Handles.CallEnds` | src/core/conn.c:169-179 | and ends by dropping it; the last one starts the release |
| `Topic.RunAgrees` | src/core/topic.c:84-337 | every run obeys the consumer's rules, and one without a reset also the rules about whole messages |
| `Topic.CommittedPrefix` | src/core/topic.c:84-121 | successful commits are messages 0, 1, 2, ... without a gap, none is tried twice, each result is freed once, and without a failure every freed result was committed |
| `Topic.UsedOnlyWhileHeld` | src/core/topic.c:84-121 | rows are read, commits and frees made only between a result's poll and its free, with no close, unsubscribe or other poll in between |
| `Topic.FailureIsForever` | src/core/topic.c:84-101 | after a failed description or commit nothing is committed any more, even by a later subscription |
| `Topic.RowsInOrder` | src/core/topic.c:258-329 | without a reset the rows fetched are the polled messages' rows in order, none lost or repeated |
| `Topic.CommitAfterLastRow` | src/core/topic.c:302-329 | without a reset, when a message is committed or freed every row polled so far has been delivered |
| `Topic.LimitKept` | src/core/topic.c:258-329 | with a record limit the rows delivered stay below the limit plus the latest message's size, and none is delivered before a first message |
| `Topic.PollMeaning` | src/core/topic.c:169-286 | each outcome of a poll in terms of the message, the topic before it and the limits: an error when its description cannot be read, no data for another topic, success otherwise |
| `Topic.PollExactly` | src/core/topic.c:258-286 | the limit is looked at first; then the first round in which time is up or a message arrives decides |
| `Topic.FetchErrors` | src/core/topic.c:302-329 | a fetch is an error exactly when a description or a commit fails on its way |
| `Topic.OneTopic` | src/core/topic.c:169-256 | as long as no outcome is no data or an error every message that arrives is of one topic, and the rows come from those messages and the one held before |
| `Topic.HeldName` | src/core/topic.c:169-190 | in every run a held message whose name could be read is of the topic remembered |
| `Topic.FetchMeaning` | src/core/topic.c:302-329 | what each outcome of a fetch says: success is exactly one more row, the one just delivered |
| `Topic.OpenMeaning` | src/core/topic.c:537-691 | opening succeeds exactly when every part does and every setting is taken, with the last record limit given and nothing counted; a failure leaves no consumer; the cached name and the commit flag stay |
| `Topic.ConfigureMeaning` | src/core/topic.c:596-615 | the settings are all taken exactly when no other key is refused, and then the last record limit counts |
| `Topic.ResetMeaning` | src/core/topic.c:84-121 | a reset frees the held message, committed first unless a failure forbids it, before unsubscribing and closing |
| `Topic.Consumer.DescribeRes` | src/core/topic.c:169-256 | error, no data and success of a description, and the name remembered before later checks fail |
| `Topic.Consumer.PollRes` | src/core/topic.c:258-286 | the polling loop is the function Poll |
| `Topic.Consumer.Execute` | src/core/topic.c:288-300 | an execute is a poll |
| `Topic.Consumer.DropRes` | src/core/topic.c:84-101 | commit unless forbidden, then free in any case: the function ResetRes |
| `Topic.Consumer.Fetch` | src/core/topic.c:302-329 | the goto loop is the function FetchRow |
| `Topic.Consumer.MoreResults` | src/core/topic.c:331-337 | more results exactly while a message is held |
| `Topic.Consumer.Close` | src/core/topic.c:103-112 | unsubscribe if subscribed, then close |
| `Topic.Consumer.ResetAll` | src/core/topic.c:114-121 | the held message is given up before the consumer closes |
| `Topic.Consumer.OpenTopic` | src/core/topic.c:537-691 | opening, its loop over the settings and its failures, is the function Open |
| `EjsonHeap.Heap.IncRef` | common/ejson_parser_tab.c:518-522 | one more outside reference and one more count; the accounting holds |
| `EjsonHeap.Heap.DecRef` | common/ejson_parser_tab.c:550-560 | touches only allocated nodes, terminates, frees each node at most once, keeps the accounting |
| `EjsonHeap.Heap.Destroy` | common/ejson_parser_tab.c:524-560 | the last reference releases what the node owns, then frees it |
| `EjsonHeap.Heap.Free` | common/ejson_parser_tab.c:550-560 | a node whose release is over leaves the heap, and the accounting of the others holds |
| `EjsonHeap.Heap.ReleaseArr` | common/ejson_parser_tab.c:436-456 | every shared child of an array loses one reference |
| `EjsonHeap.Heap.ReleaseObj` | common/ejson_parser_tab.c:248-256 | every value of an object loses the reference the object owned |
| `EjsonHeap.Heap.New` | common/ejson_parser_tab.c:500-516 | a new node has one reference, the caller's |
| `EjsonHeap.Heap.ArrAppend` | common/ejson_parser_tab.c:458-472 | the value goes into a new last slot and is counted once more, nothing else changes; when the array cannot grow nothing changes |
| `EjsonHeap.Heap.ObjSet` | common/ejson_parser_tab.c:614-629 | the object takes over the caller's reference; when it cannot grow nothing changes |
| `EjsonHeap.Heap.DropReference` | common/ejson_parser_tab.c:524-560 | on an acyclic heap the nodes left are exactly those a remaining outside reference reaches, the others are freed once each |
| `EjsonHeap.AccountedRelease` | common/ejson_parser_tab.c:524-548 | when a node goes, its slots become outside references and every count still equals the references to its node |
| `EjsonHeap.AccountedAppend` | common/ejson_parser_tab.c:458-472 | sharing a value in an array keeps counts equal to references |
| `EjsonHeap.AccountedOwn` | common/ejson_parser_tab.c:614-629 | moving the caller's reference into an object keeps counts equal to references |
| `EjsonHeap.LiveIsReachable` | common/ejson_parser_tab.c:524-560 | after references were dropped, alive means reachable and freed means unreachable |
| `EjsonHeap.SlotKeepsAcyclic` | common/ejson_parser_tab.c:458-472 | adding a child from which the parent cannot be reached creates no cycle |
| `EjsonHeap.SlotsMeaning` | common/ejson_parser_tab.c:248-256 | a node's children are an array's values or an object's values |
| `EjsonText.Decodes` | common/ejson_parser_tab.c:863-1020 | the text of a number-free value determines the value and where its text ends, whatever follows |
| `EjsonText.TextInjective` | common/ejson_parser_tab.c:996-1020 | distinct number-free values never print alike |
| `EjsonText.EscapedDecodes` | common/ejson_parser_tab.c:863-905 | an escaped string determines the string and where it ends |
| `EjsonText.BinDecodes` | common/ejson_parser_tab.c:907-928 | a printed binary determines its bytes and where it ends |
| `EjsonText.ArrDecodes` | common/ejson_parser_tab.c:974-990 | a printed array determines its elements |
| `EjsonText.ObjDecodes` | common/ejson_parser_tab.c:956-972 | a printed object determines its members in order |
| `EjsonText.EscapeTable` | common/ejson_parser_tab.c:863-905 | what each character becomes inside a string |
| `EjsonText.StrForm` | common/ejson_parser_tab.c:863-905 | a string's text is a quote, its characters' texts in order, and a quote |
| `EjsonText.ScalarForms` | common/ejson_parser_tab.c:996-1020 | the text of null, true, false, numbers, strings and binaries |
| `EjsonText.ArrForm` | common/ejson_parser_tab.c:974-990 | the text of an array grows by a comma and the element's text before the closing bracket |
| `EjsonText.ObjForm` | common/ejson_parser_tab.c:940-972 | the text of an object grows by a comma, the key, a colon and the value before the closing brace |
| `EjsonWriter.Emit` | common/ejson_parser_tab.c:846-861 | one bounded write and the adjustment of position, room and count, wrap-around included |
| `EjsonWriter.AdjustMeaning` | common/ejson_parser_tab.c:847-856 | the adjustment keeps the pointer below half of the room, loses it from half on, and wraps the room beyond it |
| `EjsonWriter.WrittenMeaning` | common/ejson_parser_tab.c:996-1020 | a written buffer holds the text and a NUL, and nothing else changed |
| `EjsonWriter.SerializeStr` | common/ejson_parser_tab.c:863-905 | with room, the escaped text of a string is written, run by run |
| `EjsonWriter.SerializeBin` | common/ejson_parser_tab.c:907-928 | with room, the text of a binary is written |
| `EjsonWriter.SerializeKv` | common/ejson_parser_tab.c:940-954 | with room, the text of a member is written |
| `EjsonWriter.SerializeObj` | common/ejson_parser_tab.c:956-972 | with room, the text of an object is written |
| `EjsonWriter.SerializeArr` | common/ejson_parser_tab.c:974-990 | with room, the text of an array is written |
| `EjsonWriter.Serialize` | common/ejson_parser_tab.c:996-1020 | with a buffer more than twice the text length, and a text an int can count, exactly the recursive text and a NUL are written, nothing else changes, and the length is returned |
| `Hex.RoundTrip` | common/auxiliary.c:347-410 | reading undoes printing for every byte string |
| `Hex.NibbleTable` | common/auxiliary.c:347-364 | what each digit, of either case, and everything else stands for |
| `Hex.TextAt` | common/auxiliary.c:393-410 | byte i prints as two lower-case digits, the high half first |
| `Hex.BytesAt` | common/auxiliary.c:366-377 | byte i comes from digits 2i and 2i + 1 |
| `Hex.PackMeaning` | common/auxiliary.c:366-377 | two table entries are merged as the eight bits (v1 << 4) or v2 |
| `Hex.Hexify` | common/auxiliary.c:393-410 | the digits and a NUL are written when they fit, and nothing otherwise |
| `Hex.Hex2BytesUnsafe` | common/auxiliary.c:366-377 | the bytes of the digit pairs are stored, nothing else changes |
| `Hex.Hex2Bytes` | common/auxiliary.c:379-391 | odd digit counts and small buffers are refused, unchanged; otherwise the bytes are stored |
| `Hex.Bin.Append` | common/ejson_parser_tab.c:163-178 | bytes are appended and fit the capacity; exactly when memory fails, and then nothing changes |
| `Hex.Bin.AppendHex` | common/ejson_parser_tab.c:180-200 | however many rounds of 2048 digits it takes, the bytes of the whole digit string are appended; an odd count appends nothing, and when memory fails the bytes of the first rounds are there |
| `EjsonText.BinReloads` | common/ejson_parser_tab.c:907-928 | the digits printed for a binary are those the reader turns back into its bytes |
| `RawBlock.ReadsBack` | common/taos_helpers.c:470-519 | every cell of every laid-out table reads back as that cell or null; other rows, columns, versions and row counts are refused; no read leaves the block |
| `RawBlock.CellReads` | common/taos_helpers.c:168-212 | the walk finds the column, its type and the cell |
| `RawBlock.WalkFinds` | common/taos_helpers.c:168-212 | the walk over the columns before it finds where each column starts |
| `RawBlock.ExtentsDisjoint` | common/taos_helpers.c:168-212 | the byte ranges of two columns never overlap and together fill the data part |
| `RawBlock.BitmapReads` | common/taos_helpers.c:30-34 | the null macro reads back each flag of a bitmap with the most significant bit first |
| `RawBlock.FixedReads` | common/taos_helpers.c:499-507 | a cell of a fixed-size column reads back |
| `RawBlock.VarReads` | common/taos_helpers.c:510-518 | a cell of a variable-length column reads back wherever its offset points |
| `RawBlock.DecodeStored` | common/taos_helpers.c:215-332 | each type's decoder returns the value that was stored |
| `RawBlock.VarcharReadsBack` | common/taos_helpers.c:297-305 | a VARCHAR cell reads back exactly when it contains no NUL |
| `RawBlock.VarcharEnds` | common/taos_helpers.c:297-305 | a VARCHAR ends before its first NUL |
| `RawBlock.StorableNumbers` | common/taos_helpers.c:88-126 | which numbers each integer type can hold |
| `RawBlock.StoredWidths` | common/taos_helpers.c:88-126 | how many bytes a stored value of each fixed-size type takes |
| `RawBlock.FixedCellInBytes` | common/taos_helpers.c:499-507 | where the null bit and the bytes of a fixed-size cell are in a block |
| `RawBlock.VarCellInBytes` | common/taos_helpers.c:510-518 | where the offset, the length and the bytes of a variable-length cell are in a block |
| `RawBlock.NumbersInBytes` | common/taos_helpers.c:226-275 | the number in one, two, four or eight bytes, least significant first, signed in two's complement |
| `RawBlock.DecodedNumbers` | common/taos_helpers.c:226-275 | which types read their bytes as signed and which as unsigned numbers |
| `RawBlock.DecodedBytes` | common/taos_helpers.c:266-325 | how floating point numbers and time stamps are read |
| `RawBlock.DecodedTexts` | common/taos_helpers.c:281-318 | the bytes and the encoder of the other types |
| `RawBlock.HeaderInBytes` | common/taos_helpers.c:128-166 | where version, rows and columns are in the header, and the order of the refusals |
| `RawBlock.StartsInBytes` | common/taos_helpers.c:180-196 | a column starts after the bitmap or offset table and the bytes of the one before |
| `RawBlock.UnknownTypeRefused` | common/taos_helpers.c:181-190 | a column of unknown type stops the reading of itself and of every later column |
| `RawBlock.InitReads` | common/taos_helpers.c:128-166 | which headers are refused and what an accepted one gives |
| `RawBlock.GetColPtr` | common/taos_helpers.c:168-212 | the walking loop computes ColStart, or the first refusal on its way |
| `RawBlock.GetTsdb` | common/taos_helpers.c:470-519 | the reader is the function Read |
| `Transcode.CopyWords` | common/iconv_wrapper.c:1054-1090 | the output encodes exactly the words consumed, and stops only for room, a partial unit or a refused surrogate |
| `Transcode.Utf32ToWide` | common/iconv_wrapper.c:1092-1118 | the output encodes exactly the codes consumed; a code whose words do not fit is left whole |
| `Transcode.WideToUtf32` | common/iconv_wrapper.c:1120-1147 | the output encodes exactly the words consumed and never stops inside a pair |
| `Transcode.SourceResumes` | common/iconv_wrapper.c:1054-1118 | translating a source piece by piece gives the words of the whole |
| `Transcode.TargetResumes` | common/iconv_wrapper.c:1073-1147 | writing words piece by piece gives the bytes of the whole when no piece cuts a pair |
| `Transcode.ToWideInPieces` | common/iconv_wrapper.c:1054-1118 | any sequence of resumed calls, with any room each, writes what one call on the consumed source would; with room for one code in each, every call gets further |
| `Transcode.FromWideInPieces` | common/iconv_wrapper.c:1073-1147 | the same for the other direction, each piece ending outside pairs |
| `Transcode.CodesRoundTrip` | common/iconv_wrapper.c:1092-1147 | codes pass through words unchanged exactly when each is in range and no high surrogate |
| `Transcode.Surrogates` | common/iconv_wrapper.c:1098-1138 | codes beyond the basic plane become the surrogate pairs of RFC 2781, sections 2.1 and 2.2, and come back |
| `Transcode.OtherCodes` | common/iconv_wrapper.c:1098-1114 | a code of the basic plane is its own word; above U+10FFFF only the low twenty bits of the distance count |
| `Transcode.AnyPair` | common/iconv_wrapper.c:1126-1136 | whatever follows a high surrogate gives the low ten bits of the pair's code |
| `Transcode.WordsRoundTrip` | common/iconv_wrapper.c:1092-1147 | words pass through codes unchanged exactly when every high surrogate is followed by a low one |
| `Transcode.Utf32RoundTrip` | common/iconv_wrapper.c:1092-1147 | the same for UTF-32 bytes, in either byte order on both sides |
| `Transcode.Utf16RoundTrip` | common/iconv_wrapper.c:1054-1147 | the same for UTF-16 bytes through UTF-32 |
| `Transcode.WordAt` | common/iconv_wrapper.c:1058-1063 | word i is in bytes 2i and 2i + 1, the high byte first exactly in a big-endian page |
| `Transcode.CodeAtBytes` | common/iconv_wrapper.c:1096-1098 | code i is in the four bytes from 4i on, most significant first exactly in a big-endian page |
| `Transcode.IsValidUtf32leText` | common/taos_helpers.c:64-81 | text is valid exactly when it is non-empty, made of whole codes, and each is a non-zero scalar value |
| `Transcode.ValidTextRoundTrips` | common/taos_helpers.c:64-81 | valid text comes back from UTF-32 in either byte order |
| `Transcode.ToWide` | common/iconv_wrapper.c:1399-1407 | the source side of a code page, by its kind and byte order |
| `Transcode.FromWide` | common/iconv_wrapper.c:1422-1426 | the target side: everything is written whenever it fits and no pair is cut |
| `Transcode.Round` | common/iconv_wrapper.c:1393-1443 | one round reads something, and what it writes extends the translation |
| `Transcode.DoIconv` | common/iconv_wrapper.c:1384-1447 | it terminates, and succeeds exactly when every piece is accepted and the translation fits; then a reader of the output finds, in the target's byte order, the words or codes of the whole source |
| `Transcode.Utf16Accepts` | common/iconv_wrapper.c:1384-1447 | towards UTF-16 every piece is accepted |
| `Transcode.Utf16AcceptsExactly` | common/iconv_wrapper.c:1054-1090 | towards UTF-16 exactly the sources are accepted that keep surrogates away from UCS-2 |
| `Transcode.Utf16CutsExactly` | common/iconv_wrapper.c:1384-1447 | from UTF-16 to UTF-32 exactly the sources are accepted that leave no surrogate unread at any multiple of 4096 bytes and at the end |
| `Transcode.WholeExactly` | common/iconv_wrapper.c:1124-1147 | nothing is left unread exactly when an even number of high surrogates stands at the end |
| `Transcode.EvenRounds` | common/iconv_wrapper.c:1393-1407 | from UTF-32 a round takes 2048 codes of the basic plane, or 1024 codes beyond it |
| `Transcode.Utf32Accepts` | common/iconv_wrapper.c:1384-1447 | from UTF-32 to UTF-32 sources without a high surrogate are accepted wherever rounds stop |
| `Transcode.HighCodeExamples` | common/iconv_wrapper.c:1384-1447 | a high surrogate followed by a code in the same round is accepted and becomes one code with it, alone it is refused |
| `Transcode.RoundCut` | common/iconv_wrapper.c:1393-1407 | a round reads something and stops where the source alone decides: after 4096 bytes of UTF-16, or after the codes whose words fit |
| `Cursors.TsdbCursor.FetchRowsBlock` | src/core/tsdb.c:683-711 | the next block replaces the old one; an empty one means the end |
| `Cursors.TsdbCursor.Fetch` | src/core/tsdb.c:713-736 | each success hands out the head of the remaining rows, a failure loses none, the end is sticky |
| `Cursors.RowsOfParts` | src/core/tsdb.c:683-736 | blocks before an empty one add up whatever fails in between; an empty block ends the rows |
| `Cursors.Tables.Fetch` | src/core/tables.c:156-245 | each success hands out the head of the remaining rows that pass the filters |
| `Cursors.JudgeMeaning` | src/core/tables.c:174-242 | which tables pass: the conjunction of the filters given, the current database counting only without a catalog pattern |
| `Cursors.JudgeFails` | src/core/tables.c:184-231 | a table makes the listing fail exactly when a pattern gives no answer and every filter before it accepts |
| `Cursors.MatchesMeaning` | src/core/columns.c:328-349 | matching fails exactly when a pattern gives no answer, and rejects exactly when it says so |
| `Cursors.KeptParts` | src/core/tables.c:156-245 | the kept tables of a list are those of its parts, in order |
| `Cursors.KeptExactly` | src/core/tables.c:156-245 | exactly the tables that pass are kept |
| `Cursors.FlatteningExactly` | src/core/columns.c:312-352 | the flattening lists exactly the described columns that match, each with its own table |
| `Cursors.FlatteningParts` | src/core/columns.c:312-352 | the flattening of a longer list of tables is that of its parts, in order |
| `Cursors.KeptColumnsParts` | src/core/columns.c:328-349 | the matching columns of a longer description are those of its parts, in order |
| `Cursors.Columns.NextTable` | src/core/columns.c:213-310 | moving to the next table keeps the flattening, and the cached identity is the table under the cursor |
| `Cursors.Columns.Open` | src/core/columns.c:782-833 | after a successful open the columns to come are the flattening over all tables that pass, and there is a first one; answers that never fail leave nothing that can |
| `Cursors.Columns.Round` | src/core/columns.c:312-352 | one turn of the goto loop hands out the head with the table under the cursor, skips a column that does not match, or moves on |
| `Cursors.Columns.Fetch` | src/core/columns.c:312-368 | each success hands out the head of the flattening, the cached identity being the row under the tables cursor, and advances the ordinal by one; the end is final |
| `Cursors.FetchAll` | src/core/columns.c:312-368 | fetching to the end receives exactly the flattening, in order and once each |
| `Cursors.ListColumns` | src/core/columns.c:312-368 | opening and fetching to the end, with no query errors, receives exactly the flattening over all tables that pass |
| `Cursors.ListPlainly` | src/core/columns.c:312-368 | the same when no query fails and no pattern ever fails to answer |
| `TsdbStmt.Owned` | src/core/tsdb.c:256-332 | in a lawful log each result of taos_query is freed once unless held, and each statement closed once unless open |
| `TsdbStmt.HandlesDiffer` | src/core/tsdb.c:315-332 | no handle is used twice, and no result is both lent and from taos_query |
| `TsdbStmt.ClosedFreeOfResults` | src/core/tsdb.c:949-959 | when a statement runs or closes, none of its results is held |
| `TsdbStmt.Statement.ResetRes` | src/core/tsdb.c:256-269 | a result of taos_query is freed, a lent one only dropped |
| `TsdbStmt.Statement.Reset` | src/core/tsdb.c:949-959 | the result goes before the statement closes: exactly these calls are added to the log |
| `TsdbStmt.Statement.Unprepare` | src/core/tsdb.c:934-942 | everything known about the prepared text is forgotten, ownership is not touched |
| `TsdbStmt.Statement.Prepare` | src/core/tsdb.c:591-605 | the new state, every call made on the way, exactly when it succeeds, and the field of every parameter |
| `TsdbStmt.Statement.PrepareStmt` | src/core/tsdb.c:549-589 | for each failure path and for success: the calls made, what stays open, what is known about parameters |
| `TsdbStmt.Statement.ParamsForOther` | src/core/tsdb.c:471-511 | the reported fields of a query's parameters; the borrowed array is returned once, and a failure closes the statement |
| `TsdbStmt.Statement.FieldsForInsert` | src/core/tsdb.c:513-547 | tags and columns of an insert in reported order; the borrowed array is returned once, and a failure leaves the statement open |
| `TsdbStmt.Statement.PostCheck` | src/core/tsdb.c:409-460 | succeeds exactly when the 16-bit count is positive and equals the placeholders, and then stores each parameter's field |
| `TsdbStmt.Statement.FieldOfParam` | src/core/tsdb.c:334-357 | parameter i's field is entry i of the list, within bounds |
| `TsdbStmt.CopyByKind` | src/core/tsdb.c:359-386 | count, allocate and fill give exactly the fields of one kind, in order |
| `TsdbStmt.Statement.Query` | src/core/tsdb.c:315-332 | the old result is given up before the new one is asked for; exactly when the query succeeds and who owns its result |
| `TsdbStmt.Statement.Execute` | src/core/tsdb.c:607-670 | the old result is given up first; the calls made, exactly when an execute succeeds, and who owns its result |
| `TsdbStmt.ExecuteMeaning` | src/core/tsdb.c:607-670 | what an execute asks of taosc and what is held afterwards, case by case |
| `TsdbStmt.PrepareMeaning` | src/core/tsdb.c:549-605 | what a prepare asks of taosc and what stays open, case by case |
| `TsdbStmt.KnownMeaning` | src/core/tsdb.c:409-547 | how many parameters are known after a prepare |
| `TsdbStmt.CloseMeaning` | src/core/tsdb.c:949-959 | what closing asks of taosc |
| `TsdbStmt.RunLawful` | src/core/tsdb.c:256-332 | over any sequence of operations, whatever fails, the log obeys the rules of taosc and says what the statement holds |
| `TsdbStmt.RunHandsOut` | src/core/tsdb.c:315-670 | which results and statements a run obtains, told from the operations and the answers |
| `TsdbStmt.RunOwned` | src/core/tsdb.c:549-670 | in any run each result of taos_query is freed once and in order unless still held, each statement closed once unless still open, and no lent result is freed |
| `TsdbStmt.ReleasedOnce` | src/core/tsdb.c:949-972 | after the final release exactly the results and statements obtained have been given back, once each |
| `TsdbStmt.ParamPositions` | src/core/tsdb.c:334-357 | parameter i of an insert: the table name, a tag, or a column |
| `TsdbStmt.OtherPositions` | src/core/tsdb.c:334-344 | parameter i of another statement: the reported field, or a VARCHAR of 16384 bytes where its type is not known |
| `TsdbStmt.PreparesMeaning` | src/core/tsdb.c:409-547 | exactly when preparing succeeds |
| `TsdbStmt.OfKindParts` | src/core/tsdb.c:359-386 | the fields of one kind are those of the parts, in order |
| `TsdbStmt.ParamCount` | src/core/tsdb.c:409-436 | the list of fields is as long as the placeholder count exactly when a 16-bit counter can hold its length |
| `TsdbStmt.CountWraps` | src/core/tsdb.c:409-436 | 65537 reported columns pass for one placeholder |
| `TsdbStmt.Life` | src/core/tsdb.c:549-980 | the C functions over any sequence of operations and a final release compute the run those theorems speak about |
| `TableTypes.AddTableType` | src/core/tables.c:508-538 | a piece and a NUL go behind what is packed already, within the buffer |
| `TableTypes.ParseTableType` | src/core/tables.c:540-584 | the buffer holds the list's pieces, each with a NUL, within the reserved capacity; exactly when it fails |
| `TableTypes.PackedFits` | src/core/tables.c:540-584 | the packed pieces never need more than the list's length and one byte |
| `TableTypes.Match` | src/core/tables.c:134-154 | a name is found exactly when it is one of the packed pieces |
| `TableTypes.Accepts` | src/core/tables.c:134-154 | packing and searching accept exactly the list's pieces, and after a blank tail the empty name too |
| `TableTypes.PieceMeaning` | src/core/tables.c:556-578 | a name is a piece exactly when it is not empty and some stretch between commas is blanks and then the name |
| `TableTypes.SpaceTable` | src/core/tables.c:559-562 | the six blanks |
| `TableTypes.TrimMeaning` | src/core/tables.c:558-565 | what is dropped in front is all blanks, and what stays does not start with one |
| `TableTypes.BlankTailMeaning` | src/core/tables.c:556-581 | the tail is blank exactly when from the start or from some comma on there are only blanks |
| `TableTypes.BlankTailExample` | src/core/tables.c:580-581 | a list that accepts a name which is none of its pieces |
| `Errs.ErrList.Append` | src/core/errs.c:53-79 | the error becomes the last record, in a node that was free or is new |
| `Errs.ErrList.Clear` | src/core/errs.c:81-92 | no record is left and every node is free, none lost |
| `Errs.ErrList.GetDiagRec` | src/core/errs.c:111-143 | record k is the k-th error since the last clear, cut to the caller's buffer, its full length reported |
| `Errs.Replay` | src/core/errs.c:30-92 | over any run, failed allocations included, the records are those recorded since the last clear and the nodes as many as the high-water mark |

## Left out

- Everything behind taosc, tmq, iconv, the allocator and the Windows conversion functions: their answers are arguments.
- Statements in the handle model: only environments, connections and descriptors are there; conn_free's checks for a live connection, active executions and outstanding statements are one nondeterministic refusal, and addresses are never reused.
- SQLAllocHandle and SQLFreeHandle outside the reference bracket: the clearing of diagnostics and argument checks.
- Topic: the pseudo-column name check, the fields built for column metadata and _get_data; the clock is a mark in the feed; running out of memory while opening.
- Topic.CommitAfterLastRow: not promised when a reset gives up a half-read message, because topic_reset commits it then.
- ejson_cmp: arrays of equal length with equal elements compare as different and numbers compare within an epsilon, so it is not an order.
- Number printing and scanning: a number's text is taken as given, and values with numbers are outside the decodability theorem.
- EjsonWriter.Serialize: asks for a buffer of more than twice the text, because the adjustment subtracts before it compares and a small or absent buffer makes the remaining length wrap; and for a text of fewer than 2147483648 characters, because the counts are ints and overflow beyond; null children are not serialized.
- EjsonHeap: strings, binaries and numbers own no other node and are one kind of body; the parser's own partial values are outside.
- Out-of-memory exits, except where growing an ejson container, a binary literal or a record list fails.
- Transcode.DoIconv: whole source units only, because on a trailing partial unit the loop does not advance; conversions through multi-byte code pages are not part of this model, and the rewind after a round that leaves words over is the foreign answer given.
- RawBlock.DecodeStored: floating point values are their bytes, and error texts are not modelled.
- The non-block reader helper_get_tsdb and the choice of an encoder for NCHAR in it.
- Cursors: a describe or select query that fails while moving to the next table, the data of the eighteen result columns, and the catalogs, schemas and type listings.
- Cursors.Tables.Fetch: wildcard matching is a given function that may fail.
- Descriptor column binding, timestamps, charset caches, primary keys and type information cursors.
- TsdbStmt: out of memory while copying fields, and binding of parameter values; an insert's null array of fields counts as empty.
- TableTypes.Accepts: identity conversion and lists without NUL characters.
- Errs: the prefix of a message (file, line, data source) is part of the given text, and errs_release_x, which frees both lists.
