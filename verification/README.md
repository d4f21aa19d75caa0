# A verified model of a Teeworlds/DDNet client

This project models the parts of the client that have to get a protocol, a format or a shared state exactly
right, and proves that they do, or exactly when they do. `dafny verify dfyconfig.toml` checks all of it.

Bytes are integers from 0 to 255, Go's `int` is unbounded, `int32` conversions are written out. Code that
changes things step by step is modelled by classes and loops, and proved equal to functions on values; the
properties are proved about those functions and about runs of them. The round trip of every recording format
and of the chunk codec is an equivalence: what was written is read back unchanged if and only if a stated
condition on the input holds. For a demo that equivalence speaks of the reader staying in step with the writer
(`Demo.InStepIff`); `Demo.StreamRoundTrip` says what it means for the list that is read.

**Wire level.** `Wire`, `Varint`, `Cursor`: integers of variable length, strings and their sanitizing, and the
two cursors (an index into a buffer, a stream) under every other codec. `Formats` holds the formats of all modules
to their bytes, where a reader and a writer that agree with each other could both be wrong.

**Snapshots.** `Snapshot` is the simplest meaning of a delta: a map from (type, id) to integers, and what the
bytes of a delta make of it; `SnapshotBuffer` says which bytes make the same of it whatever the reused buffer
holds. `ApplyDelta` is the code itself: pooled lookup tables, a buffer that is not
cleared, an index from keys to positions, one backing array, field slices shared between snapshots.
`SnapStorage` is the storage object, `SnapWindow` its retention policy on values. `SnapshotDiff` is the
server's encoder, which the repository does not hold. `Replication` is the distributed system: server,
lossy channel, client. `Assembly` and `SnapReader` are the messages that carry snapshots, and `SnapTransport`
puts all of it together: the reader, fed with the bytes of those messages, stays the client of the protocol.

**Reliable download.** `ChunkCodec` and `Scanners` are the bit-packed chunk headers and the scanners that walk
the same bytes on their own; `Download` is the client's download loop and `DownloadProtocol` the protocol
around it, over a network that loses, repeats and reorders.

**Recordings.** `Teehistorian*`, `Ticks`, `Ghost*`, `Demo*`: for each format the records, the in-memory reader
and writer, and their streaming twins. `Huffman` is a pair of functions of which a caller may assume that the
second undoes the first.

**Physics and prediction.** `Collision`, `Tee`, `TeeWorld` work over real numbers and an arbitrary map;
`TeeLaws` says what a tick makes of the keys and of the ground, `HookLaws` and `NearestPoint` where hooks and other
tees pull and push, with lengths that are square roots of sums of squares.
`Core` is the object whose fields a tick updates, and the lockstep over several of them. `InputRing`,
`Prediction` and `PredictedWorld` are the re-simulation from the acknowledged tick, and `Reseed` its way from and
to the snapshots.

**Client state.** `Sight` and `Roster` follow who is visible and who is registered from snapshot to snapshot;
`MapCache` is the download-once cache shared by goroutines. `Panics` collects where bytes from outside make a
reader panic.

## What the proofs found

Where a promise does not hold on all inputs, the condition under which it does is proved, and a lemma shows
an input outside of it.

- A delta payload that is cut off inside its last update is accepted, and a missing field shows whatever lies
  in the reused buffer: a field of an earlier update of the same payload, or else what an earlier call left
  (`Snapshot.TruncatedShowsBuffer`, `SnapshotBuffer.MissingFieldShowsOwnUpdate`). Which payloads do not depend
  on earlier calls is decided exactly (`SnapshotBuffer.IgnoresBufferIffSettled`).
- A missing delta base silently counts as the empty snapshot; the result is right only for keys that did not
  need the base (`Replication.WithoutBase`, `Replication.WithoutBaseExample`). Under the stated assumptions on
  server and channel it never happens (`Replication.NoFallbackIsTaken`); a base that is one tick too far back, or
  a packet that overtakes another, is enough to make it happen (`Replication.BaseTooFarExample`,
  `Replication.OvertakenExample`).
- A multi-part snapshot is complete when the number of parts is right, not when all of them are there
  (`Assembly.AssembledIff`, `Assembly.RepeatedPartExample`).
- The demo writer always compresses tick markers the way version 5 does, so a file of an older version does
  not survive (`Demo.LegacyVersionFails`). It also drops all but the low sixteen bits of a payload's compressed
  size without an error, so a larger chunk does not survive, either (`Demo.OversizedChunkFails`,
  `Demo.OversizedExample`). The whole condition, which also asks for known types and for ticks that do not go back
  between keyframes, is that of `Demo.InStepIff`.
- The message scanners look at one byte of the id and so tell ids apart only modulo 32 (`Scanners.OneByteIds`,
  `Scanners.OneByteExample`).
  The download, too, takes a message with id 35 for map data, and a byte more than its body
  (`DownloadProtocol.MapPartIs`).
- The download accepts a vital whose position agrees with the expected one modulo 1024
  (`DownloadProtocol.ExpectedIffResidue`, `DownloadProtocol.AcksIffNoAlias`, `DownloadProtocol.AliasExample`).
- A waiter that comes back from the map cache empty-handed has not registered as the downloader, though it is
  told what a downloader is told (`MapCache.RegisteredIffNotWaited`, `MapCache.TwoDownloadersAfterFailure`).
  The comment on GetOrWait does not distinguish the two.
- The ticks that the replay yields increase exactly as long as the skips between shown records advance; a
  negative skip can make it yield a tick twice (`Ticks.TicksIncreaseIff`, `Ticks.NegativeSkipRepeatsTick`).
- A score or team event for somebody without a client info puts an entry into the registry that no leave
  removes (`Roster.RegistryIsRosterIff`, `Roster.StrangerExample`).
- A join is documented to keep the score and team of somebody who is registered already. It keeps the score, and
  the team only when the event carries the same one; on 0.6 it always carries 0, after a team event of the same
  snapshot (`Roster.JoinKeepsTeamIff`, `Roster.JoinLosesTeamExample`).
- The registry does not take over the first score and team that a snapshot has for a player, because only changes
  are events; which scores and teams it shows is decided exactly (`Roster.ScoreboardIff`,
  `Roster.FirstScoreExample`).
- The flag of the local player is set when somebody joins and not again, so it is right exactly as long as the own id
  does not change to or from somebody who stays (`Roster.OwnFlagIff`, `Roster.StaleFlagExample`).
- Three readers panic on a negative count: a teehistorian on the number of arguments of a console command, a delta
  on the size of an item, a multi-part snapshot on the number of parts (`Panics.ParsePanicsIff`,
  `Panics.NegativeCountExample`, `Panics.DeltaPanicsIff`, `Panics.NegativeSizeExample`,
  `SnapReader.SnapReader.ProcessSnapMulti`, `Panics.NegativePartsExample`).
- A jump key that was pressed in vain still jumps on landing (`TeeWorld.JumpsIff`, `TeeWorld.VainPressExample`);
  what holds is that two jumps need a release in between (`TeeWorld.JumpsNeedRelease`).
- Looking up the input for a negative tick panics unless the tick is a multiple of the ring's size, and so does
  the prediction from such a tick on (`InputRing.InputRing.Get`, `InputRing.PlaceIsIndex`,
  `PredictedWorld.AdvanceCores`).
- A string whose blanks are skipped can still start with one, when the next byte is a control character that is
  replaced (`Cursor.SanitizedOnce`, `Cursor.BlankAgainExample`).

## Model

| member | source | states |
|---|---|---|
| `Varint.DecodeOfEncode` | packer/packer.go:185-192 | decoding gives back every 32-bit value that was encoded, whatever bytes follow it |
| `Varint.DecodeOfPack` | packer/packer.go:185-192 | decoding what PackInt appended gives every integer clamped into the 32-bit range, whatever bytes follow it |
| `Varint.EncodeOfDecode` | record/teehistorian/stream.go:240-268 | a decode consumes a non-empty prefix, and encoding the value reproduces that prefix exactly when it carries no zero padding |
| `Varint.PackInt` | packer/packer.go:185-192 | appending an integer always appends at least one byte |
| `Varint.Clamp` | packer/packer.go:185-192 | clamping leaves exactly the 32-bit values alone |
| `Formats.IntExamples` | packer/packer.go:185-192 | the bytes of some integers: six bits and the sign in the first byte, seven bits in the others, low bits first |
| `Wire.ToInt32` | record/ghost/ghost.go:308-314 | Go's int32 conversion: the 32-bit value that differs by a multiple of 2^32 |
| `Cursor.ReadRaw` | packer/packer.go:77-87 | what is taken and what is left make up what was there |
| `Cursor.ReadString` | packer/packer.go:115-168 | a string read holds no terminator and consumes at least one byte |
| `Cursor.ReadIntsOfAppend` | record/teehistorian/teehistorian.go:212-220 | a list of 32-bit integers comes back from its encoding, with the rest of the bytes untouched |
| `Cursor.ReadStringOfAppend` | packer/packer.go:195-198 | a NUL-free string comes back from its encoding |
| `Cursor.ReadStringsOfAppend` | record/teehistorian/teehistorian.go:287-306 | so does a list of NUL-free strings |
| `Cursor.AppendIntsJoin` | packer/packer.go:185-192 | appending integers one after the other is appending them all |
| `Cursor.Unpacker.Reset` | packer/packer.go:31-39 | the cursor stands at the start of the new data |
| `Cursor.Unpacker.RemainingSize` | packer/packer.go:51-51 | the number of unread bytes |
| `Cursor.Unpacker.TakeRest` | packer/packer.go:60-64 | hands out everything unread and leaves nothing |
| `Cursor.Unpacker.NextByte` | packer/packer.go:67-74 | the next unread byte, or an error that leaves the cursor alone |
| `Cursor.Unpacker.NextRaw` | packer/packer.go:77-87 | the index moves as the reading function says; negative and overlong sizes fail and leave the cursor alone |
| `Cursor.Unpacker.NextInt` | packer/packer.go:90-100 | the index moves past one varint; a failed decode leaves it alone |
| `Cursor.Unpacker.NextUntilZero` | packer/packer.go:116-122 | the scan for the terminator finds the string the reading function defines, or fails when there is none and leaves the cursor alone |
| `Cursor.Unpacker.NextStringSanitized` | packer/packer.go:115-168 | for every choice of flags the result is that string, sanitized, and the shortcut for strings that need no work makes no difference |
| `Cursor.CleanCopy` | packer/packer.go:147-167 | the copying loop skips the blanks at the front and replaces what has to be replaced |
| `Cursor.SanitizedOnce` | packer/packer.go:147-167 | what is left holds no control character the flags forbid, and sanitizing it again changes nothing unless a replaced control character came right after skipped blanks |
| `Cursor.SanitizingKeeps` | packer/packer.go:147-167 | only blanks at the front are dropped, and only if asked for; forbidden control characters become spaces; every other byte stays |
| `Cursor.SanitizingExamples` | packer/packer.go:147-167 | what each flag does to blanks, line ends and control characters |
| `Cursor.BlankAgainExample` | packer/packer.go:147-167 | such a string: it still starts with a blank, although blanks are skipped |
| `Cursor.Unpacker.NextInts` | record/teehistorian/teehistorian.go:212-220 | the loop reads exactly the defined list or reports its first failure |
| `Cursor.Reader.ReadFull` | record/teehistorian/stream.go:211-224 | a full read takes the bytes off the stream; a short stream fails and is drained |
| `Cursor.Reader.ReadBytesToZero` | record/teehistorian/stream.go:227-234 | the string up to the terminator, which is consumed too |
| `Cursor.Reader.ReadVarint` | record/teehistorian/stream.go:240-268 | the byte-wise loop over the stream decodes the same value, with the same errors, as decoding from a slice |
| `Cursor.Reader.ReadTail` | record/teehistorian/stream.go:246-266 | the bits collected byte by byte add up to the tail's value on top of the first six bits |
| `Cursor.AppendInt` | packer/packer.go:185-192 | the buffer grows by the encoding |
| `Teehistorian.ReadRecordOfPrint` | record/teehistorian/teehistorian.go:223-336 | every well-formed record is read back from its printed form, whatever follows |
| `Formats.PlayerExamples` | record/teehistorian/teehistorian.go:363-418 | the bytes of the records about players, with their markers |
| `Formats.InputExamples` | record/teehistorian/teehistorian.go:379-386 | and of the inputs |
| `Formats.MessageExamples` | record/teehistorian/teehistorian.go:387-398 | and of messages and drops |
| `Formats.CommandExample` | record/teehistorian/teehistorian.go:399-406 | and of a console command with two arguments |
| `Formats.ExtensionExample` | record/teehistorian/teehistorian.go:407-411 | and of an extension |
| `Teehistorian.ReadRecordIsWellFormed` | record/teehistorian/teehistorian.go:223-336 | no byte string makes the reader produce a record that is not well formed |
| `Teehistorian.ParseIsWellFormed` | record/teehistorian/teehistorian.go:172-199 | and no byte string makes the parser produce a list that is not |
| `Teehistorian.BodyRoundTrip` | record/teehistorian/teehistorian.go:172-199 | a record list survives printing and parsing if and only if it is well formed (client ids of diffs not negative, 32-bit integers, NUL-free strings, Finish only last) |
| `Teehistorian.FileRoundTrip` | record/teehistorian/teehistorian.go:340-350 | a file survives writing and parsing if and only if its header is NUL-free and its records are well formed |
| `Panics.ParsePanicsIff` | record/teehistorian/teehistorian.go:294-314 | parsing a body panics if and only if it comes to a console command with a negative argument count |
| `Panics.NegativeCountExample` | record/teehistorian/teehistorian.go:303-307 | such a body |
| `TeehistorianFile.WriteRecord` | record/teehistorian/teehistorian.go:363-418 | the growing buffer ends as the record's printed form appended to what was there |
| `TeehistorianFile.ReadRecordAfter` | record/teehistorian/teehistorian.go:223-336 | the cursor-moving reader returns what the reading function says, with the same error in the same cases |
| `TeehistorianFile.Parser.ParseBody` | record/teehistorian/teehistorian.go:172-199 | the loop that appends to Records is the parsing function, including where it stops |
| `TeehistorianFile.WriteTo` | record/teehistorian/teehistorian.go:340-350 | magic, header and all records, in order |
| `TeehistorianStream.DrainIsParse` | record/teehistorian/stream.go:57-78 | on every byte string, pulling records until the end gives what the in-memory parser gives: same records, and an error of the same class |
| `TeehistorianStream.Decoder.Next` | record/teehistorian/stream.go:57-78 | each call hands out the next record of that drain and is final after Finish or the end |
| `TeehistorianStream.Decoder.DecodeRecord` | record/teehistorian/stream.go:81-195 | pulling a record's fields off the stream reads the same record, and consumes the same bytes, as the slice reader |
| `TeehistorianStream.Encoder.Write` | record/teehistorian/stream.go:293-297 | after any sequence of writes the output is the file that WriteTo would write for the same records |
| `Ticks.PositionIsSum` | record/teehistorian/ticks.go:58-73 | a player stands at its last absolute position plus the sum of all later differences |
| `Ticks.PositionFromZero` | record/teehistorian/ticks.go:58-73 | a player that was never placed, or was removed, is there exactly when a difference names it, and stands at the sum of its differences |
| `Ticks.InputIsSum` | record/teehistorian/ticks.go:74-85 | an input is the last whole input plus the field-wise sum of all later differences |
| `Ticks.InputFromZero` | record/teehistorian/ticks.go:74-85 | an input that was never given whole is the sum of its differences |
| `Ticks.RemovedIsAbsent` | record/teehistorian/ticks.go:69-73 | a removed player is absent until a record names it again |
| `Ticks.FramesCoverAll` | record/teehistorian/ticks.go:18-93 | whatever the skips, each frame shows more records than the one before, and no player or input record is left out |
| `Ticks.TicksIncreaseIff` | record/teehistorian/ticks.go:18-93 | the yielded ticks strictly increase if and only if the skips between any two shown records, when there are any, move the tick forward in sum |
| `Ticks.NonNegativeSkipsAdvance` | record/teehistorian/ticks.go:18-93 | skips that are not negative meet that condition |
| `Ticks.NegativeSkipRepeatsTick` | record/teehistorian/ticks.go:18-93 | a skip of minus one yields the same tick twice |
| `Ticks.BoundariesAre` | record/teehistorian/ticks.go:18-93 | a frame ends exactly before a skip, before a player record whose id does not increase, and with the list, wherever something is still to be shown; its tick is the sum of the skips before it plus the number of frames that player records have ended before it |
| `Ticks.IdsIncreaseWithinFrames` | record/teehistorian/ticks.go:34-44 | two player records with no end of a frame between them have increasing ids |
| `Ticks.OneRecord` | record/teehistorian/ticks.go:49-92 | a record alone gives a frame at tick 0 exactly when it is about a position or an input |
| `Ticks.LonePlayerExample` | record/teehistorian/ticks.go:34-44 | a single player that moves tick after tick gives a frame for each |
| `Ticks.Replay` | record/teehistorian/ticks.go:18-93 | the one loop over the records yields exactly the frames whose ends and ticks BoundariesAre decides, each showing the fold of all records before it, and an early stop of the consumer yields a prefix |
| `Ghost.FieldsOfFromFields` | record/ghost/ghost.go:144-175 | whatever fields are decoded into an item, its fields are those again |
| `Ghost.CanonicalMeans` | record/ghost/ghost.go:144-175 | for every kind of item, which ones are their own decoding: all numbers fit in 32 bits, and no raw item that a typed one stands for |
| `Formats.ItemExamples` | record/ghost/ghost.go:144-175 | the types and the order of the fields, item by item |
| `Ghost.WrapAround` | record/ghost/ghost.go:308-314 | adding back a wrapped 32-bit difference restores every 32-bit value |
| `Ghost.UndiffOfDifferences` | record/ghost/ghost.go:284-320 | accumulating the differences of neighbouring items restores the items |
| `Ghost.DecodeGroupOfEncode` | record/ghost/ghost.go:284-320 | a group of items of one length is decoded from its packed, compressed differences |
| `Formats.GroupHeader` | record/ghost/ghost.go:399-413 | the header of a group holds its type, the number of items and the size of what follows, high byte first |
| `Formats.GroupExample` | record/ghost/ghost.go:384-413 | the first item is stored as it is, the others as what they have more than the one before |
| `GhostBody.BodyRoundTrip` | record/ghost/ghost.go:339-359 | an item list that can be written is read back unchanged if and only if every run that the writer forms has one field count, a one-byte type and canonical items |
| `GhostBody.OneCountIsSound` | record/ghost/ghost.go:391-397 | it is enough that neighbours of equal type have equally many fields |
| `GhostBody.SoundIsWritten` | record/ghost/ghost.go:384-413 | such a list never panics the writer; the only failure is a chunk that compresses too badly |
| `GhostBody.FirstRun` | record/ghost/ghost.go:339-350 | the greedy run is never empty, never over fifty items, of one type, and as long as these allow |
| `GhostBody.SplitChunk` | record/ghost/ghost.go:265-281 | a physical chunk always consumes bytes |
| `GhostFile.AppendPhysicalChunk` | record/ghost/ghost.go:384-413 | the writing loop over `prev` appends the encoded group, fails where the format cannot hold it and panics where an index would |
| `GhostFile.DecodePhysicalChunk` | record/ghost/ghost.go:284-320 | the decoding loop over `prev` yields the decoded group with the same errors |
| `GhostFile.WriteBody` | record/ghost/ghost.go:339-359 | the grouping loop writes the body the encoding function defines |
| `GhostFile.ParseBody` | record/ghost/ghost.go:187-203 | the chunk loop parses what the decoding function defines |
| `GhostStream.Encoder.Write` | record/ghost/stream.go:135-146 | after every write the bytes out are a prefix of what WriteTo will produce however the list goes on; a failure means no such list can be written |
| `GhostStream.Encoder.Flush` | record/ghost/stream.go:151-162 | the held-back run is emitted as one group and nothing is held back any more |
| `GhostStream.Encoder.Close` | record/ghost/stream.go:149-149 | after Close the bytes out are exactly those WriteTo produces for the written list, or the same error |
| `GhostStream.DrainIsParse` | record/ghost/stream.go:69-82 | on every byte string the incremental reader hands out exactly the items Parse returns, or its error |
| `GhostStream.Decoder.Next` | record/ghost/stream.go:69-82 | each call hands out the next item of that drain, refilling as often as needed; the end is answered again by every later call |
| `GhostStream.Decoder.ReadChunk` | record/ghost/stream.go:85-115 | one physical chunk is pulled and decoded, or the end of the stream is noted |
| `GhostStream.ReadPhysical` | record/ghost/stream.go:85-110 | the header and payload pulled off the stream are those the slice splitter finds |
| `Demo.InStepIff` | record/demo/demo.go:336-395 | for every file version and every lossless codec: the reader finds each chunk and goes on exactly where the writer wrote the next one, if and only if every chunk is well formed where it stands and compresses to less than 65536 bytes |
| `Demo.StreamRoundTrip` | record/demo/demo.go:336-395 | the list survives writing and reading if and only if its chunks are well formed, among lists whose chunks fit; and, with a codec that codes the end of its data, if and only if they are well formed and fit |
| `Demo.OversizedChunkFails` | record/demo/demo.go:453-469 | a single chunk that compresses to 65536 bytes or more never survives, whatever the lossless codec |
| `Demo.OversizedExample` | record/demo/demo.go:453-469 | such as 65536 bytes that the codec leaves as they are |
| `Demo.RecordedSurvives` | record/demo/demo.go:432-449 | a recording with non-negative, non-decreasing 32-bit ticks and known types meets that condition from version 5 on |
| `Demo.LegacyVersionFails` | record/demo/demo.go:432-449 | below version 5 the writer's compressed markers are read back as other ticks: a two-marker file does not survive |
| `Demo.MarkerRoundTrip` | record/demo/demo.go:336-366 | a tick marker comes back exactly when it is well formed, and then both sides carry the same previous tick |
| `Demo.DataRoundTrip` | record/demo/demo.go:367-383 | what the reader makes of any data chunk: the payload cut to the low sixteen bits of its size; it is found whole exactly when its type fits in two bits and its compressed size in sixteen |
| `Formats.MarkerExamples` | record/demo/demo.go:432-449 | the bytes of markers: flags in the head, a whole tick with its high byte first, or an increase of up to 31 |
| `Formats.DataExamples` | record/demo/demo.go:453-469 | the heads of data chunks: type and size, with the size in up to two more bytes, low byte first |
| `DemoFile.AppendTickMarker` | record/demo/demo.go:432-449 | the appended bytes and the new previous tick are the encoding's |
| `DemoFile.AppendDataChunk` | record/demo/demo.go:453-469 | the appended bytes are the encoding's, with a size of more than sixteen bits cut to its low two bytes |
| `DemoFile.WriteChunks` | record/demo/demo.go:401-415 | the loop with its running previous tick writes the whole encoded stream |
| `DemoFile.Encoder.Write` | record/demo/stream.go:159-167 | after any sequence of writes the output is the encoded stream of the chunks written |
| `DemoFile.ReadChunk` | record/demo/demo.go:336-384 | the cursor-moving reader returns the decoded chunk and the tick the next one counts from |
| `DemoFile.ParseChunks` | record/demo/demo.go:291-302 | the loop of Parse is the decoding function |
| `DemoFile.Decoder.Next` | record/demo/stream.go:78-92 | the streaming decoder hands out the same chunks as the slice parser, one by one, with errors of the same class; the end is answered again by every later call |
| `DemoFile.Decoder.DecodeChunk` | record/demo/stream.go:95-137 | one chunk pulled off the stream is the chunk the slice reader decodes |
| `ChunkCodec.HeaderRoundTrip` | packet/chunk.go:59-91 | a header comes back with its size and sequence number reduced to what the bits can hold, for both splits |
| `ChunkCodec.SeqRoundTrip` | packet/chunk.go:59-91 | the sequence number comes back modulo 1024 although the two splits store overlapping bits |
| `Formats.VitalHeaderExamples` | packet/chunk.go:59-69 | the bytes of vital headers under both splits, with and without the resend flag |
| `Formats.PlainHeaderExamples` | packet/chunk.go:59-69 | and of headers that are not vital |
| `Scanners.SplitRoundTrip` | packet/chunk.go:119-142 | splitting inverts the concatenation of wrapped chunks if and only if every chunk is non-empty and its size and sequence number fit |
| `Scanners.SplitCoversAll` | packet/chunk.go:119-142 | on every payload each chunk stands right after the one before it with the data its header announces, only the last one may have a size of zero or past the end, and no byte of data is left over |
| `Scanners.UnpackChunks` | packet/chunk.go:119-142 | the splitting loop is that function, including its treatment of zero and overlong sizes |
| `Scanners.Unpack` | packet/chunk.go:72-91 | the header read through the cursor is the header the bits encode |
| `Scanners.ScanAckIsFold` | packet/helpers.go:64-91 | on well-formed payloads the raw scan of sequence numbers is the in-order fold over the chunks |
| `Scanners.CountVitalChunks` | packet/helpers.go:64-91 | the offset loop is that scan on every payload |
| `Scanners.ScanContainsIsSearch` | packet/helpers.go:103-137 | on well-formed payloads the scan finds a message if and only if some chunk's first byte says so |
| `Scanners.OneByteIds` | packet/helpers.go:103-137 | looking at one byte identifies an id only modulo 32 |
| `Scanners.OneByteExample` | packet/helpers.go:103-137 | a scan for message 0 finds message 32 |
| `Scanners.SignedMatchesNothing` | packet/helpers.go:124-131 | a first byte with the sign bit matches no message |
| `Scanners.ContainsMsg` | packet/helpers.go:103-137 | the offset loop is that scan on every payload |
| `Scanners.ScanExtractIsSearch` | packet/helpers.go:141-215 | on well-formed payloads extraction returns the first, or all, matching chunk bodies |
| `Scanners.BodyOfPack` | packet/helpers.go:156-170 | a body is extracted exactly from a system message with that id, compared as a whole |
| `Scanners.ExtractionExample` | packet/helpers.go:156-209 | the first message with the id counts even without a body, among all of them only those with one do |
| `Scanners.ExtractSysMsgPayload` | packet/helpers.go:141-176 | the offset loop is the extraction on every payload |
| `Scanners.ExtractAllSysMsgPayloads` | packet/helpers.go:182-215 | so is the loop that collects all of them |
| `Download.Session.NewReq` | net7/session.go:741-750 | a new request takes the next sequence number modulo 1024 and is sent at once |
| `Formats.RequestExamples` | net7/session.go:749-755 | the bytes of requests, and the first byte of map data |
| `Download.Session.SendReq` | net7/session.go:749-754 | repeating a request sends the same bytes and takes no new number |
| `Download.Session.HandlePacket` | net7/session.go:800-840 | one packet changes acknowledgement, data, count and request as the handling function says, chunk by chunk |
| `Download.Session.HandleOne` | net7/session.go:811-840 | one chunk: only the next expected vital counts, and a full window makes the next request, as OneRequestPerWindow says over runs |
| `Download.MismatchIff` | net7/session.go:809-819 | a packet asks for a resend exactly when one of its vitals was not the next expected one in its turn |
| `Download.Session.Drain` | net7/session.go:730-852 | the receive loop over any sequence of timeouts and packets is the fold of the handling function, up to the size it waits for |
| `DownloadProtocol.StepKeepsInv` | net7/session.go:730-852 | every step of server, network and client keeps the protocol's invariant |
| `DownloadProtocol.InOrderDownload` | net7/session.go:811-840 | in every run under loss, duplication and reordering, the data collected is that of the accepted vitals in order, a prefix of what was sent, and of the map bytes the server answered with unless it sent something else that is taken for them; the acknowledged number is their count modulo 1024 |
| `DownloadProtocol.MapPartIs` | net7/session.go:822-833 | a map message gives exactly its body; a message is taken for one if and only if its id agrees with it modulo 32, and one with id 35 then gives a byte more than its body |
| `DownloadProtocol.AnswerIsBodies` | net7/session.go:822-833 | what the client takes from the messages of an answer is their bodies, one after the other |
| `DownloadProtocol.OneWindowOutstanding` | net7/session.go:749-788 | in every run the requests are numbered without a gap and at most one window of chunks is on its way, not counting other messages that are taken for chunks |
| `DownloadProtocol.OneRequestPerWindow` | net7/session.go:834-838 | in every run the requests made so far, repetitions aside, are the first one and one for every window completed while bytes were missing: as long as bytes are missing every completed window has its request, and none is made after that |
| `DownloadProtocol.ExpectedIffResidue` | net7/session.go:811-822 | a vital is taken for the next one exactly when their positions agree modulo 1024 |
| `DownloadProtocol.AcksIffNoAlias` | net7/session.go:811-822 | over a whole packet: the acknowledged number is the count of accepted vitals modulo 1024 after every chunk, if and only if no chunk is taken for the expected vital without being it |
| `DownloadProtocol.AliasExample` | net7/session.go:811-822 | after 1024 accepted vitals the first one, delivered once more, is taken again, and the client holds a byte that nobody sent |
| `DownloadProtocol.WindowHasNoAlias` | net7/session.go:811-822 | no false acceptance happens while each delivered vital is, at its moment, less than 1024 positions away from the expected one; at a distance of 1024 it does |
| `DownloadProtocol.NextVitalMakesProgress` | net7/session.go:811-840 | delivering the next expected vital always advances the download |
| `Snapshot.PutAllIsApply` | packet/snap.go:283-300 | putting updates in one after the other is: base minus deleted keys, each updated key overridden by its last update, counted from the base |
| `Formats.DeltaExample` | packet/snap.go:190-269 | a delta of one deleted key and two updates, integer by integer |
| `Formats.UpdateLayout` | packet/snap.go:235-269 | an update is its type and id, its size unless that is known from the type, and its differences, whatever comes after it |
| `Formats.KeyExample` | packet/snap.go:210-219 | a key holds the type in its upper and the id in its lower sixteen bits |
| `Formats.NegativeCountsExample` | packet/snap.go:210-236 | counts below zero count as none |
| `Formats.MergeExamples` | packet/snap.go:271-279 | differences are added to the base's fields, cut to size or extended with zeros |
| `Formats.ApplyExamples` | packet/snap.go:221-300 | deleted items go, updated ones change, new ones come and all others stay; an update counts from the base, also after a deletion or another update of the same item |
| `Formats.FreshBufferExample` | packet/snap.go:43-48 | a buffer that was never filled gives zeros for what a payload does not hold |
| `Formats.BaseExamples` | packet/snap.go:127-135 | which snapshot is the base, and that an empty payload carries it forward |
| `Snapshot.CompleteIgnoresBuffer` | packet/snap.go:43-48 | a complete payload decodes, and to the same snapshot whatever the reused buffer held |
| `SnapshotBuffer.IgnoresBufferIffSettled` | packet/snap.go:235-282 | for every base and payload: the result, or the error, is the same whatever the reused buffer held if and only if a cut-off update is followed by another one or is no longer than the longest update before it in the payload |
| `SnapshotBuffer.CompleteIsSettled` | packet/snap.go:235-282 | complete payloads meet that condition |
| `SnapshotBuffer.MissingFieldShowsOwnUpdate` | packet/snap.go:262-269 | an incomplete payload that meets it, too: its missing field shows the field of its own earlier update |
| `Snapshot.TruncatedShowsBuffer` | packet/snap.go:262-269 | a payload outside of it: cut off inside the last fields, it is accepted and shows what an earlier call left in the buffer |
| `Panics.DeltaPanicsIff` | packet/snap.go:247-262 | whatever the base and the buffer, a delta panics if and only if it comes to an update whose size in the stream is negative |
| `Panics.NegativeSizeExample` | packet/snap.go:247-262 | such a delta |
| `Snapshot.Buffer` | packet/snap.go:43-48 | the buffer is always long enough |
| `SnapshotDiff.ApplyOfDiff` | packet/snap.go:173-303 | applying the difference of two snapshots to the first gives the second |
| `SnapshotDiff.EncodeRoundTrip` | packet/snap.go:173-303 | the client rebuilds the server's snapshot from the base and the bytes, whatever its buffer held |
| `SnapshotDiff.WhenEncodable` | packet/snap.go:247-260 | what the server has to observe for that: small keys, sizes as their types prescribe, differences of 32 bits |
| `ApplyDelta.Scratch.DeltaBuf` | packet/snap.go:43-48 | the buffer keeps its contents when it is long enough and is all zeros when it is new |
| `ApplyDelta.Scratch.LoadBase` | packet/snap.go:205-208 | the lookup table holds exactly the base's items, sharing their fields |
| `ApplyDelta.Scratch.ReadDeleted` | packet/snap.go:210-219 | the deleted keys are those of the payload, or its error |
| `ApplyDelta.Scratch.CarryForward` | packet/snap.go:221-233 | the kept items are the base minus the deleted keys, shared and not copied, and the index finds each of them |
| `ApplyDelta.Scratch.ReadFields` | packet/snap.go:262-269 | a short read leaves the old contents behind the values that were read |
| `ApplyDelta.Scratch.AppendFields` | packet/snap.go:271-279 | the absolute fields are the base's, zero-extended or cut to size, plus the differences |
| `ApplyDelta.Scratch.DecodeUpdates` | packet/snap.go:235-282 | pass 1 lays out every update's fields in disjoint stretches of one buffer, or stops with the decoding error or the panic of a negative size |
| `ApplyDelta.Scratch.MergeUpdates` | packet/snap.go:283-300 | pass 2 over the index makes the items the map of all updates, last one winning, keys unique |
| `ApplyDelta.PlacedApart` | packet/snap.go:283-300 | the fields of distinct updated items lie in disjoint parts of one array |
| `ApplyDelta.Apply` | packet/snap.go:173-303 | the whole call: result as a map is the delta applied to the base, with fresh or shared fields, nothing but the scratch written to, and the scratch clean again on every path |
| `SnapWindow.Window` | packet/snap.go:86-97 | a configured window is never below three and is kept from three on |
| `SnapWindow.WhatStoreKeeps` | packet/snap.go:138-164 | exactly which snapshots a call keeps: those not older than its base and, when there are more of these than the window holds, not more than a window older than the new one; that one is kept, and every kept one as it was |
| `SnapWindow.BoundedRetention` | packet/snap.go:142-164 | over every run with increasing ticks, of whatever payloads and with whatever in the buffer, the store never holds more than the window plus one |
| `SnapWindow.RetentionBoundIsReached` | packet/snap.go:155-164 | and that many it does hold after as many full snapshots |
| `SnapStorage.SnapStorage.constructor` | packet/snap.go:111-123 | a new storage is empty and has a valid window |
| `SnapStorage.SnapStorage.PurgeBelow` | packet/snap.go:149-153 | the deletion loop leaves exactly the ticks from the bound on |
| `SnapStorage.SnapStorage.ProcessSnap` | packet/snap.go:127-167 | the stored snapshots, the last tick and the result are those of the value model; a failure changes none of them; every snapshot stored before still shows what it showed |
| `SnapStorage.SnapStorage.ProcessAll` | packet/snap.go:127-167 | any number of calls with one scratch and any payloads: the storage is the run on values and stays within its window, each call answers its packet's snapshot or error, and every snapshot ever handed out still shows what it showed then |
| `SnapStorage.SnapStorage.OutcomeIsStored` | packet/snap.go:127-167 | in such a run each packet's snapshot is in the store right afterwards, and a failing packet leaves the store as it was |
| `Replication.DecodesRight` | net6/reader.go:278-284 | whatever the buffer holds, every packet on its way decodes to the server's snapshot for its tick |
| `Replication.StepKeepsInv` | packet/snap.go:127-167 | sending, losing, delivering and delivering again keep the replication invariant |
| `Replication.ReplicationIsSafe` | packet/snap.go:127-167 | in every run, every snapshot the client ever holds is the server's for that tick, acknowledgements never go back, and the store stays within its window |
| `Replication.NoFallbackIsTaken` | packet/snap.go:130-135 | in every run, the base of every delivered packet is in the store, and the packet's snapshot is stored and, unless a later one has been, acknowledged |
| `Replication.WithoutBase` | packet/snap.go:133-135 | with its base missing a payload still decodes, and to the right snapshot if and only if every key of it is new, or changed and counted from zeros |
| `Replication.WithoutBaseExample` | packet/snap.go:133-135 | a field that went from 1 to 3 comes out as 2 without its base, and as 3 with it |
| `Replication.BaseTooFarExample` | packet/snap.go:142-164 | why a base must lie within the window: one tick further back it is gone when the packet is delivered once more, and the snapshot stored before is overwritten by a wrong one |
| `Replication.OvertakenExample` | packet/snap.go:142-153 | why the channel must not reorder: a packet that overtakes another one takes that one's base away |
| `Assembly.SingleRoundTrip` | net6/reader.go:255-277 | a whole-snapshot message is read back as it was written |
| `Assembly.PartRoundTrip` | net6/reader.go:307-336 | so is a part |
| `Formats.SnapMessageExamples` | net6/reader.go:255-336 | the order of the fields in the three messages |
| `Assembly.AssembledIff` | net6/reader.go:349-379 | a multi-part message completes at the arrival that makes the count right, and its payload is then the parts in index order if and only if every part that holds anything has arrived |
| `Assembly.RepeatedPartExample` | net6/reader.go:359-370 | the same part twice completes a message of two parts without the other one |
| `Panics.NegativePartsExample` | net6/reader.go:307-357 | a message that announces a negative number of parts is read; ProcessSnapMulti says that exactly such messages panic |
| `Assembly.DistinctPartsAssemble` | net6/reader.go:359-370 | without repeated parts a complete message is always right, in whatever order the parts came |
| `SnapReader.SnapReader.AckSnap` | net6/reader.go:386-398 | a tick is acknowledged only if it is newer than all acknowledged before |
| `SnapReader.SnapReader.Deliver` | net6/reader.go:278-284 | a packet is stored, acknowledged and passed on exactly when it decodes |
| `SnapReader.SnapReader.ProcessSnapSingle` | net6/reader.go:255-285 | an unreadable message changes nothing, a readable one is delivered |
| `SnapReader.SnapReader.ProcessSnapEmpty` | net6/reader.go:287-305 | the same for a message without payload |
| `SnapReader.SnapReader.ProcessSnapMulti` | net6/reader.go:307-380 | a part is gathered; what it completes is delivered and then forgotten, unless it failed to decode; a negative part count panics |
| `SnapReader.JoinParts` | net6/reader.go:366-370 | the parts in index order |
| `SnapReader.NoPartsAtAll` | net6/reader.go:349-380 | a message that announces no parts at all is complete at once, and empty |
| `SnapReader.ArriveIsReceive` | net6/reader.go:278-284 | what a packet does to the reader is what the replication protocol's step does to its client |
| `SnapTransport.Completed` | net6/reader.go:255-380 | a packet that decodes is delivered by its last message, whole, empty or the last of its parts in any order, and no gathered part is left behind |
| `SnapTransport.Incomplete` | net6/reader.go:349-370 | of a packet whose parts never all arrive nothing is delivered |
| `SnapTransport.StepStaysInStep` | net6/reader.go:255-380 | the reader, fed with the bytes of the messages, stays the client of the replication protocol through every step |
| `SnapTransport.ReaderReplicates` | net6/reader.go:255-398 | in every run, from the bytes of its messages, the reader only ever stores the server's snapshots, never acknowledges backwards, stays within its window, and has taken each packet's snapshot once all of its messages have come |
| `MapCache.CacheKeyIsInjective` | packet/mapcache.go:29-31 | two maps share a cache key only if name and checksum agree, colons in names included |
| `MapCache.Shared.AskLocked` | packet/mapcache.go:46-68 | the first stretch under the lock: cached, wait, or registered as the downloader |
| `MapCache.Shared.RereadLocked` | packet/mapcache.go:58-61 | what a woken waiter returns |
| `MapCache.Shared.PutLocked` | packet/mapcache.go:71-81 | the map is stored and the pending channel is handed over for closing |
| `MapCache.Shared.PutFailedLocked` | packet/mapcache.go:84-93 | only the pending channel is handed over |
| `MapCache.StepKeepsInv` | packet/mapcache.go:46-93 | every step of any goroutine keeps the cache's invariant |
| `MapCache.ClosedAtMostOnce` | packet/mapcache.go:71-93 | over all interleavings no channel is closed twice |
| `MapCache.WaitersAreWoken` | packet/mapcache.go:55-61 | a blocked waiter's channel is pending for its key, in the hands of somebody about to close it, or closed |
| `MapCache.CachedStays` | packet/mapcache.go:71-76 | a cached map is never removed |
| `MapCache.WokenWaiterReturns` | packet/mapcache.go:55-61 | a woken waiter gets a map that was put for its key, or nothing; it gets one whenever a Put woke it and nobody puts nil |
| `MapCache.RegisteredIffNotWaited` | packet/mapcache.go:40-68 | a caller that is told to download is registered as the downloader if and only if it did not wait |
| `MapCache.OnlyOneDownloads` | packet/mapcache.go:46-68 | download once: from a registration until somebody puts or gives up the map, every other caller for its key waits for the channel made then |
| `MapCache.LastPutIsReturned` | packet/mapcache.go:50-53 | a caller gets at once the map that was put last for its key |
| `MapCache.FailureLetsRetry` | packet/mapcache.go:84-93 | after a failure the next caller is registered as the downloader |
| `MapCache.TwoDownloadersAfterFailure` | packet/mapcache.go:40-93 | a run in which two goroutines are told to download the same map at once, after a failed download |
| `Collision.MoveBox` | physics/collision.go:82-125 | the sub-step loop is the fold of the sub-step function, whose stops StoppedIff decides |
| `Collision.MoveIsSafe` | physics/collision.go:82-125 | on any map: free before, free after; each velocity component survives or is zeroed; grounded says exactly that a downward one was zeroed; an axis that keeps its velocity has moved by all of it |
| `Collision.StoppedIff` | physics/collision.go:97-120 | an axis loses its velocity exactly when the box is blocked along it in some sub-step; it has then moved by the sub-steps before the first such one, and by all of them when there is none |
| `Collision.SlidesAlong` | physics/collision.go:82-125 | along a floor or a ceiling a move that starts free keeps its sideways velocity and moves by all of it; along a wall the vertical one |
| `Collision.StepsAreShort` | physics/collision.go:84-91 | as many sub-steps as make each of them shorter than one unit |
| `Collision.SubStepsStayFree` | physics/collision.go:93-120 | free after every single sub-step |
| `Collision.FreeCornersFreeBox` | physics/collision.go:67-74 | testing the four corners is enough: a tee's box with free corners holds no solid point |
| `Collision.RoundedStaysFree` | physics/core.go:407-412 | rounding the position to whole units puts no corner into another tile |
| `Collision.RoundIsNearest` | physics/collision.go:29-34 | rounding gives the nearest integer, halves away from zero |
| `Collision.TileIs` | physics/collision.go:36-40 | the tile of a world coordinate, which truncates towards zero |
| `Collision.IntersectLineHook` | physics/collision.go:157-168 | the walk along the line is the recursive search |
| `Collision.LineFindsFirst` | physics/collision.go:157-168 | which finds the first sample that can stop the hook, and reports none exactly when none can |
| `Tee.JumpBits` | physics/core.go:11-18 | the bit operations set, clear and keep the two jump bits they should, for every integer |
| `Tee.OtherBitsStay` | physics/core.go:11-18 | and leave all other bits alone |
| `TeeLaws.BoxTouches` | physics/collision.go:67-74 | on a map that is solid from a row or column on: a box hits it exactly when its edge does |
| `TeeLaws.StandsOnGround` | physics/core.go:90-94 | on such a map: a tee stands on the ground up to nineteen and a half units above it, and with feet fourteen units to either side |
| `TeeLaws.FreezesAtCentre` | physics/core.go:84-86 | and is frozen where its centre is, if freezing is predicted at all |
| `TeeLaws.KeysMove` | physics/core.go:117-182 | right speeds up to the right by the acceleration, up to the top speed of the ground or the air and never beyond, left is the mirror image, and without a key the speed shrinks by the friction |
| `TeeLaws.JumpsAndFalls` | physics/core.go:117-155 | a jump replaces the vertical velocity by its impulse upwards, and otherwise gravity is added; air jumps since the ground are counted |
| `TeeLaws.JumpsAreUsedUp` | physics/core.go:117-156 | after a jump the key has to come up; a tee with two jumps or more can jump once more in the air after one from the ground; the ground gives the air jump back |
| `TeeLaws.TickAnswersKeys` | physics/core.go:99-204 | a tick that no hook and no blast disturbs answers the keys: right never lowers the velocity and left never raises it, strictly so below the top speed; gravity pulls unless the tick jumps |
| `TeeLaws.FrozenCannotAct` | physics/core.go:106-111 | a frozen tee walks neither way, does not jump, lets go of its hook and fires nothing |
| `TeeLaws.FrozenIgnoresKeys` | physics/core.go:106-111 | a frozen tee ticks the same whatever the keys |
| `TeeLaws.FiresOnEdge` | physics/core.go:186-199 | a grenade is fired when its key goes down, ahead of the tee, to the right when there is no target |
| `TeeLaws.SlidesOnFloor` | physics/core.go:377-392 | along a floor a tee moves by its sideways velocity, curved by the ramp, and keeps it |
| `TeeLaws.SlidesUnramped` | physics/core.go:377-384 | and by exactly that velocity when it is below the start of the ramp |
| `TeeLaws.SlidesOnWall` | physics/core.go:377-392 | along a wall it falls by its vertical velocity and keeps that |
| `TeeLaws.LandingRefreshes` | physics/core.go:377-392 | a move that ends on the ground, and no other, gives the air jump back |
| `TeeLaws.QuantizesNearby` | physics/core.go:403-412 | quantizing goes to the nearest whole position and the nearest 256th of a velocity |
| `HookLaws.HookKeyMoves` | physics/core.go:157-171 | a launched hook starts ahead of the tee in the direction of the target, a released one is back at the tee, any other key leaves it alone |
| `HookLaws.FlightIsBounded` | physics/core.go:277-282 | with lengths that are lengths, a hook flies on by its speed but never beyond its length from the tee |
| `HookLaws.StopsAtSolid` | physics/collision.go:162-165 | what stops a hook on maps that are solid, or let hooks through, from a row or a column on |
| `HookLaws.LooksAlongTheWay` | physics/collision.go:157-168 | the hook's way is looked at from end to end in steps shorter than one unit, and is cut off exactly when one of the points stops it |
| `HookLaws.FlyingHookMeetsWall` | physics/core.go:277-324 | a flying hook that reaches no tee holds in the first wall on its way, turns back when that does not hold hooks or the hook is too long, and flies on otherwise |
| `HookLaws.TurnedHookRetracts` | physics/core.go:268-275 | a hook that turned back is retracted after three more ticks |
| `HookLaws.HeldHookFollows` | physics/core.go:326-339 | a hook that holds a tee goes where that tee is, and comes back when there is none |
| `HookLaws.PullIsTowardsHook` | physics/core.go:341-365 | a hook in a wall pulls the tee towards it on both axes or leaves it alone, and with which share of the drag |
| `HookLaws.PullIsBounded` | physics/core.go:341-365 | it pulls from more than 46 units away only, and never to a greater speed beyond the drag speed |
| `HookLaws.PushSeparates` | physics/world.go:48-70 | a tee that overlaps another one keeps 85 per cent of its velocity and is pushed away from it; one that does not is left alone |
| `HookLaws.PushIsExact` | physics/world.go:58-68 | all of the push for a tee that comes head on, half for one at rest, none for one that leaves straight away |
| `HookLaws.HookDrawsTogether` | physics/world.go:71-88 | a tee that has hooked another one draws it closer and is drawn to it |
| `HookLaws.DrawsBeyond` | physics/world.go:48-75 | tees at the same place leave each other alone, and a hook of no more than 42 units does not draw |
| `HookLaws.DragIsExact` | physics/world.go:75-86 | within the drag speed the hooked tee gains one and a half times the drag along the hook, and the hooking one loses a quarter of it |
| `HookLaws.DragGrows` | physics/world.go:76-76 | the drag grows with the distance, to that of the tuning at the full length of the hook |
| `HookLaws.ClampIsBound` | physics/core.go:200-204 | a tick leaves no speed above 6000, cuts a greater one to that in its direction and changes no other |
| `TeeWorld.TickAllIsTick` | physics/world.go:12-35 | within a world step each tee ticks as if alone, with everybody's positions from before the step; the others touch its velocity only |
| `TeeWorld.OrderDoesNotMatter` | physics/world.go:3-35 | when nobody ends up hooked, each tee's velocity comes from its own tick and everybody's positions before the step, whatever the order of the turns |
| `TeeWorld.PushingIsPrivate` | physics/world.go:48-70 | without a hook a tee changes nobody's velocity but its own |
| `Tee.SaturatedAddStops` | physics/physics.go:72-93 | a bound is never crossed, a speed beyond it is left alone, and otherwise the change is made in full or up to the bound |
| `TeeWorld.NobodyEntersWalls` | physics/core.go:377-412 | on any map, in every run, a tee that starts outside the walls never gets into one |
| `TeeWorld.HooksHoldOthers` | physics/core.go:266-365 | in every run a hooked player means a grabbing hook and the index of another tee |
| `TeeWorld.FlyingHookGrabsNearest` | physics/core.go:277-340 | a flying hook grabs a player exactly when one lies at its clipped segment, and then one that none of those is nearer than |
| `NearestPoint.ClosestIsNearest` | physics/physics.go:57-70 | the point found on the hook's way is one of it, and none of it is nearer to the tee |
| `NearestPoint.InReachIff` | physics/core.go:300-310 | so a tee is in reach exactly when some point of the way is less than thirty units from it |
| `TeeWorld.LaunchesNeedRelease` | physics/core.go:157-171 | between two launches of a tee its hook key was up |
| `TeeWorld.JumpsIff` | physics/core.go:133-155 | exactly when a tick jumps; a press that found no jump still jumps on landing |
| `TeeWorld.VainPressExample` | physics/core.go:133-155 | such a press: to no effect in the air, and a jump on the ground one tick later, with vectors measured at their true length |
| `TeeWorld.JumpsNeedRelease` | physics/core.go:133-155 | between two jumps of a tee its jump key was up |
| `TeeWorld.AirJumpsNeedGround` | physics/core.go:117-155 | between two air jumps a tee has been on the ground |
| `TeeWorld.WorldOfOne` | physics/world.go:12-35 | a world step of one tee is that tee's own step |
| `Core.Core.GrabPeer` | physics/core.go:296-314 | the scan over the peers, which skips the core itself, is the search over positions |
| `Core.Core.TickHook` | physics/core.go:266-365 | the hook's state machine changes the core as the function says |
| `Core.Core.Tick` | physics/core.go:99-204 | a tick changes every field of the core as the function says, of which KeysMove, JumpsAndFalls, TickAnswersKeys and the laws of the hook speak |
| `Core.Core.Move` | physics/core.go:377-392 | so does the move |
| `Core.Core.Step` | physics/core.go:395-399 | a full step is tick, move and quantize |
| `Core.Core.TickDeferredCollision` | physics/world.go:48-88 | the pair loop changes only velocities, its own and those of hooked peers, as the function says |
| `Core.WorldStep` | physics/world.go:12-35 | stepping distinct cores in place is the world step on values |
| `InputRing.RingSize` | client/prediction.go:21-30 | a configured ring is never below eight slots |
| `InputRing.InputRing.Configure` | client/prediction.go:50-54 | a configured ring remembers nothing |
| `InputRing.InputRing.Remember` | client/prediction.go:64-72 | a record goes to its tick's place and nowhere else; ticks that are not positive are ignored |
| `InputRing.InputRing.Get` | client/prediction.go:75-84 | the answer is that of the whole history of records since the ring was configured; the call panics exactly on the negative ticks that are no multiple of the ring's size |
| `InputRing.PlaceIsIndex` | client/prediction.go:75-84 | the remainder of those ticks, and of no others, is no index of the ring |
| `InputRing.SpanIsKnown` | client/prediction.go:64-84 | every tick of a span that fits into the ring is still known, with its last input, if nothing outside the span was recorded since |
| `InputRing.KnownIsLast` | client/prediction.go:75-84 | what is known for a tick is always the last input recorded for it |
| `Prediction.AdvanceAloneIsSteps` | client/predicted_world.go:79-113 | with antiping off the advance is the local core's step, after zone tuning, iterated once per input of the gap-free run |
| `Prediction.GapFreeIsLongest` | client/predicted_world.go:94-102 | that run is the longest one, each tick of it driven by the input known for it, capped at the predicted tick |
| `Prediction.NoGap` | client/predicted_world.go:94-102 | with all inputs of a span that fits into the ring, and nothing else recorded since, it reaches the predicted tick |
| `Prediction.LocalReplay` | client/predicted_world.go:79-113 | with antiping off and such a span, the local tee takes one step for every tick up to the predicted one, each with the input last sent for that tick |
| `Prediction.StaysUnhooked` | client/predicted_world.go:56-66 | a tee that steps alone never hooks a player |
| `Reseed.RetunesByTile` | client/predicted_world.go:29-35 | a core gets the tuning of the tile that its position lies in |
| `Reseed.ShownAsSeeded` | client/predicted_world.go:56-66 | a freshly seeded core is shown as the character it was seeded from |
| `Reseed.SeededAsShown` | client/predicted_world.go:56-66 | a core that has stepped, is shown and seeded again, keeps its place, velocity, direction, jumps and hook state, and forgets everything else |
| `Reseed.HoldsCourse` | client/predicted_world.go:136-144 | a player whose keys are not known keeps walking the same way, neither jumps nor fires, and keeps a hook that flies or holds without ever launching one |
| `Reseed.KeysExample` | client/predicted_world.go:371-380 | what the fields of an input become, with odd fire counts of the grenade launcher alone as shots |
| `PredictedWorld.PredictedWorld.constructor` | client/predicted_world.go:38-53 | one fresh seeded core for every character of the snapshot |
| `PredictedWorld.PredictedWorld.OrderedCids` | client/predicted_world.go:118-131 | the ids to advance, ascending: all, or the local one if it is there |
| `PredictedWorld.AdvanceCores` | client/predicted_world.go:93-113 | the tick loop ends at the predicted tick or at the first missing input, as the function says; it panics exactly when its first tick is negative and has no place in the ring, before any core has moved |
| `PredictedWorld.PredictedWorld.AdvanceTo` | client/predicted_world.go:79-113 | the chosen cores are advanced together and all others stay as seeded; with antiping off the local core has taken its own step once for each input of the longest gap-free run |
| `PredictedWorld.PredictedWorld.CharacterOf` | client/predicted_world.go:159-177 | what is shown of a core, if there is one |
| `Sight.SnapState.UpdateFromSnap` | client/snap.go:638-659 | the two reused maps hold the latest and the previous snapshot and are never the same object |
| `Sight.SnapState.DeriveSight` | client/snap.go:187-222 | exactly the due enter, leave and hooked-by events, each of them once |
| `Sight.ReplayIs` | client/snap.go:198-208 | replaying does not depend on the order the maps were walked in |
| `Sight.DiffLeads` | client/snap.go:198-208 | the events of one snapshot turn the previous visible set into the present one |
| `Sight.EventsRebuildSight` | client/snap.go:187-208 | in every run, replaying all enter and leave events gives exactly who is in the latest snapshot |
| `Sight.EventsAreTrue` | client/snap.go:198-222 | every event is true of its snapshot, the position of who enters included |
| `Sight.HookIsAnnounced` | client/snap.go:210-222 | whoever hooks the local tee was announced at the snapshot where that began, and not again since |
| `Sight.SnapState.HandleSnapshot` | client/client.go:814-826 | the object itself: after every snapshot handled, replaying all events handed out so far gives exactly who is in its latest map |
| `Roster.Client.DeriveScores` | client/snap.go:420-436 | an event for every changed score and team, and no others |
| `Roster.Client.DeriveRoster` | client/snap.go:477-517 | joins and skin changes in the order of the items, and a leave for everybody whose client info is gone |
| `Roster.Client.HandleSnapshot` | client/client.go:814-843 | after every snapshot the registry's keys, and everybody's name, clan, country, local flag, score and team in it, are those of the run, and everybody with a client info is registered with the skin it has now |
| `Roster.Client.ApplyEvents` | client/players.go:157-170 | events are applied to the registry one after the other; what a run of them amounts to say RegisteredAsJoined, RegistryIsRosterIff and ScoreboardIff |
| `Roster.RegistryIsRosterIff` | client/players.go:89-136 | after every snapshot of a run the registry holds exactly the latest client infos' players, if and only if no score or team ever changed for somebody who had none, then or just before |
| `Roster.StrangerExample` | client/players.go:89-136 | a score of somebody without a client info leaves an entry that stays when nobody is left |
| `Roster.InfosForAllPlayers` | client/snap.go:477-517 | it is enough that every player info comes with a client info |
| `Roster.JoinKeepsTeamIff` | client/players.go:82-100 | a join keeps the score of somebody who is registered already, and the team if and only if the event carries the same one |
| `Roster.JoinLosesTeamExample` | client/players.go:82-100 | a run in which a player gets team 1 and the join of the same snapshot, which carries 0, takes it away again, although everybody with a score is introduced |
| `Roster.ScoreboardIff` | client/snap.go:420-436 | after every snapshot of a run a registered player has the score and team of the latest player info, if and only if each info's numbers differ from those of the snapshot right before or are what was last said (0 for a newcomer), and a team is 0 when its player joins |
| `Roster.RegisteredAsJoined` | client/players.go:89-103 | everybody in the latest client infos is registered with the name, clan and country they last joined with, whatever happened since |
| `Roster.Client.RegisteredAsTheyJoined` | client/players.go:82-103 | and so the registry itself says, between any two snapshots |
| `Roster.OwnFlagIff` | client/players.go:89-103 | the flag of the local player is right after every snapshot if and only if the own id is the same at each one for those who stay |
| `Roster.StaleFlagExample` | client/players.go:89-103 | somebody who stays while the own id changes to another one is still marked as local |
| `Roster.FirstScoreExample` | client/snap.go:420-436 | a player who is there from the first snapshot on with seven points in team 1 is registered with 0 and 0 |

## Left out

Weaker than the source, or assumed:

- Huffman.Codec: compression is a parameter; the round trips assume that it never fails, that decompressing undoes it, and that it makes something of everything that is not empty. The one clause of Demo.StreamRoundTrip about codecs that code the end of their data assumes that, too.
- TeehistorianStream.DrainIsParse: errors are compared by class; a record cut off between two fields gives an end-of-file error from the stream and an unexpected-end error from the slice, which are one class here.
- DemoFile.Decoder.Next: the same for a chunk cut off between its head and its payload.
- Tee.Fire: grenade flight and explosions are a parameter that gives an impulse and the grenades still in flight, because none of the properties depends on them.
- Tee.Ramp: the velocity ramp is a positive parameter, since it is a power; lengths are a non-negative parameter, since they are square roots. Where it matters which lengths they are, HookLaws and NearestPoint ask that their squares be the sums of squares.
- TeeWorld.Dragged: a hook length of zero, for which the source divides by zero and gets an infinite force, is modelled as no drag.
- Collision.MoveBox: coordinates are exact, so float32 rounding and parity with the original engine are not modelled.
- Snapshot.Merge: field sums are unbounded integers; the source's sums would wrap at 64 bits.
- Snapshot.ReadUpdates: a size that is too large to allocate is not modelled.
- Teehistorian.ReadConsoleCommand: nor is such a number of arguments.
- ApplyDelta.Apply: a scratch is handed in as a parameter that nobody else uses, as the pool guarantees.
- SnapTransport.Suits: the network repeats no part within one delivery of a packet, because a repeated part can make the count right too early; parts of a packet that is then lost may arrive when its turn has come.
- Replication.Enabled: the server deltas only against acknowledged ticks, its bases never go back and lie within the client's window, and it sends only changes the format can express; the channel does not reorder snapshots. These are assumptions about the server and the network.
- DownloadProtocol.Enabled: no delivered vital is a multiple of 1024 positions away from the expected one, and the server answers a request with at most one window of chunks. Other messages that are taken for map data are counted, not excluded.
- Download.Session.Drain: what the network does is a list of turns (a timeout with or without a packet); deadlines, resend signals and control packets are not part of it.
- SnapReader.SnapReader.AckSnap: the compare-and-swap loop is one step, since only the reader goroutine acknowledges.
- MapCache.Shared: channels are numbered in the order they are made instead of being objects.
- Prediction.Character: only the fields that prediction uses.
- Roster.Snapshot: only what the registry is derived from; the two maps of previous scores and teams, always filled together, are one map here.
- Sight.Character: only position and hooked player; the other per-player events are one comparison each.
- Core.Core: the aim angle, which no tick reads or writes, is not a field.
- Core.Core.Tick: where grenades fly and what they push is the parameter of Tee.Fire; the aim angle, which no tick touches, is not among the fields.

Not modelled:

- Sockets, deadlines, timers, contexts, logging, HTTP and the master server.
- Huffman coding, map parsing, checksums and the JSON header of a teehistorian file, which is a string of NUL-free bytes here.
- The ghost and demo file headers and the ambiguity of the demo preamble's checksum extension: the models begin at the chunk stream.
- Decoders and builders of single messages, packet headers, snapshot object decoding, server info and options: one branch each.
- Race time, projectiles, lasers and DDNet extension objects in the derived events.
- Interpolation between predicted worlds and the smooth clock.
- Reconnecting, the classification of disconnects and remote console state; so the registry of one connection is modelled, not what a reconnect leaves in it.
- Progress of the download under unbounded loss, beyond the step that delivery of the next vital always makes.
