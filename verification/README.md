# A verified model of the LZ4 block codec and of linked LZ4 frames

The project models the codec of this repository in Dafny and proves it correct: the block encoder with its hash
tables, the block decoder with its wild copies, the validator, and the frame encoder and decoder as state machines
over reused buffers. The files follow the program:

- `BlockFormat`, `ReferenceDecoder`: what a block is (a datatype of sequences, its printer and parser, the bytes it
  produces) and a byte-by-byte decoder. Everything else is proved against these.
- `Primitives`, `FastCopy`, `Sink`, `Readers`, `Decompress`, `Validate`, `DecodeErrors`: the decoder and the
  validator, in place on arrays, proved equal to the reference decoder, and what their errors say.
- `HashTable`, `MatchFinder`, `EncoderSpec`, `Emit`, `Compress`, `SearchCost`, `GreedySearch`: the block encoder.
  `EncoderSpec` and `DictEncoderSpec` describe the greedy search step by step on values; the methods on arrays compute
  the same blocks and leave the same tables.
- `BlockCompress`, `BlockApi`, `PlainCompressor`, `PlainReuse`, `DictEncoderSpec`, `DictCompressor`, `DictionaryUse`:
  one-shot functions and reusable compressors. A reused dictionary compressor writes the bytes of a fresh one. A
  reused plain compressor does so, with the program's hash, exactly in the calls that `PlainReuse.ProgramReuse` names.
- `FrameHeader`, `FrameFormat`, `FrameDecoder`, `FrameLockstep`, `FrameHistory`, `FrameAccept`, `FrameBytes`,
  `FrameSizes`, `FrameEncoder`, `FrameRoundTrip`: frames. `FrameFormat` says what a stream of frames decodes to, in
  terms of a moving window, and `FrameHistory` shows that the window never shows; `FrameAccept` says which streams are
  accepted, and why others are not. The decoder class refines it. The encoder class carries a ghost decoder that has
  read everything written so far, whatever comes next; `FrameBytes` says which bytes it writes.

The hash of a table and XxHash32 are arbitrary functions of bytes and table sizes are arbitrary, except where
`PlainReuse` takes the program's hash and the sizes it permits. A checksum computed piece by piece is the hash of the
concatenation. A 64-bit target is assumed. The const generics of the encoder (dictionary, stream offset, read-only,
near) are boolean parameters. Truncations to 16 and 32 bits and wrapping subtractions are written out. The writer and
the reader of a frame are byte sequences. A decoder's promise speaks of bytes below the write position only; what a
wild copy leaves behind it is arbitrary. Error variants carry the fields of the program's; `CompressedOutputTooSmall`
is the encoder's output error.

## Model

| member | source | states |
|---|---|---|
| FrameRoundTrips.RoundTrip | src/frame/compress.rs:391-430 | Any schedule of writes, flushes and finishes on a fresh encoder, read in pieces of any sizes by a fresh decoder with the same dictionary, gives back the concatenation of the writes and no error. Holds for a content size that is absent or correct for every frame, and for every block size, block mode, checksum setting, dictionary, table size and hash function. |
| FrameRoundTrips.Encode | src/frame/compress.rs:175-188 | A finished stream, of one frame or several, is read back as what was written by every decoder whose output limit allows it. Its bytes are a function of settings and frames, each frame a list of the pieces between its flushes: the header, blocks that depend on the pieces of that frame alone, the end. Encoding can fail only over a declared content size, and does so exactly when that is not the size of every frame of the schedule. |
| FrameRoundTrips.FramesHoldAll | src/frame/compress.rs:175-188 | The frames that a schedule produces hold everything that is written, in order. A finish with nothing written since the last one closes no frame; the very first closes an empty one. |
| FrameRoundTrips.CutsDoNotShow | src/frame/compress.rs:391-417 | One write and the same bytes in two writes give the same stream, whatever comes before and after, if the block size is definite or settles in the same way. |
| FrameRoundTrips.LaterFramesAsFresh | src/frame/compress.rs:238-259 | With the same block size, what a reused encoder adds after a finish is, byte for byte, what a fresh encoder writes for the same calls, if and only if the fresh one does not have to begin with an empty frame. |
| FrameBytes.TakenTwice | src/frame/compress.rs:399-414 | Accepting input in two parts leaves the same frame in progress, and writes the same blocks, as accepting it at once. |
| FrameBytes.RunGoesOn | src/frame/compress.rs:391-417 | More input behind the last flush of a frame goes on where the frame stands. |
| FrameBytes.LastFlushLost | src/frame/compress.rs:175-188 | A flush right before a finish leaves no trace. |
| FrameSizes.FrameInBlocks | src/frame/compress.rs:318-414 | A whole frame is its header, its blocks and its end. Its size is exact: each block takes the smaller of its data and its compressed form. All blocks are full but at most one for each flush and the finish. |
| FrameSizes.RunFrameIsSmall | src/frame/compress.rs:318-347 | A run of one byte, up to a block of it, takes a frame of at most a 255th of its length and 47 bytes. |
| FrameSizes.TakenInBlocks | src/frame/compress.rs:399-414 | What a write puts out is full blocks only. |
| FrameEncoders.VecCopyOverwriting | src/frame/compress.rs:484-490 | The buffer after the copy: the bytes before it, then the data, then what lay behind it. |
| FrameEncoders.FillKeepsWindow | src/frame/compress.rs:406-413 | Filling the room for a block touches neither the history in front of it nor the history kept behind it. |
| FrameEncoders.RewindKeepsWindow | src/frame/compress.rs:348-360 | Rewinding the buffer leaves as history the last 64 KiB of it, which are the end of the frame's content. |
| FrameEncoders.AdvanceKeepsWindow | src/frame/compress.rs:361-368 | Going on without a rewind, the history that is dropped is only what the last 64 KiB no longer need. |
| FrameEncoders.RepositionMoves | crates/encode/src/hashtable.rs:258-264 | After repositioning, every entry still in the history or the buffer keeps its distance from the stream offset, all older entries become position 0, and no entry runs ahead of the next block. |
| FrameEncoders.StreamBlockHolds | src/frame/compress.rs:297-316 | A block compressed through the shared table, against whatever history the encoder's buffer holds, is decoded to its data by a decoder whose own buffer was rewound at other moments; it keeps the end-of-block rules and leaves a table that fits the next block. |
| FrameEncoders.DictBlockHolds | src/frame/compress.rs:288-296 | A block compressed with the dictionary is decoded to its data where the dictionary is all the history: in independent blocks and in the first block of a linked frame. |
| FrameEncoders.Settled | src/frame/compress.rs:238-241 | A header is written with a definite block size; nothing else about the frame changes. |
| FrameEncoders.FrameEncoder.constructor | src/frame/compress.rs:118-161 | A new encoder is valid, has accepted and written nothing, and carries the dictionary and its id. |
| FrameEncoders.FrameEncoder.WriteFrameHeader | src/frame/compress.rs:238-245 | The header goes to the writer, for the block size settled by the first write. |
| FrameEncoders.FrameEncoder.ResetStream | src/frame/compress.rs:247-256 | Nothing of an earlier frame remains: no history, no stream offset, an empty table. |
| FrameEncoders.FrameEncoder.BeginFrame | src/frame/compress.rs:238-259 | The stream continues with a frame that a decoder enters with no history, and the encoder is as it is in the first frame, table included; what was accepted before is unchanged. |
| FrameEncoders.FrameEncoder.RepositionTable | src/frame/compress.rs:272-280 | For streams of any length, the positions of the next block fit 32 bits, the cast of the offset loses nothing, the table invariant survives, and entries move exactly with the origin. |
| FrameEncoders.FrameEncoder.CompressThroughTable | src/frame/compress.rs:297-316 | The block is the one the greedy search makes of the stream with this table, it decodes to the buffered input for the decoder that has read everything before it, and the table stays behind the next block. |
| FrameEncoders.FrameEncoder.CompressBlock | src/frame/compress.rs:282-316 | The same for whichever of the three compress paths the frame takes; the dictionary path leaves the shared table alone. |
| FrameEncoders.FrameEncoder.PrepareBlock | src/frame/compress.rs:261-330 | Repositioning, compressing and seeding together: the block holds the buffered input and the table is ready for what follows. |
| FrameEncoders.FrameEncoder.SeedFirstBlock | src/frame/compress.rs:325-330 | The table is seeded exactly in linked frames with a dictionary after their first block, and no stored position runs ahead of the next block. |
| FrameEncoders.FrameEncoder.PutBlock | src/frame/compress.rs:332-339 | Block header, data and optional checksum are appended to the writer. |
| FrameEncoders.FrameEncoder.SendBlock | src/frame/compress.rs:318-347 | The stream is still read back exactly, now with the block's data at its end. The shorter form is sent: the stream grows by 4 bytes, the smaller of data and compressed form, and 4 more with block checksums. |
| FrameBytes.SentIsShorter | src/frame/compress.rs:318-339 | The bytes sent are a header that says which form follows, and the shorter of the two forms; their number is exact. |
| FrameEncoders.FrameEncoder.AdvanceWindow | src/frame/compress.rs:345-383 | The history still is the end of the content, it does not overlap the room for the next block, the next byte keeps its stream position, and stored positions stay behind it. |
| FrameEncoders.FrameEncoder.WriteBlock | src/frame/compress.rs:261-387 | One block carries exactly the buffered input; the encoder invariant, with the ghost decoder in step, is kept. The bytes and the state behind the block depend on settings and state of the frame alone. |
| FrameEncoders.FrameEncoder.CopyIn | src/frame/compress.rs:408-412 | Input is appended to what is buffered and the history is left alone. |
| FrameEncoders.FrameEncoder.Fill | src/frame/compress.rs:406-413 | As much input is taken as the block still holds, at least one byte. |
| FrameEncoders.FrameEncoder.Accept | src/frame/compress.rs:399-414 | All input is accepted in order, across as many block boundaries as it crosses; a block is written when the next byte finds its room full. |
| FrameEncoders.FrameEncoder.Write | src/frame/compress.rs:391-417 | A write accepts all of its bytes and never fails, unless an earlier error has failed the encoder; then it changes nothing. |
| FrameEncoders.FrameEncoder.Flush | src/frame/compress.rs:419-430 | After a flush nothing is buffered, and nothing accepted is lost. |
| FrameEncoders.FrameEncoder.EndFrame | src/frame/compress.rs:205-227 | The frame is closed, or refused exactly when its declared content size differs from its content. |
| FrameEncoders.FrameEncoder.TryFinish | src/frame/compress.rs:175-188 | Finishing fails exactly when the open frame's declared content size is wrong, and then leaves the encoder failed; otherwise the stream is complete. |
| FrameEncoders.FrameEncoder.Lockstep | src/frame/compress.rs:348-383 | At every block boundary encoder and decoder each hold an end of the frame's content of at least min(length so far, 65536) bytes, and the encoder's kept history lies behind the room for the next block. |
| FrameEncoders.FrameEncoder.ReadsBack | src/frame/compress.rs:168-188 | What has been written at any moment is read back as all blocks so far, followed by an end of file inside an unfinished frame. |
| FrameLockstep.SlideKeepsTail | src/frame/decompress.rs:267-288 | However the decoder makes room for a block, it still holds the end of the content, at least 64 KiB of it. |
| FrameLockstep.WindowCovers | src/frame/decompress.rs:385-413 | What the decoder puts in front of a block agrees with the encoder's history as far back as a match can reach. |
| FrameLockstep.StepForward | src/frame/decompress.rs:267-381 | A decoder in step with the content is in step after the next block. |
| FrameLockstep.BlockRead | src/frame/compress.rs:332-339 | A written block, compressed or not, with or without checksum, is read as the data it holds. |
| FrameLockstep.EndRead | src/frame/compress.rs:205-227 | A written end mark closes the frame when the content size, if declared, is right; the content checksum matches. |
| FrameLockstep.HeaderRead | src/frame/decompress.rs:167-220 | A written frame header starts a frame with the same settings for a decoder that expects its dictionary id. |
| FrameLockstep.FrameStarted | src/frame/compress.rs:238-259 | Appending a header to a stream that is read back keeps it so, for every continuation. |
| FrameLockstep.BlockWritten | src/frame/compress.rs:318-347 | Appending a block to a stream that is read back adds exactly the block's data, for every continuation. |
| FrameLockstep.FrameEnded | src/frame/compress.rs:205-227 | Appending the end of the frame returns the reader to between two frames with nothing added. |
| FrameLockstep.FinishedReads | src/frame/compress.rs:168-188 | A finished stream decodes to everything written and no error. |
| FrameLockstep.FlushedReads | src/frame/compress.rs:419-430 | An unfinished stream decodes to everything flushed and then an end of file. |
| FrameFormat.OutputLimited | src/frame/decompress.rs:221-238 | Over all frames together, no stream makes a decoder produce more than its output limit. |
| FrameDecoders.FrameDecoder.WithinLimit | src/frame/decompress.rs:221-238 | At any moment, the bytes produced so far and all that the rest of the stream can add stay within the output limit. |
| FrameHistory.WindowIsHistory | src/frame/decompress.rs:267-288 | In front of every block, the moving two-part window agrees with the whole history - dictionary and content in linked frames, the dictionary otherwise - as far back as a match can reach, and reaches no further. |
| FrameHistory.DecodesAgainstHistory | src/frame/decompress.rs:385-413 | A block of any encoder decodes, and to the same bytes, exactly when it does so against all of its history. |
| FrameHistory.WindowNeverShows | src/frame/decompress.rs:260-433 | For every stream, whoever wrote it, the content is that of a decoder that keeps everything, and it ends in the same way; only the reason for which a block does not decode may differ. |
| FrameFormat.ReusedDecoder | src/frame/decompress.rs:195-239 | After producing some output, a decoder makes of the next frames exactly what a fresh decoder with the limit lowered by that output makes of them, errors included, with limit and count reported in full. |
| FrameDecoders.DecodeInto | src/frame/decompress.rs:385-413 | A block is decoded into the given range of the buffer and nowhere else. |
| FrameDecoders.SlideRewinds | src/frame/decompress.rs:268-275 | Rewinding the reused buffer is the rewinding of the two-part window. |
| FrameDecoders.SlideForgets | src/frame/decompress.rs:276-283 | Shortening the kept history is the forgetting of the two-part window. |
| FrameDecoders.StateKept | src/frame/decompress.rs:385-398 | Writing behind the prefix and in front of the kept history changes neither. |
| FrameDecoders.LimitedBlock | src/frame/decompress.rs:331-346 | A block that decodes within the declared remaining size decodes to the same bytes within the full block limit. |
| FrameDecoders.FrameDecoder.constructor | src/frame/decompress.rs:108-151 | A fresh decoder is about to hand out exactly what its stream decodes to. |
| FrameDecoders.FrameDecoder.SetReader | src/frame/decompress.rs:157-160 | After any history of finished or failed frames, with another reader, the decoder behaves as a fresh one does but for the output already counted against the limit. |
| FrameDecoders.FrameDecoder.TakeHeaderBytes | src/frame/decompress.rs:167-182 | The header bytes taken are those the first seven announce, and no more. |
| FrameDecoders.FrameDecoder.ReadFrameInfo | src/frame/decompress.rs:167-220 | A frame starts with no history and no content, or with the header's or dictionary's error; an empty stream is no error. |
| FrameDecoders.FrameDecoder.SlideWindow | src/frame/decompress.rs:267-288 | Room is made for a block in place; the window is the one the format prescribes and the kept history lies behind the room. |
| FrameDecoders.FrameDecoder.Grow | src/frame/decompress.rs:508-513 | The buffer grows when needed, never shrinks, and keeps its bytes. |
| FrameDecoders.FrameDecoder.DecompressBlock | src/frame/decompress.rs:385-413 | The block is decoded behind the prefix, with the kept history, the dictionary or nothing in front; prefix and history survive the wild copies and every failure. |
| FrameDecoders.FrameDecoder.DecompressWithRetry | src/frame/decompress.rs:331-346 | The attempt limited to the declared content, followed by a full one if it fails, has the outcome of one full decode. |
| FrameDecoders.FrameDecoder.CheckOutputLen | src/frame/decompress.rs:221-238 | The total after more output, or the limit error with a saturating count. |
| FrameDecoders.FrameDecoder.TakeData | src/frame/decompress.rs:302-329 | Block data and checksum are taken from the reader, or the error that fits; what is taken is the data, the right checksum of it if the frame has block checksums, and nothing else. |
| FrameDecoders.FrameDecoder.ReadUncompressedBlock | src/frame/decompress.rs:296-318 | A stored block is read as the format prescribes: content, errors in their order, position of the reader. |
| FrameDecoders.FrameDecoder.ReadCompressedBlock | src/frame/decompress.rs:319-351 | The same for a compressed block. |
| FrameDecoders.FrameDecoder.ReadEndMark | src/frame/decompress.rs:353-372 | The same for the end mark, content size and content checksum. |
| FrameDecoders.FrameDecoder.ReadBlock | src/frame/decompress.rs:260-381 | Reading the next block is one step of the format's state machine. |
| FrameDecoders.FrameDecoder.ReadMore | src/frame/decompress.rs:415-433 | Bytes to hand out are found if any are left, across empty blocks and frame boundaries; an error ends the frame and leaves nothing half read. |
| FrameDecoders.FrameDecoder.Read | src/frame/decompress.rs:436-450 | A read hands out the next bytes of the content, no more than asked for, and none only without room or at the end. |
| FrameDecoders.FrameDecoder.ReadToEnd | src/frame/decompress.rs:452-471 | All remaining content up to the end or the first error. |
| FrameAccept.AcceptedExactly | src/frame/decompress.rs:167-433 | The streams that are read without an error are exactly the written ones, byte for byte: headers, admissible blocks with their checksums, ends with content size and content checksum. What is read is the data they were written for. |
| FrameAccept.BlockAccepted | src/frame/decompress.rs:245-351 | Whatever is accepted as a block is a written one: its header, its data, and the right checksum. |
| FrameAccept.EndAccepted | src/frame/decompress.rs:353-372 | Whatever is accepted as the end of a frame is the written one, with the right checksum, behind content of the declared size. |
| FrameAccept.RefusedExactly | src/frame/decompress.rs:260-372 | A block, or the end of a frame, is refused with an error exactly when that error says what is wrong with it: the first of size, limit, missing bytes, checksum and decoding, in the order of the program. |
| FrameAccept.StartAccepted | src/frame/decompress.rs:167-220 | A frame is entered exactly behind a written header with definite settings and the expected dictionary id. |
| FrameAccept.StartRefusedExactly | src/frame/header.rs:265-352 | The start of a frame is refused with an error exactly when that error says what is wrong with its bytes, in the order of the program. |
| FrameAccept.IdAccepted | src/frame/decompress.rs:184-193 | A dictionary id is accepted exactly when it is the expected one, present or absent; otherwise the error says which. |
| FrameHeader.WriteHeader | src/frame/header.rs:216-263 | The header is written for every frame with a definite block size, and only into a buffer that holds it. |
| FrameHeader.ReadHeader | src/frame/header.rs:265-352 | The step-by-step parser reads what the header format prescribes, errors in their order. |
| FrameHeader.ReadWritten | src/frame/header.rs:216-352 | Reading a written header gives back every setting, whatever follows the header. |
| FrameHeader.WrittenRead | src/frame/header.rs:216-352 | Every header that is accepted is, byte for byte, the one that would be written for what it says. |
| FrameHeader.SizeRead | src/frame/header.rs:181-214 | The length announced by the first seven bytes is the length written. |
| FrameHeader.FlagsRead | src/frame/header.rs:216-240 | The flag byte tells each setting apart. |
| FrameHeader.FlagsComplete | src/frame/header.rs:281-310 | Version, reserved bit and flags determine the whole flag byte. |
| FrameHeader.FromLeOfLe | src/frame/header.rs:216-263 | Little-endian fields are read back. |
| FrameHeader.LeOfFromLe | src/frame/header.rs:265-352 | Every string of bytes is the little-endian form of the number it is read as. |
| FrameHeader.BlockInfoRoundTrip | src/frame/header.rs:362-391 | Block headers round-trip, so compressed block, stored block and end mark are never mistaken for each other. |
| FrameHeader.BlockInfoWritten | src/frame/header.rs:362-391 | Every four bytes are the header of exactly one block. |
| FrameHeader.FromBufLength | src/frame/header.rs:55-65 | The size chosen is the smallest of 64 KiB, 256 KiB and 4 MiB that holds the first write, or 4 MiB. |
| FrameHeader.SizeOfCode | src/frame/header.rs:43-75 | Each block size is four times the one before it, from 64 KiB at code 4 on. |
| FrameHeader.ChecksumByte | src/frame/header.rs:253-257 | The header checksum is the second byte of the little-endian hash. |
| FrameHeader.MagicRead | src/frame/header.rs:265-280 | Frames start with 04 22 4D 18, skippable ones with 50 to 5F and 2A 4D 18. |
| FrameHeader.KnownHeader | src/frame/header.rs:216-263 | A header byte by byte. |
| BlockApi.RoundTrip | crates/encode/src/compress.rs:670-701 | A block compressed on its own, with or without a dictionary, is decompressed to exactly the input with the same untrimmed dictionary, appended to any buffer, for every limit not below its size. |
| BlockApi.Compress | crates/encode/src/compress.rs:757-768 | Compression into a buffer of the promised size always succeeds. |
| BlockApi.CompressInto | crates/encode/src/compress.rs:737-753 | Compression fails exactly when the output buffer is smaller than promised, and then leaves it alone; otherwise the block encodes the input. |
| BlockApi.DecompressAppend | crates/decode/src/decompress.rs:529-548 | Decoded bytes are appended; after an error the output is as before. Earlier output is no history. |
| BlockCompress.RunsEncodes | crates/decode/src/decompress.rs:225-488 | A well-formed block that produces the content behind the encoder's history encodes it for every history that covers that one, in every buffer that holds it. |
| BlockCompress.EncodedDecodes | crates/encode/src/compress.rs:193-436 | What the block encoder produces for part of a stream decodes to that part, behind every window that covers the encoder's. |
| BlockCompress.OneShotDecodes | crates/encode/src/compress.rs:670-714 | A block compressed with a table seeded from the trimmed dictionary encodes the input for the untrimmed one. |
| BlockCompress.CompressIntoSinkWithDict | crates/encode/src/compress.rs:670-701 | Short dictionaries are ignored, long ones cut to their last 64 KiB, and 16-bit or 32-bit tables used by size: the block encodes the input in all cases. |
| BlockCompress.ShortDictDecodes | crates/encode/src/compress.rs:675-677 | A dictionary below four bytes changes neither the block nor what it decodes to. |
| BlockCompress.CompressOnce | crates/encode/src/compress.rs:679-700 | The same for one table width; it fails exactly when the output is smaller than promised. |
| BlockCompress.InitDict | crates/encode/src/compress.rs:704-714 | The dictionary is cut to its last 64 KiB and every third position of it stored: its slot holds it, or a later one. |
| BlockCompress.SeedTable | crates/encode/src/compress.rs:471-478 | Every third position of the bytes is stored in the table: its slot holds it, or a later one that took the slot. |
| BlockCompress.SeededBelow | crates/encode/src/compress.rs:471-478 | Seeding stores no position that runs ahead of the bytes it seeds from. |
| BlockCompress.SeededHolds | crates/encode/src/compress.rs:471-478 | A slot in which stored positions lie holds the last of them. |
| BlockCompress.SeededFrom | crates/encode/src/compress.rs:471-478 | All other slots stay as they are. |
| DictionaryUse.OneShotMatched | crates/encode/src/compress.rs:670-714 | Input that repeats the dictionary from a stored position starts with a match into it, for as long as they agree. |
| DictionaryUse.DictBlockMatched | crates/encode/src/compress.rs:932-985 | So it does with a reused compressor, with the dictionary table alone, both tables, or a table of its own. |
| DictionaryUse.FrameBlockMatched | src/frame/compress.rs:282-316 | And in a frame, where the dictionary is all the history: in independent blocks and in the first block of a linked frame. |
| DictionaryUse.OneTable | crates/encode/src/compress.rs:679-700 | Which table a call takes depends on the sizes of dictionary and input; the other has no part in the block. |
| DictionaryUse.OnlyTrimmedPart | crates/encode/src/compress.rs:704-708 | What lies in front of the part in reach does not show. |
| BlockCompress.TrimCovers | crates/encode/src/compress.rs:704-708 | Matches reach no further into a dictionary than its trimmed part. |
| BlockCompress.TrimKeepsReach | crates/encode/src/compress.rs:704-708 | The trimmed part has all that matches can reach. |
| EncoderSpec.ProbeIsGood | crates/encode/src/compress.rs:317-373 | Every candidate that passes is a real match at a distance in 1..=65535 that lies in the history, also where no distance is tested, and the cast of the distance to 16 bits loses nothing. |
| EncoderSpec.RematchIsGood | crates/encode/src/compress.rs:411-430 | The same for the candidate tried right behind a match. |
| EncoderSpec.ProbeExactly | crates/encode/src/compress.rs:317-373 | And every real match passes: a candidate passes exactly when four bytes agree at a distance in 1..=65535, in the input or the dictionary, in each mode of the table. |
| EncoderSpec.RematchExactly | crates/encode/src/compress.rs:411-430 | Behind a match a candidate passes exactly when it is a real match, where one is tried. |
| GreedySearch.SearchTrail | crates/encode/src/compress.rs:287-378 | A search ends at the first position it looks up whose slot names a real match; all positions before it named none, each was stored, and without a match it goes on until less than a match needs is left. |
| GreedySearch.LastStored | crates/encode/src/compress.rs:226-232 | A slot names the last position that was stored in it. |
| GreedySearch.RepeatsAreFound | crates/encode/src/compress.rs:287-378 | A search does not pass over eight bytes that repeat a position it has looked up, unless a later one took its slot. |
| GreedySearch.PeriodFound | crates/encode/src/compress.rs:287-378 | An input that repeats its first eight bytes after at most eight is matched by then. |
| GreedySearch.NamedMatchTaken | crates/encode/src/compress.rs:193-300 | Where the slot of the first position names a real match, the block starts with it, for as long as the bytes agree. |
| GreedySearch.RematchIsShortcut | crates/encode/src/compress.rs:396-434 | Trying the position behind a match at once changes neither block nor table: encoding goes on as if the search had started there, with the position two bytes in front of the end stored. |
| GreedySearch.RunOfBytes | crates/encode/src/compress.rs:193-436 | A run of one byte becomes one literal, one match and six literals. |
| EncoderSpec.RecordFits | crates/encode/src/compress.rs:226-232 | Storing a position that has been passed keeps the table behind the cursor. |
| EncoderSpec.SearchIsGood | crates/encode/src/compress.rs:287-378 | The table stays behind the cursor throughout a search, which ends at the end of the input or at a real match. |
| EncoderSpec.EncodeIsCorrect | crates/encode/src/compress.rs:287-409 | From any cursor and any table behind it, encoding is lossless, keeps the end-of-block rules and keeps the table behind the input. |
| EncoderSpec.ExtendIsCorrect | crates/encode/src/compress.rs:380-434 | The same from a found match, with backtracking, the insert behind the match and immediate rematches. |
| EncoderSpec.EncodeFromIsLossless | crates/encode/src/compress.rs:193-436 | Losslessness whatever the table holds, as long as no entry runs ahead: the block is well formed, runs to exactly the input behind the history, ends in literals, has at least 6 of them behind a match, and starts no match less than 12 bytes before the end. |
| EncoderSpec.ForeignTable | crates/encode/src/lib.rs:44-60 | The condition on the table is tight: with one entry a single position ahead, as a table of another stream may hold, the block starts with a match at distance zero and is not well formed. |
| EncoderSpec.ReadonlyKeepsTable | crates/encode/src/compress.rs:226-232 | The read-only encoder leaves the dictionary table as it is. |
| SearchCost.MissesAdvance | crates/encode/src/compress.rs:287-297 | k consecutive misses advance the cursor by at least k(k+1)/16 bytes. |
| SearchCost.ProbesBounded | crates/encode/src/compress.rs:287-378 | The lookups of a search over n bytes without a match number at most 4*sqrt(n); `Compress.FindMatch` makes exactly the lookups that are counted. |
| SearchCost.DualProbesBounded | crates/encode/src/compress.rs:525-586 | The same for the search through two tables and the loop of `DictCompressors.FindDual`. |
| Compress.CompressInternal | crates/encode/src/compress.rs:193-436 | In place, the block and the table of the stepwise encoder are computed, exactly; it fails exactly when the output is smaller than promised, and then leaves output and table alone. What that block finds is stated by the rows on `GreedySearch`. |
| Compress.CompressLoop | crates/encode/src/compress.rs:287-436 | The main loop writes the rest of that block. |
| Compress.FindMatch | crates/encode/src/compress.rs:287-378 | The search loop, which carries the next eight bytes ahead, finds the match that the stepwise search finds and leaves its table. It looks up at most 4*sqrt(n) candidates in the n bytes it passes. |
| Compress.TestCandidate | crates/encode/src/compress.rs:317-373 | A candidate passes exactly when it is a real match at an encodable distance, through wrapping subtractions and for every combination of the const generics. |
| Compress.StretchMatch | crates/encode/src/compress.rs:380-400 | The match found is stretched backwards and forwards to the span it has. |
| Compress.BacktrackMatch | crates/encode/src/compress.rs:175-186 | Backtracking goes as far as bytes agree and literals remain. |
| Compress.EmitMatches | crates/encode/src/compress.rs:380-434 | The chain of a match and its immediate rematches. |
| Compress.TryRematch | crates/encode/src/compress.rs:411-430 | The position behind a match is tried, and stored only if it matches. |
| MatchFinder.SpanIsGood | crates/encode/src/compress.rs:175-186 | The whole stretched span agrees with its source, is at least four bytes long and stays clear of the end. |
| MatchFinder.SpanRuns | crates/encode/src/compress.rs:380-409 | Copying the span from its distance reproduces the input, also where the copy overlaps itself. |
| MatchFinder.SpanIsLongest | crates/encode/src/compress.rs:175-191 | The span of a match cannot be made longer at either end. |
| MatchFinder.BacktrackGoesFar | crates/encode/src/compress.rs:175-191 | Backtracking stops only at emitted bytes, at the front of the source, or where the bytes differ. |
| MatchFinder.CommonPrefixIs | crates/encode/src/hashtable.rs:11-34 | The common prefix agrees to its end and cannot be extended. |
| Emit.BlockFits | crates/encode/src/compress.rs:722-729 | A buffer of the promised size holds every block for an input of that length. |
| Emit.PromisedSize | crates/encode/src/compress.rs:722-733 | The promised size is a tenth more than the input, and 20 bytes. |
| BlockFormat.PrintBound | crates/encode/src/compress.rs:631-667 | A block takes at most its content plus content/255 plus 2 bytes. |
| BlockFormat.SequenceBound | crates/encode/src/compress.rs:631-667 | A sequence takes at most the bytes it stands for plus its literals/255. |
| BlockFormat.LastBound | crates/encode/src/compress.rs:156-163 | The final literals take at most 2 more bytes plus their length/255. |
| Emit.EmitSequence | crates/encode/src/compress.rs:631-667 | Literals, distance and length are written in the block format, by the fast wide store or field by field. |
| Emit.EmitShort | crates/encode/src/compress.rs:639-652 | The fast form writes the same bytes as the field-by-field form, and none behind its 19 bytes. |
| Emit.PutInteger | crates/encode/src/compress.rs:145-151 | Length extensions are written in bytes of 255 and a rest. |
| Emit.HandleLastLiterals | crates/encode/src/compress.rs:156-163 | The closing literal run is written whole. |
| BlockFormat.PrintParse | crates/encode/src/compress.rs:631-667 | Printing a block loses nothing: every well-formed block is parsed back exactly. |
| BlockFormat.KnownBlock | crates/encode/src/compress.rs:87-165 | A block byte by byte. |
| BlockFormat.RunCovered | crates/decode/src/decompress.rs:409-487 | A block produces the same bytes behind any two windows that agree in their last 65535 bytes. |
| BlockFormat.CopyUnique | crates/decode/src/primitives.rs:86-170 | The overlapping copy is the only continuation in which every byte repeats the one a distance earlier. |
| BlockFormat.RunLength | crates/decode/src/decompress.rs:409-487 | A block runs exactly when its matches stay inside the window, and then adds its size. |
| ReferenceDecoder.DecodeMeaning | crates/decode/src/decompress.rs:409-487 | The byte-by-byte reference decoder succeeds exactly on the bytes that parse as a block, whose matches stay in the window and whose content fits the buffer, and produces what the block runs to. |
| ReferenceDecoder.BoundedLengths | crates/decode/src/decompress.rs:61-119 | A bounded length reader returns the true value exactly when it is within the bound, and otherwise something above the bound. |
| ReferenceDecoder.CapacityIndependence | crates/decode/src/decompress.rs:61-119 | A block that decodes at some capacity decodes to the same bytes at every capacity that holds them, and fails at every smaller one. |
| ReferenceDecoder.LimitedThenFull | src/frame/decompress.rs:331-346 | What decodes within a lower limit decodes the same within a higher one. |
| ReferenceDecoder.DecodePrinted | crates/decode/src/decompress.rs:225-488 | A printed block decodes to its content behind every window that covers the one it was made for. |
| Decompress.DecompressBody | crates/decode/src/decompress.rs:225-488 | Result, bytes, final position and error are those of the reference decoder; nothing in front of the start or behind the capacity changes. Every error names the first token that does not decode and what is wrong with it: the field that is cut off, zero or out of reach, or the room that is needed. |
| DecodeErrors.ErrorsExplained | crates/decode/src/decompress.rs:408-466 | Every failure is explained by the first token that does not decode, in terms of its own fields. |
| DecodeErrors.FailsExactly | crates/decode/src/decompress.rs:408-466 | With room for all that its fields can announce, a block that fails does so with an error exactly when its bytes explain that error. |
| DecodeErrors.TooSmallFields | crates/decode/src/decompress.rs:420-424 | A full buffer is reported with its capacity as the actual size and with a larger size as the expected one. |
| DecodeErrors.TooSmallBuffer | crates/decode/src/decompress.rs:420-450 | A block that decodes in one buffer fails in another exactly if that one does not hold it, only for want of room, and is never said to need more than it decodes to. |
| DecodeErrors.LengthCut | crates/decode/src/decompress.rs:61-116 | A length field misses a byte exactly when it goes on to the end of the block without having exceeded its bound. |
| Decompress.FastLoop | crates/decode/src/decompress.rs:255-407 | The fast loop decodes tokens as the reference decoder does, until it leaves one unconsumed or the block ends. |
| Decompress.FastToken | crates/decode/src/decompress.rs:255-407 | One token of the fast loop is consumed as the reference decoder consumes it, or not at all. |
| Decompress.FastShortRun | crates/decode/src/decompress.rs:346-406 | Short literals by one wide store, then the match cases. |
| Decompress.FastDictMatch | crates/decode/src/decompress.rs:369-385 | A match that lies in the dictionary with room to spare is taken by one wide store. |
| Decompress.FastLongMatch | crates/decode/src/decompress.rs:388-405 | A match with one extension byte by wide steps. |
| Decompress.FastLongRun | crates/decode/src/decompress.rs:266-345 | Literals with one extension byte, and the closing run. |
| Decompress.GeneralToken | crates/decode/src/decompress.rs:409-487 | One token of the checked path has exactly the reference decoder's outcome, error fields included. |
| Decompress.CopyAnyMatch | crates/decode/src/decompress.rs:451-485 | A match that starts in the dictionary and goes on at the start of the output is the copy across both. |
| Decompress.CopyFromDict | crates/decode/src/decompress.rs:509-524 | The part of a match that lies in the dictionary, or the bounds error. |
| Decompress.CopyMatch | crates/decode/src/decompress.rs:463-485 | Whichever primitive the distance and headroom select, the result is the overlapping copy. |
| Readers.ReadIntegerBounded | crates/decode/src/decompress.rs:61-84 | The loop reads the bounded length, or misses a byte. |
| Readers.ReadLiteralLength | crates/decode/src/decompress.rs:87-102 | Literal length of a token, from its nibble and extension. |
| Readers.ReadMatchLength | crates/decode/src/decompress.rs:105-120 | Match length of a token, from its nibble and extension. |
| Readers.ReadOffset | crates/decode/src/decompress.rs:123-135 | A two-byte distance, never zero. |
| Primitives.WildMatchCopy18 | crates/decode/src/primitives.rs:86-101 | 18 bytes in three chunks: for distances of at least 8, the overlapping copy, writing no further than its slack. |
| Primitives.WildCopyMatchLong | crates/decode/src/primitives.rs:110-135 | 16-byte steps: for distances of at least 16, the overlapping copy, writing no further than its slack. |
| Primitives.WildCopyMatchShortOffset | crates/decode/src/primitives.rs:143-170 | Distances 2 to 7 by storing a spread pattern at a stride that is a whole number of periods: the overlapping copy. |
| Primitives.CopyWithinOverlapping | crates/decode/src/primitives.rs:191-213 | Seeding one period and doubling it: the overlapping copy, and nothing behind it is touched. |
| Primitives.WildCopyMatch | crates/decode/src/primitives.rs:258-271 | Chunked steps of 8, 16 or 32 bytes: the overlapping copy for distances of at least the step. |
| Primitives.CopyWithinNonoverlap | crates/decode/src/primitives.rs:298-303 | One move: the copy where source and target do not overlap. |
| Primitives.CopyLiterals32 | crates/decode/src/primitives.rs:219-237 | Literals by 32-byte chunks, writing no further than the slack. |
| Primitives.WildCopyLiterals | crates/decode/src/primitives.rs:242-251 | The same, advancing the position. |
| Primitives.CopyFromSrc | crates/decode/src/primitives.rs:174-184 | Literals exactly. |
| Primitives.StrideContinues | crates/decode/src/primitives.rs:143-170 | The pattern continues at its own stride, for every distance from 2 to 7. |
| Primitives.PatternStored | crates/decode/src/primitives.rs:143-170 | Storing the pattern where a period ends continues the match by a stride. |
| Primitives.DoublingStored | crates/decode/src/primitives.rs:191-213 | Copying the bytes copied so far behind themselves continues the match. |
| Sink.SliceSink.ExtendFromWithinOverlapping | crates/core/src/sink.rs:91-112 | The clamped doubling copy, and the fill for distance 1, are the overlapping copy, and nothing behind it is touched. |
| Sink.SliceSink.ExtendFromSliceWild | crates/core/src/sink.rs:83-88 | All bytes are written and only the requested ones kept; the rest of the slice stays as it was. |
| Sink.SliceSink.ExtendFromSlice | crates/core/src/sink.rs:78-80 | The bytes are appended, and nothing behind them is touched. |
| Sink.SliceSink.Push | crates/core/src/sink.rs:62-65 | One byte is appended, and nothing behind it is touched. |
| Sink.SliceSink.WriteInteger | crates/encode/src/compress.rs:114-120 | A length extension is appended in the form of the block format. |
| FastCopy.SliceCopy | crates/core/src/fastcpy.rs:9-58 | Two overlapping fixed-size writes per size class copy exactly the slice. |
| Validate.ValidateBlock | crates/decode/src/validate.rs:37-91 | The loop computes the validator's verdict, error fields included. |
| Validate.CheckMeaning | crates/decode/src/validate.rs:15-91 | The validator judges a block by its parse alone: accepted exactly when matches stay inside the dictionary and the bytes before them and the size is the expected one. |
| Validate.ValidatorAgreesWithDecoder | crates/decode/src/validate.rs:15-91 | The validator accepts a block and a length exactly when decoding it into a buffer of that length succeeds and fills it, in spite of different extension limits and order of checks. |
| Validate.ValidatorReportsSize | crates/decode/src/validate.rs:85-91 | For a block that decodes, the validator's error tells how its size compares with the expected one. |
| Validate.ObjectionsExplained | crates/decode/src/validate.rs:20-91 | Every verdict against a block names the first token that is wrong and what is wrong with it: the field, or the size that its fields lead to. |
| HashTables.CountSameBytes | crates/encode/src/hashtable.rs:11-34 | The cursor advances by exactly the longest common prefix, through xor and trailing zeros, the 8-byte loop and the 4/2/1 tail. |
| HashTables.CountSameBytesLong | crates/encode/src/hashtable.rs:40-74 | The same for the long loop and its tail. |
| HashTables.LowestDifference | crates/encode/src/hashtable.rs:18-34 | Trailing zeros of the xor of two little-endian words, divided by 8, count their equal first bytes. |
| HashTables.HashTable.PutAt | crates/encode/src/hashtable.rs:272-274 | A stored position is truncated to the width of the table and nothing else changes. |
| HashTables.HashTable.GetAt | crates/encode/src/hashtable.rs:268-270 | The stored position, never above 32 bits. |
| HashTables.HashTable.Clear | crates/encode/src/hashtable.rs:254-256 | Every entry becomes 0. |
| HashTables.HashTable.Reposition | crates/encode/src/hashtable.rs:258-264 | The offset is subtracted from every entry, stopping at zero. |
| PlainCompressors.PlainCompressor.PreparePlainTable | crates/encode/src/compress.rs:1029-1051 | After any calls, every leftover entry lies below the offset chosen for the next one, or the table has been cleared. |
| PlainCompressors.PlainCompressor.CompressInto | crates/encode/src/compress.rs:989-1026 | A reused compressor's block encodes its input with no history: nothing of earlier messages is needed to decode it. |
| PlainCompressors.CompressEach | crates/encode/src/compress.rs:989-1051 | Across any sequence of calls on one compressor, every block decodes on its own. |
| PlainReuse.LaterOffsetsAgree | crates/encode/src/compress.rs:989-1051 | At every later offset, and from every table of earlier calls, the block is the same: what is left of earlier calls never shows but in the offset not being 0. |
| PlainReuse.FreshWitness | crates/encode/src/compress.rs:256-262 | At offset 0 an empty slot reads as position 0: five zeros and then ones are matched from the second byte on, with every hash and table size. |
| PlainReuse.LaterWitness | crates/encode/src/compress.rs:289-378 | At any later offset they are not, whatever earlier calls left in the table, with every hash that puts the first two windows into different slots. |
| PlainReuse.ReuseIsInvisible | crates/encode/src/compress.rs:989-1051 | With every hash and table size: a call that starts from offset 0, or on fewer than 13 bytes, writes what a fresh compressor writes. |
| PlainReuse.ReuseIsVisible | crates/encode/src/compress.rs:989-1051 | With every such hash and table size: a call on len bytes writes what a fresh compressor writes, for all inputs and all tables that earlier calls may leave, if and only if it starts from offset 0 or len is below 13. |
| PlainReuse.HashInTable | crates/encode/src/hashtable.rs:136-140 | The program's hash of a window is a slot of the table: the shift leaves as many bits as the table has. |
| PlainReuse.EpochGoesOn | crates/encode/src/compress.rs:1029-1051 | Positions go on from the last call for inputs up to 1024 bytes while 32 bits hold them and a window behind them; otherwise they start over. |
| PlainReuse.ProgramSeparates | crates/encode/src/hashtable.rs:136-170 | The program's hash puts the first two windows of the witness into different slots, at every table size the program permits. |
| PlainReuse.ProgramReuse | crates/encode/src/compress.rs:989-1051 | With the program's hash, at every table size it permits, from 256 entries on: a call writes what a fresh compressor writes exactly when its input is below 13 or above 1024 bytes, it is the first, or positions would outgrow 32 bits. |
| PlainReuse.CompressAfter | crates/encode/src/compress.rs:814-821 | The bytes written after any earlier calls, failed ones included, are the block at the offset those calls lead to; it decodes on its own. |
| PlainReuse.HistoriesAgree | crates/encode/src/compress.rs:989-1051 | Two compressors, whatever they have been used for, write the same bytes if both are at offset 0, as a fresh one is, or both at later ones, and on inputs too short for a match. |
| PlainReuse.HistoriesDiffer | crates/encode/src/compress.rs:989-1051 | With every such hash: after any earlier calls that lead to a later offset, and for every length from 13 on, there is an input that is written differently from what a fresh compressor writes. |
| DictEncoderSpec.DualSearchIsGood | crates/encode/src/compress.rs:525-586 | The search through two tables finds only real matches, and its positions stay behind the cursor. |
| DictEncoderSpec.DualProbeExactly | crates/encode/src/compress.rs:525-586 | Of the two candidates exactly the real ones pass, the one in the input first. |
| GreedySearch.DualSearchTrail | crates/encode/src/compress.rs:525-586 | The search through both tables ends at the first position whose slots name a real match, and notes every position it looks up. |
| GreedySearch.DualStarts | crates/encode/src/compress.rs:496-524 | The search through both tables begins at the second byte, with the first position noted. |
| GreedySearch.DualGoesOn | crates/encode/src/compress.rs:588-621 | Behind a match the position two bytes in front of its end is noted, nothing else. |
| DictEncoderSpec.DualIsLossless | crates/encode/src/compress.rs:482-621 | The dual-table encoder is lossless and keeps the end-of-block rules. |
| EncoderSpec.StaleView | crates/encode/src/compress.rs:932-985 | Seen from a new epoch, a table of older entries is an empty one. |
| DictCompressors.FindDual | crates/encode/src/compress.rs:525-586 | The loop over both tables, positions relative to the epoch, is the stepwise search on empty slots, with as many lookups, at most 4*sqrt(n). |
| DictCompressors.CompressWithDictTable | crates/encode/src/compress.rs:482-621 | The in-place dual-table encoder writes exactly the block of its stepwise form. |
| DictCompressors.DictBlockDecodes | crates/encode/src/compress.rs:932-985 | The block for an input encodes it for every dictionary that ends in the trimmed one. |
| DictCompressors.ReuseIsInvisible | crates/encode/src/compress.rs:932-985 | After any sequence of earlier calls, failed ones included, a reused compressor emits byte for byte what a fresh one emits, and the block decodes with the dictionary as it was given. |
| DictCompressors.DictCompressor.constructor | crates/encode/src/compress.rs:880-899 | Short dictionaries are ignored, long ones trimmed, and the pristine table seeded. |
| DictCompressors.DictCompressor.CompressInto | crates/encode/src/compress.rs:932-985 | After any sequence of calls, what is written depends on dictionary, table size, hash and input alone: byte for byte what a fresh compressor writes. It decodes with the untrimmed dictionary. |

## Left out

- Emit.MaxOutputSize: does not model the product `input_len * 110` exceeding 64 bits, because no slice is that long.
- Readers.ReadIntegerBounded: bounds above `isize::MAX` are excluded, so the overflow of the checked additions, which needs 2^55 bytes of input, is not modelled; the same bound stands on Validate.ValidateBlock.
- FrameEncoders.FrameEncoder.SendBlock: counts the content of a frame without bound; the program counts it in 64 bits, which wrap only after 2^64 bytes.
- FrameEncoders.FrameEncoder.CompressThroughTable: the reused output buffer is modelled as a new one of the required size; only its written part is ever read.
- FrameDecoders.FrameDecoder.ReadUncompressedBlock: reads the data before storing it in the buffer, so the garbage that a failed read or checksum leaves behind the prefix is not modelled.
- FrameDecoders.FrameDecoder.TakeExact: where an error leaves the reader is not promised.
- FrameDecoders.FrameDecoder.ReadFrameInfo: capacity reservations and the content reserve of `read_to_end` are left out; they do not affect what is decoded.
- Errors of the underlying reader and writer, interrupted reads, and `AutoFinishEncoder`.
- The AVX copy path, 32-bit targets and big-endian hashing, which duplicate the logic with other guards.
- XxHash32, and the hash of big-endian and 32-bit targets. All results but those of `PlainReuse` on the program's hash hold for any hash and any table size.
- `DictTrainer`: the round trip holds for any dictionary.
- Owning wrappers, `Debug` and `Display`, command line, language bindings, benches and fuzz targets.
- Contents of skippable frames: they are reported as an error, as the program does.
