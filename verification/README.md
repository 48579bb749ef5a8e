# Verified model of the Dragonfly client's piece engine

Dragonfly splits a task's content into pieces. Many downloads write pieces of
one file at the same time with positional writes, hash what they write, record
each piece in a metadata store, and serve byte ranges of finished pieces to
other peers. This project models that engine in Dafny and proves what it keeps:

- **Piece writers.** Three writers (reader, chunk stream, registered receive
  windows) overlap receiving and hashing with a background positional write that
  the kernel may accept in part, interrupt or refuse; the first two may be
  dropped at any await by their caller's timeout. All three refine one meaning,
  `PieceWriters.PieceWritten`: success writes exactly the expected bytes from the
  offset on and reports their CRC-32; failure writes a prefix of them; nothing
  else is written. The hash is defined as the hasher computes it, bit by bit, and
  proved to be the remainder of the polynomial division that defines CRC-32:
  `Crc32Meaning.HashIsCrc`.
- **Range reader.** A two-state reader with short reads, a reused buffer, an
  owned-chunk interface and a hand-off delivers exactly its range.
- **Round trip.** Pieces of any tiling, written through many descriptors of one
  file with attempts that fail, are retried and leave writes running, read back
  as the requested bytes, exactly under a stated condition.
- **Download claim.** Tasks race to download a piece; the losers wait on the
  winner's notifier; the metadata record is the truth. No task is ever stuck:
  `ClaimProgress.NoneStuck`.
- **Metadata.** Upload accounting in memory against counts in the store, and
  the flat key space of piece records.
- **Rendezvous.** The wire codec, byte for byte, its envelope framing, and the
  receive windows.
- **Hub URLs.** The parsers and printers of the OpenCSG and Hugging Face backends.

Check everything with `dafny verify dfyconfig.toml`.

## How the system is modelled

- **Kernel.** `PieceFile.Device` is one descriptor: the log of positional writes
  accepted through it and a script of outcomes (a byte count, EINTR, a fault)
  that the next calls receive. Theorems range over every script. An exhausted
  script accepts everything, so every run ends.
- **The shared file.** A descriptor has no bytes, so nothing a writer does can
  depend on them, and its contract holds whatever happens to the file meanwhile.
  `SharedFile.Kernel` puts any number of descriptors on one file and serves any
  system calls; each is one step of its descriptor's log
  (`SharedFile.KernelInterleaves`). A hole reads as zeros.
- **Background writes.** A spawned write is a `BackgroundWrite.Job` that reads
  its staging call by call and may take any number of calls between two actions
  of the receiving task. The two workers of a receive window are interleaved
  call by call and part by part.
- **Attempts.** Each call of a writer has its own log, up to any moment of a write
  it left running. Calls at one piece may follow each other, run at the same time
  or come after a success; the theorems look at the moment the successful call is
  about to write and at what the others have still to write.
- **Readers, streams, windows.** `Source`, `ChunkStream` and `Arrival` stand for
  what the network delivers, including failures, timeouts and worker panics.
  Read sizes are nondeterministic.
- **Claim protocol.** One piece, any number of tasks, one step for each access
  to the store or to the notifier table; recording a finished piece is a read
  step and a write step. A metadata call that reads and then deletes is one step
  or, with `Split`, two. Timers and store errors are choices of the environment.
- **Clocks** are `now` parameters. Sizes are unbounded naturals; 32-bit and
  64-bit limits appear where the code depends on them (`U32_LIMIT`, `U64_MAX`).
- **URLs** are the text after the scheme, made of characters the URL library
  leaves unchanged.

## Where the code and its own words disagree

The model follows the code. Each item has a concrete witness and an exact
condition.

- **No piece is downloaded twice at once**, say
  `dragonfly-client-storage/src/lib.rs:766-768` and
  `dragonfly-client-storage/src/piece_notifier.rs:50-53`. A waiter that times out
  removes the notifier of a downloader still at work, and the piece can be
  claimed again: `ClaimWitnesses.TwoDownloadersReachable`. When the evicted
  downloader ends, it removes the notifier of the one that took over, and a third
  task can claim: `ClaimWitnesses.ThirdDownloaderReachable`. Two tasks never
  download at once if and only if no download is started while another is at
  work (`ClaimRuns.NeverBothExactly`), and every such start comes after a claim
  won between a waiter's timeout and the release of the holder it evicted
  (`ClaimRuns.StartAfterReclaim`). Such a claim alone need not lead to a second
  download: `ClaimWitnesses.HarmlessReclaim`. For holding the claim it is exact:
  `ClaimRuns.NeverTwoExactly`; how many hold it is a conservation law:
  `ClaimRuns.HoldersConserved`.
- **No failed download and no waiter erases a finished piece**, say
  `dragonfly-client-storage/src/metadata.rs:1550-1551` and
  `dragonfly-client-storage/src/metadata.rs:1563-1564`. The read and the delete
  are two store accesses, and so are a new owner's read and its started record:
  `ClaimWitnesses.PurgeErasesReachable`, `ClaimWitnesses.FailureErasesReachable`,
  `ClaimWitnesses.RestartErasesReachable`. A run never loses a finished record if
  and only if none is deleted explicitly and no task writes on the strength of a
  read that a commit has overtaken: `ClaimRuns.NeverLosesExactly`.
- **`read_chunk` with a buffered read in flight** repeats a byte and skips
  another: `RangeReads.InFlightDuplicates`. The next completed fill goes to the
  wrong place if and only if the chunk was not empty and the read in flight does
  not fail: `RangeReads.ReadChunkInFlight`.
- **A failed buffered fill, then owned chunks to the end of the range**, makes
  the next fill panic: `RangeReads.FailedFillPanics`, exact in `RangeReads.FillBufKeeps`.
- **A writer whose input fails or whose caller gives up** (the timeouts of
  `dragonfly-client-storage/src/lib.rs:819-826` and 877-884) returns while its
  last write may still run, and that write can land on the retry's piece:
  `LateWrites.LateWriteHappens`, `Attempts.LateWriteReachable`. From the moment a
  successful call is about to write, its piece stands under every schedule if and
  only if the bytes other calls at it have still to write are those of the
  content: `RoundTrip.WrittenStandsExactly`.
- **A Hugging Face model** whose owner is empty, `models`, `datasets` or `spaces`
  is accepted behind `models/` but its printed URL parses differently:
  `HubUrls.TypeWords`, exact in `HubUrls.PrintThenParse`.
- **A request that starts past the content** but inside the last nominal piece is
  answered with a piece it does not touch: `InterestedPieces.PastTheEnd`, exact
  in `InterestedPieces.AnsweredExactly`.
- **In-memory and stored upload counts** differ by the uploads counted before the
  task was recorded: `Uploads.EarlyUploadShows`, exact in
  `Uploads.SchemesAgreeExactly`.
- **A failed task is asked for again at its source before it is reused**, says
  `dragonfly-client-storage/src/metadata.rs:630`. Preparing it clears the failure
  and keeps the old lengths, so a second preparation reuses it whether or not the
  retry got that far: `Uploads.SecondPrepareReuses`, exact in
  `Uploads.ReusedExactly`.

## Model

| member | source | states |
|---|---|---|
| `RoundTrip.WrittenReadsBack` | dragonfly-client-storage/src/content_linux.rs:311-473 | End to end, over every run of the kernel: any number of writers issue any system calls through their descriptors of one file; if a call reports its piece written and what the other calls at the piece write after some moment before its first write agrees with the content, then a reader over the piece, whole or for any overlapping request, each of whose calls sees the file at any moment after that call returned, has once drained delivered exactly the original bytes of the intersection |
| `RoundTrip.WrittenStandsExactly` | dragonfly-client-storage/src/io.rs:249-481 | From any moment at which a successful call has not written yet, whatever the others have done and are doing: its piece stands under every schedule if and only if the input bytes the other calls at it have still to write are those of the content |
| `RoundTrip.ReadBack` | dragonfly-client-storage/src/content_linux.rs:311-344 | Serving a standing piece while the rest of the file changes from call to call: whatever the buffer size, short reads and mix of reader calls, a drained reader has delivered the whole piece, or with a request the original bytes of the intersection |
| `RoundTrip.KernelKeeps` | dragonfly-client-storage/src/content_linux.rs:440-473 | No system call of any writer, in any order, disturbs what the successful call has placed |
| `RoundTrip.RunPoised` | dragonfly-client-storage/src/content_linux.rs:440-473 | Every run of the kernel up to the successful call's first write is such a moment |
| `WriterCalls.CallWriteRange` | dragonfly-client-storage/src/io.rs:249-325 | A call of the reader form, and whatever it left running up to any later moment, keeps the writers' contract that the round trip rests on |
| `WriterCalls.CallWriteRangeFromStream` | dragonfly-client-storage/src/io.rs:388-481 | The same for the stream form |
| `WriterCalls.CallWriteUrmaStream` | dragonfly-client-storage/src/content_linux.rs:554-721 | The same for the window form, which leaves nothing running |
| `WriterCalls.CutAnywhere` | dragonfly-client-storage/src/io.rs:249-481 | Cut at any point, before, at or after its return, the rest of a call's log places the input bytes that follow, where they belong |
| `WriterCalls.CallConfined` | dragonfly-client-storage/src/io.rs:249-481 | No write of a call, nor of a write it left running, leaves the piece |
| `WriterCalls.AgreesExactly` | dragonfly-client-storage/src/io.rs:296-305 | The bytes a call has still to place agree with the content if and only if each write still to come repeats it |
| `Attempts.StandsExactly` | dragonfly-client-storage/src/io.rs:249-481 | Over logs: a piece about to be written completely stands under every schedule if and only if each write the other attempts at it have still to make repeats the content |
| `Attempts.RunKeeps` | dragonfly-client-storage/src/content_linux.rs:440-473 | Over every schedule the complete attempt's bytes stay in place as far as it got |
| `Attempts.StepKeeps` | dragonfly-client-storage/src/content_linux.rs:440-473 | Serving any attempt's next write keeps that: its own extends it, a rival's repeats it, all others lie elsewhere |
| `Attempts.RivalBreaks` | dragonfly-client-storage/src/io.rs:271-306 | One write of a rival that does not repeat the content breaks the piece under some schedule |
| `Attempts.LateWrite` | dragonfly-client-storage/src/io.rs:271-306 | A write inside a standing piece leaves it standing if and only if it repeats the content |
| `Attempts.LateWriteReachable` | dragonfly-client-storage/src/io.rs:271-306 | A schedule in which a failed attempt's write lands after the retry completed and the piece is wrong |
| `LateWrites.LateWriteHappens` | dragonfly-client-storage/src/io.rs:249-325 | On the writers themselves: a download whose input fails leaves its write running, the retry reports success on `[1, 2]`, and the file ends as `[9, 2]`, unless the write had landed before the failed download returned |
| `SharedFile.KernelInterleaves` | dragonfly-client-storage/src/io.rs:299-305 | Whatever system calls are made through the descriptors of one file, the file is an interleaving of the descriptors' own logs |
| `SharedFile.ServeIsStep` | dragonfly-client-storage/src/io.rs:331-377 | Each call is one step of its descriptor's log, or changes neither file nor logs |
| `RoundTrip.WantedInPlace` | dragonfly-client-storage/src/content.rs:141-150 | With the piece in place, the range its reader is given holds the whole piece without a request, and with one the content from the later start to the earlier end |
| `PieceWriters.WriteRange` | dragonfly-client-storage/src/io.rs:249-325 | For every input, read split, buffer size, kernel script and moment of the caller's timeout: unless dropped, success if and only if the input suffices and the kernel never refused, then exactly the expected bytes are written from the offset on and their CRC-32 reported; otherwise only a prefix, a short input whole before it is reported, an over-long one cut; every checked-out buffer is given back when the last write was joined; a write is left running only when the timeout fired or the input failed, in the latter case exactly if a full buffer had been received, and is then the last part of what was handed over |
| `PieceWriters.Turn` | dragonfly-client-storage/src/io.rs:271-306 | One turn fills, hashes and hands over: prefix handed over, hash and remaining input stay in step, and each way out is justified |
| `PieceWriters.WriteRangeFromStream` | dragonfly-client-storage/src/io.rs:388-481 | The same contract for every split of the stream into chunks, empty chunks included |
| `PieceWriters.PieceSpliced` | dragonfly-client-storage/src/io.rs:249-481 | Whatever the file holds, what a writer did to it is one splice of a prefix of its input, all of the expected bytes on success |
| `PieceWriters.GiveUp` | dragonfly-client-storage/src/lib.rs:819-826 | A writer that ends early, by a failed input or by its caller's timeout, leaves its last write running and a prefix written |
| `PieceWriters.RunDetached` | dragonfly-client-storage/src/io.rs:296-305 | What a write left running places later extends the call's prefix of its input, within the expected length |
| `PieceWriters.Fill` | dragonfly-client-storage/src/io.rs:272-277 | While the previous write goes on, the buffer receives the next input bytes, never past the expected length, and stops short only at the end of the input |
| `PieceWriters.Stage` | dragonfly-client-storage/src/io.rs:411-437 | The staged chunks are the next input bytes without empty chunks, cut at the expected length, and the hasher has seen exactly what is handed over or staged |
| `PieceWriters.HandOver` | dragonfly-client-storage/src/io.rs:287-305 | One write in flight at a time: the previous one is joined first, then completed and in-flight bytes are the input prefix at contiguous offsets, and the buffer given back is never the one being written |
| `PieceWriters.Overlap` | dragonfly-client-storage/src/io.rs:296-305 | Whatever the background write does meanwhile, completed plus in-flight bytes stay the input prefix |
| `PieceWriters.Settle` | dragonfly-client-storage/src/io.rs:308-325 | Success is reported only after the last write was joined, and the verdict is the contract's |
| `PieceWriters.LandedIsPrefix` | dragonfly-client-storage/src/io.rs:263-313 | At every interleaving the file holds a prefix of what was handed over, all of it once the job is finished, and a kernel refusal is always remembered |
| `PieceWriters.StageChunk` | dragonfly-client-storage/src/io.rs:415-434 | Hashing and staging one capped chunk keeps staged bytes, hash and remaining stream in step |
| `PieceWriters.VerdictAtEnd` | dragonfly-client-storage/src/io.rs:315-324 | Once everything landed, the length alone decides between success and the length error |
| `BackgroundWrite.Job.Step` | dragonfly-client-storage/src/io.rs:455-463 | After each call of the spawned write the file holds exactly the first bytes of the job, and a refusal is recorded |
| `BackgroundWrite.Job.Join` | dragonfly-client-storage/src/io.rs:466-469 | Joining from any intermediate point ends with the whole job in the file or with the refusal as the error |
| `BackgroundWrite.DriveExtends` | dragonfly-client-storage/src/io.rs:455-463 | Running the rest of a half-done job ends as running it whole |
| `VectoredWrite.WriteAllCursor` | dragonfly-client-storage/src/io.rs:331-377 | The index/written cursor loop means `Drive` under every script |
| `VectoredWrite.WriteAllSlices` | dragonfly-client-storage/src/content_linux.rs:47-82 | The slice-advancing loop means the same `Drive`, so the two loops agree on every chunk list and script |
| `VectoredWrite.DriveWritesPrefix` | dragonfly-client-storage/src/io.rs:341-376 | The loops leave exactly a prefix of the concatenated chunks, all of it on success, and fail only where the kernel refused, nothing could be submitted or the offset left 64 bits |
| `VectoredWrite.DriveSucceedsExactly` | dragonfly-client-storage/src/io.rs:348-358 | With a kernel that never refuses, the loops fail on exactly the lists whose first 1024 chunks are all empty, which is why the callers skip empty chunks |
| `VectoredWrite.Gather` | dragonfly-client-storage/src/io.rs:342-346 | The submitted buffers are the first unwritten bytes, at most 1024 of them |
| `VectoredWrite.MoveCursor` | dragonfly-client-storage/src/io.rs:360-373 | After any accepted count the cursor stands for exactly the unwritten rest |
| `VectoredWrite.AdvanceTwice` | dragonfly-client-storage/src/content_linux.rs:79 | Advancing by two counts is advancing by their sum, so how a write is split does not matter |
| `PieceFile.ConsecutiveSplices` | dragonfly-client-storage/src/io.rs:296-305 | Any run of consecutive positional writes is one splice of all their bytes |
| `PieceFile.WroteSplices` | dragonfly-client-storage/src/io.rs:296-305 | So what a descriptor accepted splices exactly its bytes into any file and changes nothing else |
| `Crc32.UpdateAppend` | dragonfly-client-storage/src/io.rs:285 | Hashing part by part hashes the concatenation (CRC-32 of section 8 of RFC 1952) |
| `Crc32Meaning.HashIsCrc` | dragonfly-client-storage/src/io.rs:269-323 | The reported text is the decimal form of the one number that is the CRC-32 of the input: the complemented remainder modulo the generator of section 8 of RFC 1952 of the input, first byte and low bit foremost, times x^32, with its first 32 coefficients complemented |
| `Crc32Meaning.UpdateCongruent` | dragonfly-client-storage/src/io.rs:285 | After every byte the hasher register is congruent to that dividend, for every input |
| `Polynomials.RemainderUnique` | dragonfly-client-storage/src/io.rs:285 | Two polynomials below degree 32 that are congruent modulo the generator are equal, so the remainder is one number |
| `Crc32Meaning.CheckValue` | dragonfly-client-storage/src/io.rs:319-323 | The digits 1 to 9 hash to 3421780262, the published check value 0xCBF43926 |
| `UrmaWriter.WriteUrmaStream` | dragonfly-client-storage/src/content_linux.rs:554-721 | Success if and only if every window was benign, the bytes are exactly the expected ones and the kernel never refused; otherwise only a prefix inside the piece is in the file; every shared window went through exactly one cycle of share, both workers, recycle, before any error surfaced; the unique-owner error never occurs |
| `UrmaWriter.StoreWindow` | dragonfly-client-storage/src/content_linux.rs:613-677 | One window: recycled once after both workers joined, then stored whole with its digest or rejected with a prefix |
| `UrmaWriter.RunWorkers` | dragonfly-client-storage/src/content_linux.rs:613-652 | Whatever the interleaving of the two workers, the digest is that of the whole window, the write is a prefix of it, and both leases are given back |
| `UrmaWriter.WriteTurn` | dragonfly-client-storage/src/content_linux.rs:59-80 | Wherever the worker stops or panics, the file holds a prefix of the window |
| `UrmaWriter.FateOfWindow` | dragonfly-client-storage/src/content_linux.rs:653-677 | Each error order is justified: a window is kept exactly if no worker, recycler or kernel spoiled it |
| `UrmaWriter.StoreNext` | dragonfly-client-storage/src/content_linux.rs:587-678 | Storing the next window keeps file, digest, length and lease count in step, or rejects the piece with a prefix in the file |
| `UrmaWriter.OneMoreCycle` | dragonfly-client-storage/src/client/urma.rs:327-336 | Lease conservation is kept by each window's cycle |
| `UrmaWriter.Lease.Recycle` | dragonfly-client-storage/src/client/urma.rs:327-336 | A window is recycled by its unique owner and only once |
| `RangeReads.RangeReader.PollFillBuf` | dragonfly-client-storage/src/io.rs:175-216 | The poll loop, with a read pending, failing or short, means `FillBuf` |
| `RangeReads.RangeReader.NextChunk` | dragonfly-client-storage/src/io.rs:126-154 | The owned-chunk read means `ReadChunk` |
| `RangeReads.RangeReader.PollRead` | dragonfly-client-storage/src/io.rs:229-239 | Reading into a caller's buffer fills, delivers what fits and consumes it |
| `RangeReads.RunKeeps` | dragonfly-client-storage/src/io.rs:86-240 | Over every run of fill, consume, read and idle owned chunks, with a file that may change outside the range between calls: delivered bytes plus unread buffer are the range up to the offset, and offset plus remaining stay the length until the end of the file |
| `RangeReads.Drained` | dragonfly-client-storage/src/io.rs:86-240 | A reader that reports its end through either interface has delivered exactly the bytes of the range that exist, so both interfaces deliver the same sequence |
| `RangeReads.ReadsToTheEnd` | dragonfly-client-storage/src/io.rs:175-239 | Reading ends: as many completed reads as the range has bytes deliver them all, and the next fill reports the end |
| `RangeReads.DrainEnds` | dragonfly-client-storage/src/io.rs:175-239 | The same from any reachable state |
| `RangeReads.FillBufKeeps` | dragonfly-client-storage/src/io.rs:175-216 | A fill keeps the invariant, is empty exactly when everything was delivered, and panics exactly on a lost buffer with nothing remaining |
| `RangeReads.JoinKeeps` | dragonfly-client-storage/src/io.rs:200-211 | A completed read never exceeds the remainder and hands out the next bytes of the range |
| `RangeReads.SpawnSizes` | dragonfly-client-storage/src/io.rs:184-198 | The reused or fresh buffer is exactly min(capacity, remaining) bytes, so no read crosses the end of the range |
| `RangeReads.ReadChunkKeeps` | dragonfly-client-storage/src/io.rs:126-154 | With no read in flight an owned chunk is the next part of the range, empty only at its end |
| `RangeReads.ReadChunkInFlight` | dragonfly-client-storage/src/io.rs:126-216 | With a read in flight, the next completed fill takes its bytes from the wrong offset if and only if the chunk was not empty and the read in flight does not fail; it then repeats the chunk's first byte, and otherwise continues the range |
| `RangeReads.InFlightDuplicates` | dragonfly-client-storage/src/io.rs:126-216 | A concrete run delivers one byte twice and skips the next |
| `RangeReads.FailedFillPanics` | dragonfly-client-storage/src/io.rs:184-215 | A concrete run in which a failed fill makes a later one slice a missing buffer |
| `RangeReads.CarefulNeverPanics` | dragonfly-client-storage/src/io.rs:175-216 | If owned chunks also wait for a successful fill after a failed one, no reachable state panics |
| `RangeReads.HandOff` | dragonfly-client-storage/src/io.rs:113-120 | From every state, a read in flight included, sending the returned rest transmits exactly the undelivered suffix |
| `RangeReads.ConsumeKeeps` | dragonfly-client-storage/src/io.rs:219-222 | Consuming delivers the next unread bytes, at most those that are there |
| `PieceRanges.PieceRangeExact` | dragonfly-client-storage/src/content.rs:141-150 | The unsigned arithmetic is safe if and only if piece and request share a byte, and then selects exactly the shared bytes |
| `PieceRanges.PieceRangeWhole` | dragonfly-client-storage/src/content.rs:141-150 | Without a request exactly the bytes of the piece are selected |
| `PieceRanges.Decomposition` | dragonfly-client-storage/src/content.rs:141-150 | Over any tiling the selected parts of the touched pieces are the requested bytes, without gap or overlap |
| `PieceRanges.WholeRequest` | dragonfly-client-storage/src/content.rs:141-150 | For the whole content they are the requested slice |
| `PieceRanges.TilesTile` | dragonfly-client/src/resource/piece.rs:230-263 | Uniform pieces with a short last one tile the content |
| `PieceRanges.TileAt` | dragonfly-client/src/resource/piece.rs:230-263 | Piece k starts k piece lengths on, is numbered k and is cut at the end of the content |
| `PieceRanges.TileCount` | dragonfly-client-storage/src/metadata.rs:149-153 | Their number is the ceiling division of `piece_count` |
| `InterestedPieces.CalculateInterested` | dragonfly-client/src/resource/piece.rs:160-274 | The two loops, 64-bit overflows included, answer as `InterestedIn` and `EveryPiece` say |
| `InterestedPieces.AnsweredExactly` | dragonfly-client/src/resource/piece.rs:171-227 | Where nothing overflows, a non-empty request is answered with exactly the pieces it touches if and only if it starts inside the content |
| `InterestedPieces.PastTheEnd` | dragonfly-client/src/resource/piece.rs:171-227 | A request at byte 3 of 3 in pieces of 2 is answered with the second piece, which it does not touch |
| `InterestedPieces.ByRange` | dragonfly-client/src/resource/piece.rs:171-227 | The loop with its corrected last length lists the touched pieces, refuses, or leaves 64 bits, each exactly where `InterestedIn` says |
| `InterestedPieces.All` | dragonfly-client/src/resource/piece.rs:230-273 | All pieces, as many as `piece_count` says, unless the arithmetic leaves 64 bits |
| `InterestedPieces.RequestServed` | dragonfly-client/src/resource/piece.rs:171-227 | Reading each interested piece through `calculate_piece_range` gives exactly the requested bytes |
| `Claims.ExclusiveAfter` | dragonfly-client-storage/src/lib.rs:755-803 | From a state with at most one owner, published exactly while there is one, a step keeps this if and only if it is not a timed-out waiter removing a working owner's notifier |
| `ClaimRuns.NeverBothExactly` | dragonfly-client-storage/src/lib.rs:755-803 | For whole runs of any number of tasks: two never download at once if and only if no download is started while another is at work |
| `ClaimRuns.StartAfterReclaim` | dragonfly-client-storage/src/lib.rs:755-803 | Every such start comes after a claim won between a waiter's early release and the release of the holder it evicted, however the later holders were unpublished |
| `ClaimRuns.NeverTwoExactly` | dragonfly-client-storage/src/lib.rs:755-803 | For whole runs: two tasks never hold the claim at once, from winning to releasing it, if and only if no claim is won between a waiter's early release and the release of the holder it evicted |
| `ClaimRuns.AtMostOneAfter` | dragonfly-client-storage/src/piece_notifier.rs:54-62 | A second holder comes by exactly one kind of step, a claim won while another task holds it |
| `ClaimRuns.WasUnpublished` | dragonfly-client-storage/src/lib.rs:1745-1749 | In every run, a holder without a published notifier lost it to a timeout or to another holder's release and has not released since |
| `ClaimRuns.WasEvicted` | dragonfly-client-storage/src/lib.rs:1745-1749 | While there has been at most one holder at a time, it was a timeout |
| `ClaimRuns.HoldersConserved` | dragonfly-client-storage/src/piece_notifier.rs:54-78 | At any moment of any run the tasks that hold the claim are the published one plus the timeouts that removed a notifier, less the holders that released without one |
| `ClaimRuns.EvictedEnds` | dragonfly-client-storage/src/lib.rs:1160-1164 | An evicted holder that releases unpublishes the one that took over |
| `ClaimRuns.OrderlyRunsExclude` | dragonfly-client-storage/src/lib.rs:755-803 | In every orderly run one task at a time owns the piece, and none but the owner finishes it |
| `ClaimRuns.RunsNeverLoseWakeups` | dragonfly-client-storage/src/lib.rs:1712-1787 | In every run at all, a waiter registered while its notifier was published and not yet woken waits on the notifier published now, so its removal wakes it |
| `Claims.WakeupAfter` | dragonfly-client-storage/src/piece_notifier.rs:71-78 | Every step keeps that, timeouts included |
| `ClaimProgress.NoneStuck` | dragonfly-client-storage/src/lib.rs:755-803 | Every run of any number of tasks, whatever timed out, failed or was deleted in it, can be continued so that a given task returns, by at most 22 actions of that task and one downloader and no error; unless it held the claim already, the piece is then finished |
| `ClaimProgress.OnItsOwn` | dragonfly-client-storage/src/lib.rs:1712-1787 | With nobody else's notifier in the way a task returns by its own actions, its timers included |
| `ClaimProgress.NotOnItsOwn` | dragonfly-client-storage/src/lib.rs:790-799 | The downloader's part cannot be left out: while it has written no record, no outcome of its own actions brings a task home that lost the claim, for that wait has no timeout |
| `ClaimProgress.RunsBacked` | dragonfly-client-storage/src/lib.rs:1745-1749 | In every run at all a published notifier has a downloader behind it |
| `ClaimWaits.AsleepSince` | dragonfly-client-storage/src/lib.rs:1729-1741 | In every run, a sleeping task registered first, live exactly if its notifier was still published then, and by its next action read a started record: a task whose registration came too late has read an unfinished record after it |
| `ClaimWaits.ReadReturns` | dragonfly-client-storage/src/lib.rs:1712-1787 | A read that succeeds ends the wait if and only if the piece is finished |
| `ClaimWaits.ReturnedFinished` | dragonfly-client-storage/src/lib.rs:1712-1787 | In every run, a task that never held the claim returns only by reading a finished record |
| `ClaimWaits.ClaimedFor` | dragonfly-client-storage/src/lib.rs:755-770 | In every run, a task claims only after it read no record, or gave up on a stale or overdue download |
| `ClaimWaits.StalePurge` | dragonfly-client-storage/src/lib.rs:1752-1784 | In every run, a purge without a timeout follows three looks that found no notifier with two reads of a started record between them |
| `ClaimWaits.TimedOutFor` | dragonfly-client-storage/src/lib.rs:1742-1749 | In every run, a purge with one follows a timeout while asleep |
| `ClaimWaits.CommitsFound` | dragonfly-client-storage/src/metadata.rs:1521-1544 | In every run, a task commits only after its own start and a read that found the record |
| `ClaimWaits.NoneLeftBehind` | dragonfly-client-storage/src/metadata.rs:1548-1572 | In every run whose cleanups the store carries out and that begins without one, a started record has a task behind it |
| `ClaimWitnesses.WaiterReturns` | dragonfly-client-storage/src/lib.rs:1729-1741 | A run in which a sleeping waiter is woken by the finished download and returns |
| `ClaimWitnesses.AloneFinishes` | dragonfly-client-storage/src/lib.rs:755-803 | Whatever record it finds, a task alone and undisturbed ends with the piece finished |
| `ClaimRuns.NeverLosesExactly` | dragonfly-client-storage/src/metadata.rs:1497-1572 | A run never loses a finished record if and only if none is deleted explicitly and no task carries out a write whose read a commit has overtaken |
| `ClaimRuns.LossExactly` | dragonfly-client-storage/src/metadata.rs:1497-1572 | The same for each single loss, with the overtaken read, the commit and the write named |
| `ClaimRuns.ArmedSince` | dragonfly-client-storage/src/metadata.rs:1548-1572 | A task about to delete or restart read an unfinished record and has not acted since |
| `Claims.UnfinishedAfter` | dragonfly-client-storage/src/metadata.rs:1521-1558 | While an exclusive owner has not committed, the record is not finished, so its failure cannot erase another's success |
| `ClaimRuns.QuietRunsHold` | dragonfly-client-storage/src/lib.rs:755-803 | Without early releases, explicit deletes and split purges, exclusion and the record's safety hold all along |
| `ClaimRuns.DownloadedOnce` | dragonfly-client-storage/src/lib.rs:755-829 | In every such run the piece is committed at most once and stays finished |
| `Claims.SecondOwner` | dragonfly-client-storage/src/lib.rs:1745-1749 | After an early release any claimer becomes a second owner |
| `ClaimWitnesses.TwoDownloadersReachable` | dragonfly-client-storage/src/lib.rs:1745-1749 | A reachable state with two concurrent downloads of one piece |
| `ClaimWitnesses.ThirdDownloaderReachable` | dragonfly-client-storage/src/lib.rs:1160-1164 | And one in which a third task claims while the second downloads, with no further timeout |
| `ClaimWitnesses.HarmlessReclaim` | dragonfly-client-storage/src/lib.rs:755-803 | A run in which two tasks hold the claim at once and never download at once |
| `ClaimWitnesses.PurgeErasesReachable` | dragonfly-client-storage/src/metadata.rs:1562-1572 | A reachable step by which a waiter erases a finished record |
| `ClaimWitnesses.FailureErasesReachable` | dragonfly-client-storage/src/metadata.rs:1548-1558 | A reachable step by which a failed second download erases it |
| `ClaimWitnesses.RestartErasesReachable` | dragonfly-client-storage/src/lib.rs:770-788 | A reachable step by which a second owner's started record overwrites it, with no delete and no read cut off from its delete |
| `PieceNotifiers.PieceNotifier.ClaimPiece` | dragonfly-client-storage/src/piece_notifier.rs:54-62 | A claim is the protocol's claiming step: one claimer wins and publishes a fresh notifier, every other gets the owner's, other pieces are untouched |
| `PieceNotifiers.PieceNotifier.Get` | dragonfly-client-storage/src/piece_notifier.rs:64-70 | A look-up sends a waiter where the protocol's look-up steps send it: to the notifier the owner has published, or to the re-check |
| `PieceNotifiers.PieceNotifier.Remove` | dragonfly-client-storage/src/piece_notifier.rs:72-78 | Removing is the protocol's release: unpublished, and woken are exactly the tasks the protocol wakes |
| `PieceNotifiers.PieceNotifier.Enable` | dragonfly-client-storage/src/lib.rs:1729-1733 | A wait enabled on a notifier obtained earlier counts in the protocol exactly if that notifier is still published |
| `PieceNotifiers.PieceNotifier.Identified` | dragonfly-client-storage/src/piece_notifier.rs:54-70 | A notifier once published for a piece is the published one exactly if the protocol publishes its id |
| `Uploads.Metadata.Upload` | dragonfly-client-storage/src/metadata.rs:765-785 | One event is counted in memory only and the accounting law is kept, whether or not the task is stored |
| `Uploads.Metadata.GetTask` | dragonfly-client-storage/src/metadata.rs:788-802 | The merged view shows started minus finished minus failed, and finished, since the last delete, and reading folds nothing into the store |
| `Uploads.Metadata.PrepareDownloadTask` | dragonfly-client-storage/src/metadata.rs:617-649 | A reusable task is left alone, any other is recorded anew, and no counts enter the store |
| `Uploads.Metadata.DownloadTaskStarted` | dragonfly-client-storage/src/metadata.rs:653-689 | The lengths are recorded over the existing or a new task without touching counts |
| `Uploads.Metadata.Update` | dragonfly-client-storage/src/metadata.rs:693-761 | The calls on an existing task change its times only and keep the accounting law |
| `Uploads.Metadata.DeleteTask` | dragonfly-client-storage/src/metadata.rs:834-838 | Deleting forgets record and counts, so counting starts anew |
| `Uploads.CacheMetadata.DownloadCacheTaskStarted` | dragonfly-client-storage/src/metadata.rs:1276-1312 | A new record starts with no counts, an existing one keeps them |
| `Uploads.CacheMetadata.UploadCacheTask` | dragonfly-client-storage/src/metadata.rs:1349-1394 | The stored counts are those of the events since the record exists, and stay within 64 bits for the first 2^63 events; an unknown task is an error without a trace |
| `Uploads.CacheMetadata.DeleteCacheTask` | dragonfly-client-storage/src/metadata.rs:1428-1431 | Deleting keeps the law for every other task |
| `Uploads.CountsMean` | dragonfly-client-storage/src/metadata.rs:765-802 | What the in-memory accounting counts: the started less the finished and failed uploads of the task since its last delete, and the finished ones, as numbers of events |
| `Uploads.CountsWhileMean` | dragonfly-client-storage/src/metadata.rs:1349-1394 | The same for the stored accounting, over the events since the last delete that happened while the task was recorded |
| `Uploads.WhileMeans` | dragonfly-client-storage/src/metadata.rs:1349-1394 | Those events are the ones at the places of the history before which the task had been recorded and not deleted since |
| `Uploads.ExistsMeans` | dragonfly-client-storage/src/metadata.rs:834-838 | A task is recorded if and only if it was recorded at some point and not deleted after it |
| `Uploads.ReusedExactly` | dragonfly-client-storage/src/metadata.rs:617-761 | Over every history of calls: a task is reused if and only if some call gave it its lengths and the last call that took effect is not a failure |
| `Uploads.SecondPrepareReuses` | dragonfly-client-storage/src/metadata.rs:617-649 | A failed task is prepared anew once and reused by the next preparation |
| `Uploads.SchemesDifferByEarlyUploads` | dragonfly-client-storage/src/metadata.rs:765-802 | Over every history the in-memory counts are the stored counts plus those of the uploads before the record |
| `Uploads.SchemesAgreeExactly` | dragonfly-client-storage/src/metadata.rs:1349-1394 | The two schemes show the same if and only if the early uploads cancel out |
| `Uploads.OrderedSchemesAgree` | dragonfly-client-storage/src/metadata.rs:1349-1394 | On tasks that exist when their uploads happen the schemes agree |
| `Uploads.EarlyUploadShows` | dragonfly-client-storage/src/metadata.rs:765-802 | An upload started before the record shows in the merged view and not in the stored one |
| `PieceStore.PieceIdInjective` | dragonfly-client-storage/src/metadata.rs:1652-1654 | No two pieces share a key, for task ids of any form |
| `PieceStore.ScanMeetsOwnKeys` | dragonfly-client-storage/src/storage_engine/rocksdb.rs:126 | For task ids of one length the prefix scan meets exactly the task's keys |
| `PieceStore.ScanMeetsLongerIds` | dragonfly-client-storage/src/metadata.rs:1598-1648 | With ids of several lengths it also meets the keys of every longer id, so the length is needed |
| `PieceStore.Store.GetPieces` | dragonfly-client-storage/src/metadata.rs:1598-1612 | Exactly the pieces stored for the task, each once |
| `PieceStore.Store.DeletePieces` | dragonfly-client-storage/src/metadata.rs:1623-1648 | All pieces of the task are gone and no other record changed |
| `PieceStore.Store.DownloadPieceStarted` | dragonfly-client-storage/src/metadata.rs:1497-1517 | One record is written under its own key and every stored key stays that of its record |
| `PieceStore.Store.DownloadPieceFinished` | dragonfly-client-storage/src/metadata.rs:1521-1544 | The record keeps its number and key; a missing one is an error |
| `PieceStore.Store.DownloadPieceFailed` | dragonfly-client-storage/src/metadata.rs:1548-1572 | A finished record survives, any other is erased |
| `Rendezvous.MessageRoundTrip` | dragonfly-client-storage/src/rendezvous.rs:60-233 | For each message type, decode and finish invert encode if and only if the string is within its cap |
| `Rendezvous.MessageCanonical` | dragonfly-client-storage/src/rendezvous.rs:60-233 | Whatever decodes and finishes re-encodes to the identical bytes, is well typed and within its cap (strings valid per section 4 of RFC 3629) |
| `WireLayout.RequestLayout` | dragonfly-client-storage/src/rendezvous.rs:41-69 | Where each field of a piece request stands in its bytes and how it is read off them, with the kind codes 0, 1 and 2 |
| `WireLayout.MetadataLayout` | dragonfly-client-storage/src/rendezvous.rs:92-98 | The same for piece metadata |
| `WireLayout.WindowLayout` | dragonfly-client-storage/src/rendezvous.rs:119-122 | The same for a receive window |
| `WireLayout.ErrorLayout` | dragonfly-client-storage/src/rendezvous.rs:155-158 | The same for an error |
| `WireLayout.DecodedMetadata` | dragonfly-client-storage/src/rendezvous.rs:101-109 | Whatever bytes decode as piece metadata, each field is the value at its place |
| `WireLayout.StringCap` | dragonfly-client-storage/src/rendezvous.rs:11-12 | A well-typed message survives the wire if and only if its string has at most 4096 bytes |
| `Utf8Meaning.Utf8Exactly` | dragonfly-client-storage/src/rendezvous.rs:229-232 | The strings accepted are exactly the encodings of sequences of scalar values (section 3 of RFC 3629) |
| `Rendezvous.EncodingFitsEnvelope` | dragonfly-client-storage/src/rendezvous.rs:10-13 | Every message within its caps fits one envelope |
| `Rendezvous.FieldsRoundTrip` | dragonfly-client-storage/src/rendezvous.rs:168-233 | Any list of fields in front of any tail decodes to itself and leaves the tail |
| `Rendezvous.FieldsCanonical` | dragonfly-client-storage/src/rendezvous.rs:168-233 | A decoded prefix is the encoding of the decoded fields |
| `Rendezvous.FieldRoundTrip` | dragonfly-client-storage/src/rendezvous.rs:168-233 | The same for one number or length-prefixed string |
| `Rendezvous.FieldCanonical` | dragonfly-client-storage/src/rendezvous.rs:190-233 | A decoded field is within width or cap and is what the bytes encode |
| `Rendezvous.NumberRoundTrip` | dragonfly-client-storage/src/rendezvous.rs:203-217 | Big-endian numbers read back |
| `Rendezvous.BytesRoundTrip` | dragonfly-client-storage/src/rendezvous.rs:203-217 | Every byte string is the big-endian form of what it reads as |
| `Rendezvous.EncodeInto` | dragonfly-client-storage/src/rendezvous.rs:62-69 | Appending field by field appends the message's encoding |
| `Rendezvous.DecodePayload` | dragonfly-client-storage/src/rendezvous.rs:72-80 | The cursor that takes field by field and requires the end accepts exactly what `Decode` accepts |
| `Rendezvous.PayloadReader.ReadField` | dragonfly-client-storage/src/rendezvous.rs:190-233 | One field of the payload is taken exactly when it is complete, within its cap and valid UTF-8 |
| `Envelopes.StreamRoundTrip` | dragonfly-client-storage/src/rendezvous.rs:235-289 | Any concatenation of envelopes reads back as the same frames in order, with no residue |
| `Envelopes.EnvelopeRoundTrip` | dragonfly-client-storage/src/rendezvous.rs:235-289 | One written envelope reads back in front of any bytes |
| `Envelopes.EnvelopeCanonical` | dragonfly-client-storage/src/rendezvous.rs:262-289 | Whatever is accepted is an envelope with the expected magic and version within the cap |
| `WireLayout.EnvelopeLayout` | dragonfly-client-storage/src/rendezvous.rs:251-258 | Magic at 0, version at 4, frame type at 5, payload length at 6, all big-endian, payload from 10 on |
| `WireLayout.PayloadCap` | dragonfly-client-storage/src/rendezvous.rs:13 | An envelope reads back if and only if its payload is within the given cap and that within 128 KiB |
| `Envelopes.PrefixRejected` | dragonfly-client-storage/src/rendezvous.rs:262-289 | No proper prefix of an envelope is accepted |
| `Envelopes.Wire.WriteEnvelope` | dragonfly-client-storage/src/rendezvous.rs:235-260 | Exactly the payloads within both caps are sent, as one envelope; a refused one sends nothing |
| `Envelopes.Wire.ReceiveEnvelope` | dragonfly-client-storage/src/rendezvous.rs:262-289 | A frame is returned exactly when the stream begins with one, and the rest stays readable |
| `Envelopes.RunTiles` | dragonfly-client-storage/src/rendezvous.rs:132-146 | Along any accepted run each received chunk is in exactly one window and no window holds another |
| `Envelopes.RunBounded` | dragonfly-client-storage/src/rendezvous.rs:132-146 | An accepted run stays within the announced total and needs at most that many windows |
| `Envelopes.AcceptedExactly` | dragonfly-client-storage/src/rendezvous.rs:132-146 | A run of windows is accepted if and only if none is empty, each starts where the one before ends, and together they stay within the total |
| `HubUrls.PrintThenParse` | dragonfly-client-backend/src/hugging_face.rs:302-322 | For every accepted URL, either hub and any file name: printing and parsing returns the same type, repository and file if and only if the name neither is empty nor ends in a slash and a Hugging Face model's owner is neither empty nor a prefix word |
| `HubUrls.PrefixedRoundTrip` | dragonfly-client-backend/src/opencsg.rs:339-380 | With the type prefix in front every repository and clean file name survives |
| `HubUrls.BareRoundTrip` | dragonfly-client-backend/src/hugging_face.rs:147-185 | Without it they survive exactly when the owner is a host and not a prefix word |
| `HubUrls.TypeWords` | dragonfly-client-backend/src/hugging_face.rs:157-162 | Behind `models/`, `datasets/` and `spaces/` both hubs take any owner, the failing ones included, as that type |
| `HubUrls.OpenCsgWords` | dragonfly-client-backend/src/opencsg.rs:163-171 | OpenCSG alone also knows `codes/`, `mcps/` and `skills/` |
| `HubUrls.UntypedUrl` | dragonfly-client-backend/src/hugging_face.rs:157-162 | Every other first segment is the owner of a model |
| `HubUrls.ParsedShape` | dragonfly-client-backend/src/opencsg.rs:153-194 | An accepted URL has a two-segment repository id, a file path that never ends in a slash, and a type its hub knows |
| `HubUrls.JoinSplit` | dragonfly-client-backend/src/opencsg.rs:183-187 | Joining the segments of a text gives the text back |
| `HubUrls.SplitSegment` | dragonfly-client-backend/src/opencsg.rs:162 | A slash-free segment in front of a text is split off whole |

## Left out

- Network clients, TLS, retries and header plumbing of the backends, including the HTTP redirect cache: they decide what is delivered, not what is done with it.
- `content_macos.rs`: the same paths as on Linux without the window writer.
- Hard links, copies, fallocate, fadvise, mmap, disk-space queries, directory layout and the FD cache: operating-system calls.
- `Writeback`: a hint queue that does not change file contents.
- Timing counters, logging and the `pwritev` call counter of the window writer: no functional effect; the counter's 64-bit overflow cannot be reached.
- RocksDB internals, serde encoding and scan order: the store is a typed map, and `GetPieces` states the set of pieces and not their order.
- The persistent and persistent-cache task variants: the same shape as the task family modelled here.
- The finished and failed calls of cache tasks, expiry, eviction and idle predicates, response headers of a task: one branch each.
- Contents of a staging buffer beyond its filled part and the idle list of the buffer pool: only which buffers are out is modelled.
- A panic of the blocking write of `write_range` and `write_range_from_stream`: the positional writes have no panicking path; worker panics are modelled in the window writer.
- Changes to the bytes of a range while a reader is open on it: the rest of the file may change between its calls.
- URL library normalisation: percent-encoding, dot segments, ports and case folding of hosts.
- WriteRange: needs offset + expected length within 64 bits, as the source's unchecked additions do; WriteRangeFromStream and WriteAllCursor likewise.
- Upload: needs fewer than 2^63 - 1 recorded events, so that the saturating decrement never saturates.
- UploadCacheTask: past 2^63 events stored counts are unbounded integers, where the source's would overflow.
- CalculateInterested: a piece length of 0, for which the source's loop does not end, is excluded; overflow is one outcome, whether the build wraps or panics.
- Dropping the window writer from outside: its callers put no timeout around it and time out only the wait for each window.
- GetPieces: needs 64-character task ids, the length the store's prefix extractor is set to; ScanMeetsLongerIds shows why; DownloadPieceStarted and DeletePieces likewise.
