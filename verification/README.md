# squib, modelled and proved in Dafny

squib is a microVM monitor for Apple Silicon. This project models the parts of it where a
mistake is silent: the dirty-page tracking behind diff snapshots, the crash-consistent snapshot
pair, lazy restore, the metadata service (MMDS) with its small HTTP and TCP stack, and four
device-side components. It states what they promise over every input and every run.

## The main results

- **A diff snapshot restores RAM.** `EndToEnd` joins write faults, granted writes, adaptive
  page-size changes and the save: for every run from a clean checkpoint, `SaveDiff` calls the save
  and proves that the file it leaves, laid over the checkpoint, is the RAM of that moment;
  `SaveFullAndServe` does it for a full save and the pager. The diff holds no block that no write
  touched (`DiffIsPrecise`).
- **The lock-free bitmaps lose nothing.** `SharedBitset` is a state machine over single atomic
  operations of any number of setters and drainers; successful sets, emissions and pending bits
  balance at every index after every interleaving (`RunConserves`, `QuiescentBalance`).
- **A save is consistent at every instant.** `Save.SaveSnapshot` runs over a file system that
  records every state it goes through and in which each system call may fail. The record falls into
  three phases parted by the two renames, so what a crash leaves is known exactly
  (`PreviousPairIff`).
- **The CRC detects every change within eight bytes**, wherever it is
  (`CorruptionIsRefused`), by linear algebra over the bitwise register.
- **The metadata service answers exactly what it accepted.** For every run of segments of one
  client's stream, lost, repeated, reordered or cut in any way, the accepted prefix is read off the
  segments alone and decides calls, answers and FINs (`AcceptedPrefix`), also amid other clients'
  traffic (`IncarnationServedOnce`). The cutting of an in-order stream matters exactly if the stream
  is not settled (`CuttingMattersIff`).
- **Which marks survive a concurrent step-down** is decided exactly, over every interleaving of
  markers with the fold (`NothingLostIff`).
- **Step-down is exactly the hot-window rule**, read off the history alone
  (`FineIffHotWindow`), and changes no dirty address (`TickKeepsAddresses`).

## Layout

`Words` holds 64-bit words as bounded naturals with the operators defined digit by digit, and the
lemmas behind the bit tricks. `Bitmap`, `SharedBitset`, `Irq`, `Region`, `RegionRuns` and `StepDownRace` are
dirty tracking; `Crc`, `Disk`, `Atomic`, `Envelope`, `Memory`, `Save`, `Pager` and `EndToEnd` are
snapshots; `Http`, `HttpRoundTrip`, `Tcp`, `TcpRuns`, `MmdsServer`, `MergePatch` and `Checksum` are
the metadata service; `Bus`, `Gvproxy` and `Pl011` stand alone. Objects the source updates in
place are classes whose methods are proved against a value (`Meaning()`, a ghost set, or the
recorded file system); theorems over runs are about those values.

Clocks, the JSON and bitcode libraries, request handlers and the order of arriving segments are
parameters. System calls fail nondeterministically.

## Where the code and its documentation part

Each is modelled as the code has it.

- `merge_patch` copies a patch value whole when the target has no object at that key, so a null
  inside it is stored; RFC 7396 would drop it. `MergeIsRfcIff` gives the exact condition.
- The PL011 comment promises a level-triggered line while bytes are queued. Writing the receive
  bit to the clear register drops the line although bytes remain; `LevelPromiseIff` gives the
  exact condition and `ClearedWhileQueued` an input.
- The comment on `save` says a crash between the renames leaves the previous pair. It leaves the
  new state file with the old memory file. Every successful save passes through that state
  (`SaveSnapshot`), and the previous pair survives exactly a crash before the state rename
  (`PreviousPairIff`).
- The step-down is documented not to drop coverage. `mark_dirty` clones the bitmap handle and
  stores after releasing the lock, so a mark that straddles a step-down can land in the retired
  bitmap. `NothingLostIff` says exactly when a mark is missing and `LateMarkIsLost` shows one.
  Starting a step-down only while no mark is under way is enough (`QuietStepDownLosesNothing`), and
  nothing less is (`HeldMarkCanBeLost`). The other region theorems are about whole calls.
- A region reports Fine even when the bitmap was kept because the hot page is larger than the
  default one or not a power of two: `PageSizeMatchesGranule`, reached in `FineWithBitmapKept`.
- A state file above the load limit is saved without complaint and can never be loaded:
  `SavedFileLoads`.
- The 32-bit accumulator of the checksum wraps for large buffers: `AllBuffersFitIff` gives the exact
  length, `LongBufferWraps` a wrong sum for every greater one.
- An empty segment with FIN is accepted whatever its sequence number. A FIN that overtakes the data
  ends the connection, and the request is never answered (`EarlyFinEndsStream`,
  `OvertakenRequestIsNotAnswered`).
- A segment with data and FIN draws two FINs from the server; `AcceptedPrefix` counts them exactly.

## Model

| member | source | states |
|---|---|---|
| `Bitmap.DirtyBitmap.New` | crates/snapshot/src/dirty.rs:83-114 | A bitmap is built exactly for a power-of-two page size, a non-empty range and an end address that fits 64 bits; it starts with no dirty page. |
| `Bitmap.DirtyBitmap.PageIndexOf` | crates/snapshot/src/dirty.rs:150-159 | The shift by the page size's trailing zeros is the page number of every covered address, below the page count; other addresses have none. |
| `Bitmap.DirtyBitmap.SetDirty` | crates/snapshot/src/dirty.rs:164-169 | Marks exactly the page of a covered address and no other; reports a transition exactly when that page was clean. |
| `Bitmap.DirtyBitmap.SetDirtyByIndex` | crates/snapshot/src/dirty.rs:172-181 | Adds exactly this page, or nothing when out of range; reports a transition exactly when the page was in range and clean. |
| `Bitmap.DirtyBitmap.IsDirty` | crates/snapshot/src/dirty.rs:185-190 | True exactly for covered addresses on a dirty page. |
| `Bitmap.DirtyBitmap.IsDirtyByIndex` | crates/snapshot/src/dirty.rs:194-202 | The bit test answers membership in the dirty set. |
| `Bitmap.SetBitSpec` | crates/snapshot/src/dirty.rs:172-181 | One `fetch_or` changes the state of exactly one page, at every other index nothing. |
| `Words.BitIndicesSpec` | crates/snapshot/src/dirty.rs:230-242 | The trailing-zeros/clear-lowest loop emits each set digit of a word exactly once, lowest first. |
| `Bitmap.DrainOfSpec` | crates/snapshot/src/dirty.rs:212-242 | Draining word after word lists exactly the dirty pages, strictly ascending. |
| `Bitmap.EmitWord` | crates/snapshot/src/dirty.rs:230-242 | The inner drain loop emits the set digits in order, dropping indices past the page count. |
| `Bitmap.DirtyBitmap.Drain` | crates/snapshot/src/dirty.rs:212-242 | Returns exactly the dirty pages, each once and ascending, and leaves the bitmap clean. |
| `Bitmap.DirtyBitmap.FoldIntoFiner` | crates/snapshot/src/dirty.rs:255-293 | Succeeds exactly for the same range and a smaller page; then every fine page inside a coarse dirty page, and no other, is added to the finer bitmap; on refusal that bitmap is untouched. |
| `Bitmap.RefineKeepsAddresses` | crates/snapshot/src/dirty.rs:255-293 | After a fold an address is dirty exactly when it was before, for every address. |
| `SharedBitset.StepConserves` | crates/snapshot/src/dirty.rs:172-242 | Each atomic step (set, swap-out, emit) keeps the balance of transitions, emissions, pending bits and bits held by drainers, for every index. |
| `SharedBitset.RunConserves` | crates/snapshot/src/dirty.rs:172-242 | The balance holds after every interleaving of any number of setters and drainers. |
| `SharedBitset.QuiescentBalance` | crates/hv/src/irq.rs:50-73 | From an empty set, once no drainer holds bits: for each index the successful sets equal the emissions plus one if it is still pending. Nothing is lost or doubled. |
| `Irq.IrqShadow.Inject` | crates/hv/src/irq.rs:50-57 | Adds exactly this interrupt id, ignoring ids from 1024 up; reports whether it was newly pending. |
| `Irq.IrqShadow.Drain` | crates/hv/src/irq.rs:62-73 | Returns exactly the pending ids, each once and ascending, and leaves none pending. |
| `Irq.IrqShadow.IsEmpty` | crates/hv/src/irq.rs:80-82 | True exactly when nothing is pending. |
| `Irq.EmitMasked` | crates/hv/src/irq.rs:62-73 | Clearing with the complement of a one-bit mask emits what the clear-lowest loop emits. |
| `Region.AdaptiveController.RecordFault` | crates/snapshot/src/dirty.rs:350-358 | Adds one, modulo 2^32, to the counter of one block and changes nothing else; an unknown block is ignored. |
| `Region.AdaptiveController.Tick` | crates/snapshot/src/dirty.rs:366-402 | The new controller state is that of the window rule: nothing inside 100 ms, else counters reset, and Fine if the largest was above the threshold. |
| `Region.TrackedRegion.WithThreshold` | crates/snapshot/src/dirty.rs:450-463 | Succeeds exactly when the bitmap can be built, and starts clean and Coarse. |
| `Region.TrackedRegion.MarkDirty` | crates/snapshot/src/dirty.rs:484-493 | Marks exactly the page of a covered address, reports whether it was clean, and charges the default-size block of every fault at or above RAM start, whether or not the page was clean. |
| `Region.TrackedRegion.TickAdaptive` | crates/snapshot/src/dirty.rs:499-516 | Ticks the controller and, on the step to Fine with a smaller hot page, swaps in a finer bitmap describing the same bytes. |
| `RegionRuns.CountersMatchHistory` | crates/snapshot/src/dirty.rs:350-402 | At every point of every history each block counter is, modulo 2^32, the number of faults in that block since the window opened, as counted from the history itself. |
| `RegionRuns.FineIffHotWindow` | crates/snapshot/src/dirty.rs:305-403 | The granule is Fine exactly when some tick of the history closed a window in which the fault count of some block, modulo 2^32, was above the threshold. |
| `RegionRuns.GranuleNeverReturns` | crates/snapshot/src/dirty.rs:366-402 | Once Fine, Fine after every continuation of the history. |
| `RegionRuns.PageSizeMatchesGranule` | crates/snapshot/src/dirty.rs:499-516 | The bitmap's page size is the granule's page size exactly when the granule is Coarse or the geometry really steps down; the page size is always one of the two configured ones. |
| `RegionRuns.FineWithBitmapKept` | crates/snapshot/src/dirty.rs:499-516 | Every geometry that cannot step down is reached Fine with its bitmap kept, by one fault and one tick: the granule then names a page size the bitmap does not have. |
| `RegionRuns.TickKeepsAddresses` | crates/snapshot/src/dirty.rs:499-516 | No tick, with or without a step-down, changes whether any address is dirty. |
| `StepDownRace.RunInv` | crates/snapshot/src/dirty.rs:484-516 | Through every interleaving of cloning, storing, word-by-word folding and publishing, each bitmap holds exactly the marks its reader could see. |
| `StepDownRace.DirtyIffMarkedInTime` | crates/snapshot/src/dirty.rs:484-516 | After every interleaving an address is dirty in the active bitmap exactly when it is on the page of a mark that did not come too late for that bitmap. |
| `StepDownRace.NothingLostIff` | crates/snapshot/src/dirty.rs:484-516 | No completed mark is missing exactly when no step-down was published or every late mark's page was also reached in time. |
| `StepDownRace.QuietStepDownLosesNothing` | crates/snapshot/src/dirty.rs:499-516 | A step-down that starts while no mark is between its clone and its store loses no mark. |
| `StepDownRace.HeldMarkCanBeLost` | crates/snapshot/src/dirty.rs:484-516 | The discipline is tight: from every reachable state with a mark under way, a step-down that starts now has a continuation that loses it, at every clean address. |
| `StepDownRace.LateMarkIsLost` | crates/snapshot/src/dirty.rs:484-516 | In every region, at every address: a mark that clones before a step-down and stores after it is lost. |
| `RegionRuns.DirtyIsStable` | crates/snapshot/src/dirty.rs:484-516 | A dirty address stays dirty through every history of faults and ticks. |
| `Crc.CrcConcat` | crates/snapshot/src/envelope.rs:206-240 | The CRC of a concatenation is the CRC of the second part started from the CRC of the first, so writing in pieces gives the CRC of the whole. |
| `Crc.CrcAsOneNumber` | crates/snapshot/src/envelope.rs:206-240 | Byte-wise feeding equals one division of the whole message read as a little-endian number. |
| `Crc.CrcInjectiveInRegister` | crates/snapshot/src/envelope.rs:206-240 | Over the same bytes, different registers give different CRCs. |
| `Crc.CrcInjectiveInWindow` | crates/snapshot/src/envelope.rs:206-240 | From the same register, different strings of at most eight bytes give different CRCs. |
| `Crc.ResidueIffTrailer` | crates/snapshot/src/envelope.rs:132-149 | The CRC of a buffer is zero exactly when its last eight bytes are the little-endian CRC of the rest. |
| `Crc.WindowCorruptionDetected` | crates/snapshot/src/envelope.rs:132-149 | Changing any bytes inside one window of eight changes the CRC, wherever the window lies. |
| `Envelope.Crc64Writer.Write` | crates/snapshot/src/envelope.rs:231-235 | The running CRC covers exactly the bytes the file accepted, including short and failed writes. |
| `Envelope.Crc64Writer.WriteAll` | crates/snapshot/src/envelope.rs:206-240 | However the file splits the writes, CRC and file agree on one accepted prefix, which is everything on success. |
| `Envelope.SaveEnvelope` | crates/snapshot/src/envelope.rs:92-100 | Success leaves the encoding followed by its eight CRC bytes; at no instant is another file touched; failures are only of the encoder or the file. |
| `Envelope.CrcMismatchIff` | crates/snapshot/src/envelope.rs:132-149 | A buffer of legal size is refused for its CRC exactly when it is not some body followed by that body's CRC. |
| `Envelope.SavedFileLoads` | crates/snapshot/src/envelope.rs:92-184 | What was saved loads back equal, exactly when the file is within the 10,000,000-byte limit; beyond it the load fails with the size error. |
| `Envelope.CorruptionIsRefused` | crates/snapshot/src/envelope.rs:132-149 | A loadable file changed anywhere inside eight consecutive bytes is refused with a CRC mismatch. |
| `Envelope.LeadingZerosInvisible` | crates/snapshot/src/envelope.rs:206-240 | Zero bytes in front of a message do not change its CRC: detection does not extend to insertions there. |
| `Atomic.TempPathsDiffer` | crates/snapshot/src/atomic.rs:73-77 | Different destinations have different temp files. |
| `Atomic.UnlinkOnDrop.Drop` | crates/snapshot/src/atomic.rs:84-116 | An armed guard touches only its temp file and removes it unless the unlink fails; a disarmed one does nothing. |
| `Atomic.AtomicWriter.Open` | crates/snapshot/src/atomic.rs:146-161 | Success creates an empty temp file and an armed guard; failure leaves the disk as it was; nothing else changes at any instant. |
| `Atomic.AtomicWriter.Commit` | crates/snapshot/src/atomic.rs:187-204 | At every instant the destination is untouched or wholly the temp file's content; success is the latter with the temp file gone, failure the former. |
| `Memory.ReadAt` | crates/snapshot/src/memory.rs:31-40 | Any page source: a successful read returns exactly the requested bytes of RAM, and it may fail for reasons of its own. |
| `Memory.VecReadAt` | crates/snapshot/src/memory.rs:62-79 | The in-memory source: a read succeeds exactly within the bytes and returns the stretch asked for. |
| `Memory.MemoryWriter.WriteFull` | crates/snapshot/src/memory.rs:132-162 | Success writes the first `ram_size` bytes of RAM at the cursor of the temp file, for every page size and every way the writes are split. |
| `Memory.MemoryWriter.WriteDiff` | crates/snapshot/src/memory.rs:177-248 | Wherever the cursor stands: success leaves a file of RAM size that holds RAM on the dirty pages and the old bytes elsewhere, and reports the memory pages written; a bitmap of another size or an indivisible page size is refused. |
| `Memory.PagesUnderCounts` | crates/snapshot/src/memory.rs:177-248 | The reported number is the number of memory pages lying in dirty blocks. |
| `Save.StageState` | crates/snapshot/src/save.rs:78-137 | Either the whole state image is in the temp file under an armed guard, or nothing of it is left (unless an unlink failed). |
| `Save.StageMemory` | crates/snapshot/src/save.rs:78-137 | The same for the memory image, Full or Diff. |
| `Save.CommitPair` | crates/snapshot/src/save.rs:78-137 | The record of the commit falls into the phases (old, old), (new, old), (new, new), parted by the two renames in this order; success goes through all three, failure never reaches the third. |
| `Save.StagingKeepsOld` | crates/snapshot/src/save.rs:78-137 | While staging, every instant keeps both destinations old. |
| `Save.PhasesAfterStaging` | crates/snapshot/src/save.rs:78-137 | Seen from the start of the save, staging lengthens the first phase and changes no other. |
| `Save.PreviousPairIff` | crates/snapshot/src/save.rs:69-137 | A crash leaves the previous pair exactly before the state rename (if the state file changes at all), and the mixed pair exactly between the renames (if the memory file does). |
| `Save.SaveSnapshot` | crates/snapshot/src/save.rs:78-137 | For every choice of failing system calls there are positions a <= b in the record such that it is (old, old) before a, (new, old) from a to b and (new, new) from b on, and a and b are the state and the memory rename. Success has a < b < end, so the mixed pair is always passed through; failure has b at the end, old memory, and the new state file exactly if the state rename happened. Temp files are gone unless an unlink failed. Incompatible states and untracked diffs fail. |
| `Pager.Pager.ServeFault` | crates/host/src/pager.rs:405-417 | The outcome is that of the region check and the two roundings; the fault counter moves only for a served page. |
| `Pager.ServedPage` | crates/host/src/pager.rs:155-192 | In an aligned region both roundings remove the same in-page offset: the page read starts at the boundary below the address, counted from RAM start. |
| `Pager.FullDumpServesIff` | crates/host/src/pager.rs:155-192 | Every fault in the region is served, with the saved byte at its in-page offset, exactly when the region's start and size are multiples of the page size. |
| `Pager.MisalignedStartFails` | crates/host/src/pager.rs:155-192 | With an unaligned start the fault on the first byte is not served right. |
| `Pager.PartialEndFails` | crates/host/src/pager.rs:155-192 | With a partial last page the fault on the last byte is not served. |
| `EndToEnd.RunTracks` | crates/snapshot/src/dirty.rs:3-19 | After every run of faulting writes, granted writes and ticks, each byte that differs from the checkpoint lies on a dirty page. |
| `EndToEnd.DiffDescribesRam` | crates/snapshot/src/memory.rs:177-248 | From a clean bitmap, for every run: the diff image laid over the checkpoint image is the current RAM. |
| `EndToEnd.SaveDiff` | crates/snapshot/src/save.rs:78-137 | Saving the region's bitmap with the diff save, after any run from a clean point: on success the memory file on disk laid over the RAM of that point is current RAM; on failure the memory file is untouched. |
| `EndToEnd.SaveFullAndServe` | crates/snapshot/src/save.rs:78-137 | A full save and then a page fault served from the file it left: the file is RAM; all faults are served right exactly for a region that starts and ends on page boundaries, and then this one is. |
| `EndToEnd.DiffIsPrecise` | crates/snapshot/src/dirty.rs:3-19 | Every dirty address shares a default-size block with some faulting write of the run: the diff holds nothing else. |
| `Http.Find` | crates/mmds/src/tcp.rs:222-224 | The first occurrence at or after the start, or none exactly when there is none. |
| `Http.TryParse` | crates/mmds/src/tcp.rs:161-216 | The loop over header lines with its updated locals computes the parser function. |
| `Http.VerdictIsStable` | crates/mmds/src/tcp.rs:161-216 | A verdict other than Incomplete is not changed by more bytes, up to the buffer limit. |
| `HttpRoundTrip.ParseUndoesRender` | crates/mmds/src/tcp.rs:161-216 | Every request a client can write down (graphic method and path, optional token and ttl headers, body) within the limit is parsed back exactly. |
| `HttpRoundTrip.ResponseReadsBack` | crates/mmds/src/tcp.rs:100-123 | A reader by the same text rules gets back exactly the status and body of every response put on the wire. |
| `Tcp.TcpServer.Handle` | crates/mmds/src/tcp.rs:373-435 | One segment takes the server to the state, replies and handler calls of the dispatch function. |
| `Tcp.TcpServer.HandleSyn` | crates/mmds/src/tcp.rs:437-455 | A fresh SYN replaces the client's connection, takes the next initial sequence number and queues one SYN-ACK. |
| `Tcp.TcpServer.ReceiveData` | crates/mmds/src/tcp.rs:457-511 | In-order data is appended, acknowledged, and answered once the verdict is final. |
| `Tcp.TcpServer.SendResponse` | crates/mmds/src/tcp.rs:545-571 | One segment with the whole response and FIN; the sequence number moves past both. |
| `Tcp.TcpServer.ReceiveFin` | crates/mmds/src/tcp.rs:513-535 | The peer's FIN is acknowledged with ours, and both counters move by one. |
| `Tcp.TcpServer.DrainOutbound` | crates/mmds/src/tcp.rs:540-542 | Hands over the queue in order and empties it; the server's meaning is unchanged. |
| `TcpRuns.AdvanceInv` | crates/mmds/src/tcp.rs:373-571 | Each honest segment keeps the connection invariant: buffer, counters, answers, FINs and books. |
| `TcpRuns.RunInv` | crates/mmds/src/tcp.rs:373-571 | The invariant holds after every run of honest segments, lost, repeated or reordered as they may be. |
| `TcpRuns.FollowStep` | crates/mmds/src/tcp.rs:373-535 | One honest segment takes the connection where the segment-only progress says, in every state. |
| `TcpRuns.AcceptedPrefix` | crates/mmds/src/tcp.rs:373-571 | For every run of honest segments the accepted bytes are a prefix of the stream whose length is read off the segments alone (a piece at the current offset moves it, others are ignored, it stops at the first FIN or verdict); calls and answers are exactly those for that prefix, the answer is out if and only if it has a verdict, and the FINs sent are one per answer plus one for the client's. |
| `TcpRuns.AnswersAreFinal` | crates/mmds/src/tcp.rs:457-571 | Where verdicts are not revised: one call and one answer, those for the whole stream, exactly if the accepted prefix has a verdict, else none; the exact number of FINs. |
| `TcpRuns.EarlyFinEndsStream` | crates/mmds/src/tcp.rs:513-535 | An empty FIN is taken at any sequence number: while the request is open it ends the connection for good, and whatever follows is neither accepted nor answered. |
| `TcpRuns.BooksAlwaysKept` | crates/mmds/src/tcp.rs:373-571 | While the connection lives: the buffer is a prefix of the client's stream, the receive counter is its length past the SYN, and the replies' sequence numbers are contiguous and acknowledgements never go back. |
| `TcpRuns.InOrderAnswers` | crates/mmds/src/tcp.rs:457-511 | After the handshake, data in order in any pieces is answered for the first cut that has a verdict, or for the whole stream. |
| `MmdsServer.PrefixVerdict` | crates/mmds/src/tcp.rs:161-216 | The verdict on any prefix of a stream is Incomplete or the verdict on the stream. |
| `MmdsServer.StableIff` | crates/mmds/src/tcp.rs:161-216 | No verdict on a prefix is ever revised exactly for streams within 16 KiB, or whose first 16 KiB hold no request. |
| `MmdsServer.FirstVerdictDecides` | crates/mmds/src/tcp.rs:457-511 | For every stream and every cutting of it delivered in order: calls and answers are those for the first cut with a verdict, or for the whole stream. |
| `MmdsServer.AnswersTheWholeStream` | crates/mmds/src/tcp.rs:373-571 | The server with its real parser, for every settled stream and every run of honest segments: one call and one answer, those for the stream, exactly if the accepted prefix has a verdict, else none; the exact number of FINs. |
| `MmdsServer.LiveConnectionBooks` | crates/mmds/src/tcp.rs:373-571 | While a connection waits, its buffer is an incomplete request within the limit, and its books are kept. |
| `MmdsServer.CuttingDoesNotMatter` | crates/mmds/src/tcp.rs:457-511 | Handshake and settled stream in order: calls and answers are those for the stream, not depending on how it was cut. |
| `MmdsServer.UnsettledDependsOnCut` | crates/mmds/src/tcp.rs:161-216 | For every stream that is not settled, cutting it after 16384 and after 16385 bytes gives different calls or answers. |
| `MmdsServer.CuttingMattersIff` | crates/mmds/src/tcp.rs:161-216 | The outcome of in-order delivery is independent of the cutting if and only if the stream is settled. |
| `MmdsServer.RequestIsAnswered` | crates/mmds/src/tcp.rs:161-216 | A rendered request delivered in order in any pieces makes exactly one call, with that request, and gets exactly the handler's response. |
| `MmdsServer.OvertakenRequestIsNotAnswered` | crates/mmds/src/tcp.rs:513-535 | Every rendered request is answered when it arrives in one piece, and never when its closing FIN arrives first. |
| `MmdsServer.OvertakenGetIsNotAnswered` | crates/mmds/src/tcp.rs:513-535 | The same at the input `GET /`. |
| `MmdsServer.ClientsAreIndependent` | crates/mmds/src/tcp.rs:373-435 | Between two SYNs or resets of a client, what the shared server does for it is what a server of its own would do, whatever arrives from others. |
| `MmdsServer.IncarnationServedOnce` | crates/mmds/src/tcp.rs:373-455 | On the shared server, after any SYN and interleaved with any traffic: what that client's incarnation adds to calls and answers is what its whole stream owes if the accepted prefix has a verdict, else nothing. |
| `MmdsServer.IssNeverOverflows` | crates/mmds/src/tcp.rs:437-455 | The wrapping initial sequence number stays a multiple of 2^16, so adding one to it never overflows 32 bits. |
| `MergePatch.MergeInto` | crates/mmds/src/data_store.rs:174-190 | The in-place loop over a patch's members computes the recursive merge function. |
| `MergePatch.MergeIsRfcIff` | crates/mmds/src/data_store.rs:174-190 | The result is that of RFC 7396 exactly when no null lies inside a part of the patch that is copied whole. |
| `MergePatch.IdempotentIff` | crates/mmds/src/data_store.rs:174-190 | Applying a patch twice equals applying it once under exactly the same condition. |
| `MergePatch.SelfMergeKeepsIff` | crates/mmds/src/data_store.rs:174-190 | A document patched with itself is unchanged exactly when it holds no null in object position. |
| `MergePatch.StripKeepsIff` | crates/mmds/src/data_store.rs:174-190 | RFC 7396 leaves a patch over a non-object unchanged exactly when it holds no null in object position. |
| `MergePatch.NestedNullIsCopied` | crates/mmds/src/data_store.rs:174-190 | A concrete patch whose nested null is stored instead of removed. |
| `MergePatch.Mmds.PutJson` | crates/mmds/src/data_store.rs:114-126 | Replaces the document exactly for a parsable body within the cap; otherwise the matching error and no change. |
| `MergePatch.Mmds.PatchJson` | crates/mmds/src/data_store.rs:133-148 | Stores the merge exactly when it fits the cap; otherwise the matching error and no change. |
| `Checksum.OnesSumIsResidue` | crates/mmds/src/pdu.rs:69-86 | Adding with end-around carry word by word equals the plain sum reduced once. |
| `Checksum.OnesComplementSum` | crates/mmds/src/pdu.rs:69-86 | The wrapping 32-bit loop and fold: the result is the complement of the one's-complement sum exactly when the sum did not lose a carry (a stated arithmetic condition). |
| `Checksum.WrapIsHarmlessIff` | crates/mmds/src/pdu.rs:69-86 | That condition for every sum: below 2^32, or a whole number of times 65535 wraps with a non-zero rest. |
| `Checksum.ShortBuffersFit` | crates/mmds/src/pdu.rs:69-86 | Every buffer of at most 131074 bytes is summed without a wrap. |
| `Checksum.LongBufferWraps` | crates/mmds/src/pdu.rs:69-86 | For every greater length, a buffer of that length whose checksum comes out wrong. |
| `Checksum.AllBuffersFitIff` | crates/mmds/src/pdu.rs:69-86 | All buffers of a length are summed right if and only if the length is at most 131074. |
| `Checksum.StoredChecksumVerifies` | crates/mmds/src/pdu.rs:69-86 | For every buffer within that length: storing what the code returns in a zeroed aligned field makes the code return zero on the stored buffer. |
| `Checksum.StoredChecksumFills` | crates/mmds/src/pdu.rs:69-86 | For every buffer, storing the complement of its one's-complement sum in a zeroed aligned field makes the sum 0xFFFF. |
| `Bus.OverlapsIff` | crates/bus/src/range.rs:67-75 | Two ranges overlap exactly when some address is in both. |
| `Bus.MakeRange` | crates/bus/src/range.rs:30-36 | A range is accepted exactly when it is non-empty and its end fits 64 bits; the zero-length error is returned exactly for length zero, the overflow error exactly for the rest. |
| `Bus.FirstOverlap` | crates/bus/src/lib.rs:127-145 | Finds an overlapping entry exactly when there is one. |
| `Bus.PlaceOrdered` | crates/bus/src/lib.rs:127-145 | Inserting a free range keeps the map ordered and disjoint. |
| `Bus.BusBuilder.InsertDevice` | crates/bus/src/lib.rs:127-145 | The builder's result and devices are those of the insertion function; a refusal changes nothing. |
| `Bus.BuildKeepsAll` | crates/bus/src/lib.rs:127-145 | For every sequence of attempts the map is ordered and disjoint and holds exactly the accepted devices: none is lost to a base-only key. |
| `Bus.PredecessorSpec` | crates/bus/src/lib.rs:218-232 | The range query finds the last entry that does not start above the address. |
| `Bus.ResolveIsScan` | crates/bus/src/lib.rs:218-232 | The predecessor lookup gives, for every address, the offset and device a scan of all entries gives. |
| `Gvproxy.RunWriter` | crates/net/src/gvproxy.rs:286-302 | The writer puts each frame behind its 4-byte big-endian length, saturated at 32 bits. |
| `Gvproxy.RoundTrip` | crates/net/src/gvproxy.rs:248-302 | Reading what was written yields exactly the non-empty frames before the first one above the cap, for every cap if the frames fit 32 bits, and for every frames if the cap is below 2^32 - 1. |
| `Gvproxy.OversizedIsCut` | crates/net/src/gvproxy.rs:248-302 | Otherwise: a frame of 2^32 bytes or more is cut after 2^32 - 1 of them and its tail is read as the next header. |
| `Gvproxy.CutYieldsPrefix` | crates/net/src/gvproxy.rs:248-284 | A stream cut anywhere yields a prefix of the frames. |
| `Gvproxy.PushIsLast` | crates/net/src/gvproxy.rs:248-284 | Dropping the oldest when full keeps exactly the last 256 delivered. |
| `Gvproxy.RxQueue.RunReader` | crates/net/src/gvproxy.rs:248-284 | The loop delivers exactly the decoded frames, in order. |
| `Gvproxy.RxQueue.Recv` | crates/net/src/gvproxy.rs:214-216 | Returns the last 256 frames delivered since the previous call, in order, and empties the queue. |
| `Pl011.Pl011.PushRx` | crates/legacy/src/pl011.rs:205-214 | Appends the byte, raises the receive status and recomputes the line. |
| `Pl011.Pl011.ReadRegister` | crates/legacy/src/pl011.rs:243-270 | Every offset's value and effect; a data read pops the oldest byte. |
| `Pl011.Pl011.WriteRegister` | crates/legacy/src/pl011.rs:272-301 | Every offset's effect on mask, status, line and transmitted bytes. |
| `Pl011.LineFollowsStatus` | crates/legacy/src/pl011.rs:205-301 | After every operation sequence the line is mask and status; the status is set only while bytes are queued, and is set then unless it was cleared since the last push. |
| `Pl011.LevelPromiseIff` | crates/legacy/src/pl011.rs:173-177 | The line is high exactly while unmasked bytes are queued, exactly when the status was not cleared by hand since the last push (or the promise is idle). |
| `Pl011.ClearedWhileQueued` | crates/legacy/src/pl011.rs:272-301 | A concrete sequence after which a byte is queued and unmasked and the line is low. |
| `Pl011.QueueIsFifo` | crates/legacy/src/pl011.rs:205-241 | The queue and the transmitted bytes are those of a first-in-first-out reference run; a data read returns the oldest byte. |
| `Pl011.BytesConserved` | crates/legacy/src/pl011.rs:205-235 | Over every run, the bytes pushed are the bytes the device returned for its data reads followed by the bytes still in its queue. |

## Left out

- The Hypervisor.framework backend, the interrupt controller, Mach exception plumbing, vmnet, the HTTP API, the command line and the jailer: glue to interfaces that are not part of the repository's logic.
- Codec libraries (bitcode, serde_json): parameters; where needed, decoding is assumed to undo encoding. The CRC polynomial is a parameter with its top bit set.
- IPv4, TCP and Ethernet header codecs, the address and port filter in front of the TCP server, token checks and the request router: only the segment fields reach the model, and the handler is any function.
- Honest segments: TCP theorems are about segments that carry bytes of one client stream at their sequence positions; a client that sends different bytes for one position is outside them. Streams are shorter than 2^32 - 2 bytes.
- Interleaving inside `mark_dirty` and `tick_adaptive` beyond `StepDownRace`: the fault counters of a window are counted over whole calls.
- Power-loss durability: a crash is a stop between two system calls; `Sync` can fail but its effect on stable storage is not modelled.
- Save.SaveSnapshot: paths are names; the two destinations and their temp files are required to be four different names, and links are not modelled. A full save requires a positive memory page size, without which the source's loop does not end.
- Integer overflow in `body_start + content_length` and in page arithmetic for RAM sizes near 2^64: lengths are unbounded integers.
- Pl011.Pl011.ReadRegister: 32-bit accesses only; access widths and failures of the interrupt line are left out.
- Pager sources other than a file, statistics and logging: they would only add easy members.
- The interrupted-call retry of the file writer: an interrupted write is a write that accepted nothing.
