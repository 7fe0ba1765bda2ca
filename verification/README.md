# NoFS — a Dafny model of gLogger Mini's append-only log layer

NoFS ("NoFileSystem") writes a stream of C strings straight onto the raw
sectors of an SD/MMC card, with no file system. It keeps one sector-sized RAM
buffer (`NOFS_BUFFER_SIZE`, 512 bytes). It commits that buffer to the card
when the buffer fills. It also commits it on every tenth `nofs_writeString`
call (`NOFS_WRITE_BUFFER_AFTER_NTH_COMMAND`), which spares the flash cells.
On start-up `nofs_init` finds the last write position on its own, so no
earlier record is lost. The public surface writes only: it is a
"write-only memory".

The project has four modules:

- `Sdmmc` (`sdmmc.dfy`) is the abstract card. A card is a sequence of
  512-byte sectors plus the set of sectors on which I/O fails.
  `WriteSector` and `ReadSector` have the shapes of `sdmmc_writeSector` and
  `sdmmc_readSector`. Each may succeed or fail, and the `uint8_t` status
  becomes an error kind: `InitializationFailed`, `SectorIoFailed` or
  `PreconditionViolation`. A write is atomic: the whole sector is replaced,
  zero-padded, or nothing changes.
- `NoFS` (`nofs.dfy`) is the layer itself. Its state holds the buffer, the
  fill offset, the call counter and the sector cursor. `Init` performs
  recovery. `Flush` commits the buffer. `PutByte` and `Append` copy bytes
  into the buffer and flush whenever it fills. `WriteString` is
  `nofs_writeString`.
- `LogImage` (`log_image.dfy`) reads the card as a log: the text of each
  committed sector up to its zero padding, in sector order. With it, the
  module proves that no byte is lost or duplicated by a single call.
- `Runs` (`runs.dfy`) covers sequences of calls, before and after a restart.
  It proves byte preservation, the no-overwrite property, batching in tens
  and write-only behaviour, and it works through the start-up scenario.

Modelling conventions, where the header is silent:

- A blank (never-written) sector is all zero bytes.
- Strings are C strings, so they contain no NUL byte.
  - Padding is zeros, so a committed sector holding at least one byte is
    never blank.
  - The text of a sector is its prefix before the first NUL.
- The tenth call commits the buffer only when the buffer holds something.
  An all-zero sector would be read as blank, and recovery would then resume
  too early.
- The buffer is flushed as soon as its 512th byte arrives. A buffer-full
  flush does not reset the call counter.
- The outcome of the driver's `sdmmc_init` is the `cardUp` parameter of
  `Init`.

## Model

| member | source | states |
|---|---|---|
| Sdmmc.WriteSector | src/modules/sdmmc.h:24 | For a `uint16_t` byte count, the write succeeds exactly when the sector exists, the byte count fits in one sector and the sector is not faulty. A failure is `SectorIoFailed` exactly when the arguments were in range. On success only the target sector changes: it holds the given bytes followed by zeros. |
| Sdmmc.ReadSector | src/modules/sdmmc.h:27 | The read succeeds under the same conditions as a write. It returns exactly `count` bytes, and they are the sector's leading bytes. |
| Sdmmc.ReadAfterWrite | src/modules/sdmmc.h:24-27 | A sector read back after a successful write holds exactly the padded bytes that were written. Every other sector reads as it did before. |
| NoFS.Init | src/modules/nofs.h:8-10 | If the card does not come up, the result is `InitializationFailed`. On success the state is empty (no buffered bytes, counter zero) and the cursor is the first blank sector. On a card whose first k sectors are written and the rest blank, the cursor is k. A healthy card always initialises. |
| NoFS.FirstBlankUnique | src/modules/nofs.h:31 | The first blank sector is unique. So every successful `nofs_init` on the same card, however often it is repeated, recovers the same cursor. |
| NoFS.FirstBlankOfLogShaped | src/modules/nofs.h:8-10 | On a card whose first k sectors are written and the rest blank, the first blank sector is k. |
| NoFS.CommittedSectorNotBlank | src/modules/nofs.h:8-10 | A committed sector holding at least one string byte is never blank, so recovery always sees it as written. |
| NoFS.Flush | src/modules/nofs.h:23-24 | A flush succeeds exactly when the cursor sector is writable. It commits exactly one sector at the cursor, holding the buffered bytes zero-padded to 512. It leaves every other sector as it was, then advances the cursor by one and empties the buffer. |
| NoFS.PutByte | src/modules/nofs.h:23-24 | When the buffer is not yet full, the card is untouched and the byte is appended to the pending bytes. When the byte fills the buffer, the 512 pending bytes are committed at the cursor (never a blank sector), the cursor advances by one and the buffer empties. In both cases the fill offset stays below 512. |
| NoFS.Append | src/modules/nofs.h:23-24 | Copying a string of any length succeeds exactly when every sector it fills is writable. The cursor advances by the number of sectors filled, and the fill offset ends as the remainder modulo 512. The call counter is untouched. A string that does not fill the buffer leaves the card unchanged. |
| NoFS.AppendCommitsOnly | src/modules/nofs.h:23-24 | Copying a string changes only the sectors between the old and the new cursor, and every one of them ends up non-blank. |
| NoFS.WriteString | src/modules/nofs.h:25-26 | A call succeeds exactly when every sector it commits is writable. The counter advances modulo 10. The cursor advances by the sectors that fill up, plus one on the tenth call when bytes are pending. The buffer is empty after the tenth call, and the fill offset stays below 512. The layer's invariant (fill offset below 512, counter below 10, no NUL buffered) holds after every call. |
| NoFS.WriteStringCommitsOnly | src/modules/nofs.h:33 | A call changes only the sectors between the old and the new cursor, and leaves each of them non-blank. |
| LogImage.Payload | src/modules/nofs.h:8-10 | The text read back from a sector is a prefix of it, free of NUL, and ends at a zero byte or at the end of the sector. |
| LogImage.PayloadOfPad | src/modules/nofs.h:23-24 | A committed sector gives back exactly the bytes that were committed. The padding is never read as text, and no text is cut. |
| LogImage.FlushKeepsEveryByte | src/modules/nofs.h:23-24 | A flush appends exactly the buffered bytes to the log on the card. |
| LogImage.PutByteKeepsEveryByte | src/modules/nofs.h:23-24 | Buffering one byte grows log plus pending by exactly that byte. |
| LogImage.AppendKeepsEveryByte | src/modules/nofs.h:23-24 | Copying a string of any length grows log plus pending by exactly that string. This holds even when the string spans several sectors. |
| LogImage.WriteStringKeepsEveryByte | src/modules/nofs.h:33 | One `nofs_writeString` call grows log plus pending by exactly its string. |
| Runs.Run | src/modules/nofs.h:33 | A sequence of calls keeps the layer's invariant. It never moves the cursor backwards and never moves it past the end of the card, so the cursor always fits a `uint32_t` sector number. It never changes the card's size or its faulty sectors. |
| Runs.RunKeepsEveryByte | src/modules/nofs.h:33 | Over any sequence of calls, log plus pending grows by exactly the concatenation of the strings, in order. |
| Runs.NoByteLostOrDuplicated | src/modules/nofs.h:8-10 | After start-up at cursor k and any sequence of successful calls, two things concatenate to exactly the strings passed: the texts of sectors k up to the cursor, and the pending buffer. |
| Runs.WriteStringKeepsLogShape | src/modules/nofs.h:8-10 | One call keeps the card in the shape "written up to the cursor, blank beyond", and changes no sector that was already written. |
| Runs.RunNeverOverwrites | src/modules/nofs.h:8-10 | Over any sequence of calls the cursor never decreases. The card stays written up to the cursor and blank beyond, and no sector that was already written is ever changed. |
| Runs.RestartResumesAtCursor | src/modules/nofs.h:8-10 | After a run, recovery on the resulting card finds exactly the cursor where the run stopped. |
| Runs.ContinuedRun | src/modules/nofs.h:8-10 | A run started at the recovered cursor leaves every written sector intact. It extends the log after it without a gap. |
| Runs.RestartNeverOverwrites | src/modules/nofs.h:8-10 | Across a restart no sector written by the earlier run is overwritten. The texts from the first start-up sector onwards, plus what is still buffered, are the text the first run committed followed by every string of the second run. |
| Runs.QuietCall | src/modules/nofs.h:25-26 | A call that is not the tenth and does not fill the buffer writes nothing. It only appends its string to the buffer and counts itself. |
| Runs.QuietCalls | src/modules/nofs.h:25-26 | With no buffer-full flush, the calls before the tenth write nothing to the card. |
| Runs.LastCallCommits | src/modules/nofs.h:25-26 | The tenth call, when it does not fill the buffer, commits exactly one sector holding everything buffered so far. It resets the counter and empties the buffer. |
| Runs.TenthCallCommitsOnce | src/modules/nofs.h:25-26 | Ten calls in a row with no buffer-full flush cause exactly one sector write, holding all ten strings in order. The counter then starts over. |
| Runs.AppendFillsSector | src/modules/nofs.h:23-24 | A string that exactly fills the remaining buffer commits one sector holding the buffered text and that string. The buffer is left empty. |
| Runs.ExactFitCommitsOnce | src/modules/nofs.h:23-26 | Any call whose string exactly fills the remaining buffer space, the tenth call included, triggers exactly one flush holding the buffered text and the string. It leaves the buffer empty and advances the counter modulo 10. |
| Runs.AppendIgnoresCardContents | src/modules/nofs.h:10-12 | What copying a string reports, and the layer's state after it, do not depend on what the card holds. |
| Runs.WriteStringIgnoresCardContents | src/modules/nofs.h:10-12 | Neither the status of `nofs_writeString` nor the layer's state after it depends on the contents of the card. So the operation cannot return earlier log content. |
| Runs.RunIgnoresCardContents | src/modules/nofs.h:31-33 | Over any sequence of calls, what the layer reports and keeps is independent of the card's contents. |
| Runs.OneThenNineBytes | src/modules/nofs.h:25-26 | Consider a card whose sectors are all blank. Recovery starts at sector 0. Any string followed by eight one-byte strings leaves the card untouched. A ninth one-byte string, the tenth call, commits sector 0 holding the string and the nine bytes, zero-padded, and moves the cursor to 1. |
| Runs.HelloScenario | src/modules/nofs.h:25-26 | Consider a card whose sectors are all blank. Recovery starts at sector 0. "hello" and eight one-byte strings leave the card untouched. The tenth call commits sector 0 holding "hello123456789" followed by zeros, and the cursor moves to 1. |

## Left out

- `sdmmc_init`, `sdmmc_writeCommand` and everything below the sector interface are not modelled. This covers SPI transfers, chip select, command framing, checksums, handshakes and polling loops. A card that fails to start is the `cardUp` flag of `NoFS.Init`. A sector on which I/O does not complete is a member of the card's faulty set.
- `global.h`, `protocols/spi.h`, timing primitives and the GPS logging application are not part of this model. They are hardware-bound or outside the log layer.
- The C implementation of `nofs_init` and `nofs_writeString` is not part of this model. Only their declarations and the header's constants and comments are. Where the header is silent, the modelling conventions listed above fill the gaps.
- NoFS.Init: the contract states only that the cursor is the first blank sector. The body scans linearly, but no particular scan strategy (linear or accelerated) is claimed.
- NoFS.WriteString: a failed call returns only the error kind and no state. Nothing is claimed about keeping or retrying the buffer after a failed sector write, because the header gives no policy beyond the status code.
- NoFS.Flush: likewise, a failed flush returns only `SectorIoFailed` or `PreconditionViolation`, with no state after the failure.
- The blank-sector pattern (all zero) is a modelling choice. So is skipping an empty commit on the tenth call. Neither is fixed by the header.
- The cursor is an unbounded natural number, and wrap-around of the `uint32_t` sector number is not modelled. A valid card has fewer than 2^32 sectors, and the cursor never passes the end of the card, so the cursor always fits in 32 bits. A card of exactly 2^32 sectors is outside the model. On such a card, once every sector is written, the cursor would reach 2^32, which a `uint32_t` truncates to sector 0.
- After a failed `nofs_init`, the firmware must not log. The model enforces this because there is no state on which to call `WriteString`, so bus traffic after that point is not modelled.
