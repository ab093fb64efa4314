# simplerdb storage kernel, modelled in Dafny

This project models the storage kernel of simplerdb, a SimpleDB-style
database written in Rust. It covers three parts.

- **The byte codec (`ByteBuffer`).** A fixed-length byte vector with a
  cursor. It reads and writes 8-byte big-endian integers and raw byte
  slices, both at an absolute offset and at the cursor.
- **The write-ahead log (`LogManager`).** The log lives in one file of
  fixed-size blocks. The current block is mirrored by an in-memory page.
  - The page's first 8 bytes, the boundary, hold the offset of the newest
    record.
  - Records are packed backward from the end of the page, each as an 8-byte
    length followed by its payload.
  - A record that does not fit flushes the page, appends a fresh block and
    restarts the page with the boundary set to the block size.
  - Two counters follow the log: `latest_lsn`, the last LSN handed out, and
    `last_saved_lsn`, the last one known to be on disk.
- **The buffer pool (`BufferManager` and `Buffer`).** A fixed pool of
  buffers. Each has a page, an optional block, a pin count, an optional LSN
  and an optional stamp of the transaction that modified it. The manager
  counts the unpinned buffers in `available` and can flush every buffer one
  transaction modified.

Every object the source updates in place is a Dafny `class`: `ByteBuffer`,
`Page`, `FileManager`, `LogManager`, `Buffer` and `BufferManager`. Four of
them have the source's fields. `Page` and `FileManager` differ, because
their source is unimplemented (see "## Left out"). Each method is proved
against a pure state-transition function on values, and the source's
promises are proved as lemmas about those functions:

- `WriteInt`, `Splice` and `WriteBytes` for the codec;
- `AppendLog`, `Rollover`, `FlushLog` and `FlushLogWithLsn` for the log;
- `FlushBuffer`, `AssignResult`, `PinResult` and `FlushMatching` for the
  pool.

The disk is a map from file name to a sequence of blocks. The kernel reaches
it only through `FileManager`. Two fault sets are parameters of the file
manager:

- blocks whose writes fail;
- files that cannot grow.

They let every I/O error path of the source be stated and proved.

Module layout, one file per module:

| file | module |
|---|---|
| errors.dfy | `Errors` |
| byte_buffer.dfy | `ByteBuffers` |
| page.dfy | `Pages` |
| file_manager.dfy | `Files` |
| log_manager.dfy | `LogManagers` |
| buffer.dfy | `Buffers` |
| buffer_manager.dfy | `BufferManagers` |
| log_scenario.dfy | `LogScenario` |
| buffer_scenario.dfy | `BufferScenario` |

The two scenario modules restate the repository's own log and buffer tests
as lemmas.

Two facts about the code shape the model:

- `FileManager::length` is used as a number of blocks: `LogManager::new`
  takes `log_size - 1` as a block number (src/log_manager.rs:22-23).
- A page stores a byte string or a string as an 8-byte length prefix followed
  by the bytes. The log test's hex dump shows this layout
  (src/log_manager.rs:148-149).

## Model

| member | source | states |
|---|---|---|
| ByteBuffers.FromToBigEndian | src/byte_buffer.rs:47 | Decoding the n-byte big-endian form of v gives v modulo 256^n. |
| ByteBuffers.ToFromBigEndian | src/byte_buffer.rs:47 | Encoding the value that a byte string decodes to gives back that byte string. |
| ByteBuffers.DecodeEncodeInt | src/byte_buffer.rs:69 | `from_be_bytes(to_be_bytes(v)) == v` for every u64. |
| ByteBuffers.EncodeDecodeInt | src/byte_buffer.rs:47 | Any 8 bytes are the encoding of the integer they decode to, so the codec is a bijection. |
| ByteBuffers.Splice | src/byte_buffer.rs:73-74 | After `copy_from_slice` at an offset, the range holds exactly the new bytes, every other byte is unchanged and the length is kept. |
| ByteBuffers.ReadWriteInt | src/byte_buffer.rs:68-71 | An integer written at o reads back at o. The length is kept and every byte outside [o, o+8) is unchanged. |
| ByteBuffers.ReadIntAfterSplice | src/byte_buffer.rs:73-76 | A write that does not overlap an integer leaves that integer's value unchanged. |
| ByteBuffers.ByteBuffer.constructor | src/byte_buffer.rs:28-30 | `new` takes the bytes over unchanged, with the cursor at 0. |
| ByteBuffers.ByteBuffer.Contents | src/byte_buffer.rs:32-35 | `contents` resets the cursor to 0, changes no byte and lends out the buffer's own storage. |
| ByteBuffers.ByteBuffer.Bytes | src/byte_buffer.rs:37-39 | `bytes` returns the whole content and changes nothing. |
| ByteBuffers.ByteBuffer.GetInt | src/byte_buffer.rs:43-48 | Returns the big-endian integer at the old cursor and advances the cursor by 8. |
| ByteBuffers.ByteBuffer.GetIntWithOffset | src/byte_buffer.rs:50-55 | Returns the integer at the offset and leaves the cursor at offset + 8. |
| ByteBuffers.ByteBuffer.GetBytes | src/byte_buffer.rs:57-61 | Returns the len bytes at the old cursor and advances the cursor by len. |
| ByteBuffers.ByteBuffer.GetBytesWithOffset | src/byte_buffer.rs:63-66 | Returns bytes [offset, offset+len) and leaves the cursor at offset + len. |
| ByteBuffers.ByteBuffer.SetIntWithOffset | src/byte_buffer.rs:68-71 | The new content is the old one with the integer's encoding at the offset; the cursor is at offset + 8. |
| ByteBuffers.ByteBuffer.SetBytesWithOffset | src/byte_buffer.rs:73-76 | The new content is the old one with the slice at the offset; the cursor is at offset + len. |
| ByteBuffers.ByteBuffer.SetInt | src/byte_buffer.rs:78-82 | Writes the encoding at the old cursor and advances the cursor by 8. |
| ByteBuffers.ByteBuffer.SetBytes | src/byte_buffer.rs:84-89 | Writes the slice at the old cursor and advances the cursor by its length. |
| ByteBuffers.ByteBuffer.CopyFromSlice | src/byte_buffer.rs:74 | The element-by-element copy gives exactly the spliced content. |
| Pages.EncodeBytes | src/log_manager.rs:148-149 | A stored byte string is its 8-byte big-endian length followed by the bytes, `max_length(len)` = len + 8 bytes in all. |
| Pages.ReadWriteBytes | src/log_manager.rs:60 | A byte string written at an offset reads back from there. No byte outside its prefix and payload changes. |
| Pages.AsciiBytes | src/log_manager.rs:110 | A string is stored as one byte per character. |
| Pages.Page.constructor | src/log_manager.rs:20 | `Page::new(blocksize)` is a zero-filled page of exactly blocksize bytes. |
| Pages.Page.GetInt | src/page.rs:8-10 | Reads the integer at the offset. |
| Pages.Page.SetInt | src/page.rs:20-22 | Stores the integer at the offset; nothing else changes. |
| Pages.Page.GetBytes | src/page.rs:12-14 | Reads the length prefix at the offset, then that many bytes. |
| Pages.Page.SetBytes | src/page.rs:24-26 | Stores the length prefix and then the bytes at the offset. |
| Pages.Page.SetString | src/page.rs:28-30 | Stores a string as the byte string of its characters. |
| Pages.Page.GetString | src/page.rs:16-18 | Reads the byte string at the offset as a string of one character per byte. |
| Pages.BytesString | src/page.rs:16-18 | The string read from a byte string has the same length, and character i has the code of byte i. |
| Pages.StringRoundTrip | src/page.rs:16-30 | An ASCII string stored with `set_string` reads back unchanged with `get_string`. |
| Files.PutBlock | src/file_manager.rs:22-24 | Block n holds the data and every other block is unchanged. A write past the end fills the gap with zero blocks. |
| Files.WriteResult | src/file_manager.rs:22-24 | A write fails with an I/O error exactly on a faulty block and then changes nothing. Otherwise the block holds the data, other blocks and files are unchanged, and files never shrink. |
| Files.AppendResult | src/file_manager.rs:26-28 | Appending fails exactly on a file that cannot grow. Otherwise it adds one zero block at index = old block count and returns that block. |
| Files.ReadAfterWrite | src/file_manager.rs:18-24 | A block reads back as written, and a different block is unaffected. |
| Files.FileManager.constructor | src/simpledb.rs:15 | The file manager starts on the given disk, block size and fault sets. |
| Files.FileManager.Length | src/file_manager.rs:34-36 | `length` is defined exactly when the file exists, and is then its number of blocks. |
| Files.FileManager.Read | src/file_manager.rs:18-20 | Succeeds exactly when the block exists, then fills the page with it. A missing block is a corruption error. |
| Files.FileManager.Write | src/file_manager.rs:22-24 | Performs exactly the `WriteResult` transition on the page's bytes. |
| Files.FileManager.Append | src/file_manager.rs:26-28 | Performs exactly the `AppendResult` transition. |
| LogManagers.WellFormedOnGrownDisk | src/buffer_manager.rs:31 | Writes by other components, such as a buffer flushing a data page, keep the log well-formed, because files never shrink. |
| LogManagers.FlushLog | src/log_manager.rs:67-71 | On success, the page is in the current block and saved = latest, with nothing else changed. On failure, the state is unchanged, with an I/O error. Files other than the log's are never touched. |
| LogManagers.FlushLogWithLsn | src/log_manager.rs:73-83 | For lsn <= saved it does nothing and succeeds. On success, lsn is saved or everything is. Page, block and latest never change, and saved only moves forward. |
| LogManagers.PlaceRecord | src/log_manager.rs:58-64 | Returns Ok(latest + 1) and changes only the page and latest. The page holds the record just below the boundary, with the header pointing at it. |
| LogManagers.PlaceKeepsLog | src/log_manager.rs:58-64 | Placing a record that fits below the boundary keeps the log state well-formed. |
| LogManagers.RecordBelowHeader | src/log_manager.rs:58-61 | After placing a record, the header is rec_pos = boundary - (len + 8). The record reads back from rec_pos unless it overlaps the header, and no other byte past the header changes. |
| LogManagers.HeaderKeepsRecord | src/log_manager.rs:60-61 | Rewriting the header leaves a record stored past it readable, with the same bytes. |
| LogManagers.Rollover | src/log_manager.rs:51-56 | Fails only with an I/O error. On success, the old block holds the old page, one block is appended, the header is reset to blocksize with the rest of the page unchanged, saved = latest, and the page is written to the new block. |
| LogManagers.AppendLog | src/log_manager.rs:43-65 | Keeps the log well-formed. On success it returns latest = old latest + 1. On failure latest is unchanged and the error is an I/O error. |
| LogManagers.AppendInPlace | src/log_manager.rs:48-61 | Without rollover (boundary >= len + 16), the append succeeds and touches neither the disk, the block nor saved. The record lies at rec_pos as the 8-byte length followed by the payload, and the header becomes rec_pos. |
| LogManagers.AppendRollover | src/log_manager.rs:51-61 | When boundary < len + 16, a successful append saves the page in the old block and moves to block = old block count, whose page is the reset one. The record goes just below blocksize, and the bytes below it keep the previous block's stale contents. |
| LogManagers.AppendBoundary | src/log_manager.rs:51-61 | After a successful append, boundary + len + 8 <= blocksize and the boundary is the one `NextBoundary` computes. When len + 16 <= blocksize, also 8 <= boundary, so the record never overlaps the header. |
| LogManagers.AppendAll | src/log_manager.rs:105-114 | Appending records one after another keeps the log well-formed and gives one result per record. |
| LogManagers.AppendAllLsn | src/log_manager.rs:63-64 | N appends end at latest = initial + (number of successes). When all succeed, the i-th returns initial + i + 1. |
| LogManagers.LogManager.constructor | src/log_manager.rs:19-40 | Both LSNs start at 0. An existing log continues in its last block, whose contents become the page, and the disk is unchanged. Otherwise block 0 is appended and written with header = blocksize. |
| LogManagers.LogManager.Append | src/log_manager.rs:43-65 | Performs exactly the `AppendLog` transition, including the partial effects of a failed rollover. |
| LogManagers.LogManager.Place | src/log_manager.rs:58-64 | Performs exactly the `PlaceRecord` transition. |
| LogManagers.LogManager.RollOver | src/log_manager.rs:51-56 | Performs exactly the `Rollover` transition. |
| LogManagers.LogManager.Flush | src/log_manager.rs:67-71 | Performs exactly the `FlushLog` transition. |
| LogManagers.LogManager.FlushWithLsn | src/log_manager.rs:73-83 | Performs exactly the `FlushLogWithLsn` transition; nothing is written when lsn <= saved. |
| LogScenario.Digits | src/log_manager.rs:107 | The decimal form of n is ASCII: one digit below 10, two below 100. |
| LogScenario.TestRecord | src/log_manager.rs:107-111 | The test's record `recordN` followed by the integer N + 100 is 23 bytes for N < 10 and 24 bytes otherwise. |
| LogScenario.TestRecords | src/log_manager.rs:105-106 | Element i is record from + i. |
| LogScenario.NeededTest | src/log_manager.rs:116 | The first n of 13 such records take 31 bytes each up to 9 records, then 32 bytes each. |
| LogScenario.InPlaceRun | src/log_manager.rs:48-61 | Records that fit below the boundary together all succeed in place. The boundary drops by the bytes they take, and the disk, block and saved LSN stay as they were. |
| LogScenario.FreshLog | src/log_manager.rs:26-31 | A new log on an empty disk of 400-byte blocks is one block whose header is 400. |
| LogScenario.FirstTwelve | src/log_manager.rs:116 | record1..record12 fill block 0 down to boundary 25 without touching the disk. |
| LogScenario.FirstRollover | src/log_manager.rs:51-56 | The rollover out of block 0 saves the page there and starts block 1 with header 400. |
| LogScenario.PlaceAtEnd | src/log_manager.rs:58-61 | record13 on the fresh page of block 1 lands at 368 (0x170), becomes the header and reads back from there. |
| LogScenario.LastAppend | src/log_manager.rs:150 | record13 does not fit above 25: it gets LSN 13 in block 1 at 368. |
| LogScenario.FinalFlush | src/log_manager.rs:118 | `flush_with_lsn(20)` writes block 1 and saves LSN 13. |
| LogScenario.ThirteenAppends | src/log_manager.rs:116 | The thirteen appends return LSNs 1..13 and end in block 1 with header 368. |
| LogScenario.LogRun | src/log_manager.rs:101-176 | After the test's appends and flush, the file has 2 blocks of 400 bytes. Block 0's header is 25 (0x19), block 1's is 368 (0x170), record13 reads back at 368, and every append succeeded with LSN i. |
| LogScenario.ShapedFit | src/log_manager.rs:103 | Every test record fits on a 400-byte page. |
| LogScenario.LogTest | src/log_manager.rs:116 | The actual records record1..record13 have the lengths `LogRun` assumes. |
| LogScenario.AppendFaultFree | src/log_manager.rs:43-65 | Without faulty blocks or full files, every append that fits a page succeeds. |
| Buffers.FlushBuffer | src/buffer_manager.rs:31 | An unstamped buffer is left alone. Otherwise the log is first forced up to the buffer's LSN (write-ahead), then the page goes to its block and the stamp is cleared. Any error leaves the buffer unchanged, with an I/O error, and every file but the log's unchanged on disk. |
| Buffers.FlushBufferKeeps | src/buffer_manager.rs:31 | Flushing a buffer writes only its own block and the log's current block. Every other block outside the log file keeps its contents. |
| Buffers.FlushBufferKeepsLog | src/buffer_manager.rs:31 | Flushing a buffer keeps the log well-formed. |
| Buffers.AssignResult | src/buffer_manager.rs:55-57 | Assigning a buffer first flushes it. On success it holds the block read from disk, unpinned and unstamped. A failed read leaves it on its old block; a missing block is a corruption error. |
| Buffers.Buffer.constructor | src/buffer.rs:14-23 | `Buffer::new` has a zero page of the block size, no block, no pins, no LSN and no transaction stamp. |
| Buffers.Buffer.Pin | src/buffer.rs:7 | One pin more; nothing else changes. |
| Buffers.Buffer.Unpin | src/buffer_manager.rs:35 | Requires a pin; one pin less and nothing else changes. |
| Buffers.Buffer.SetModified | src/buffer.rs:8-9 | Stamps the transaction. The LSN changes only when a log record is given. |
| Buffers.Buffer.Flush | src/buffer_manager.rs:31 | Performs exactly the `FlushBuffer` transition on the log, the disk and the buffer. |
| Buffers.Buffer.AssignToBlock | src/buffer.rs:6 | Performs exactly the `AssignResult` transition. |
| BufferManagers.FreeCount | src/buffer_manager.rs:5 | The number of unpinned buffers is at most the pool size. |
| BufferManagers.FreeCountUpdate | src/buffer_manager.rs:34-41 | Replacing one buffer changes the free count only by that buffer's own contribution. |
| BufferManagers.FreeCountPins | src/buffer_manager.rs:5 | The free count depends on pin counts only. |
| BufferManagers.FreeCountZero | src/buffer_manager.rs:64 | No buffer is available exactly when every buffer is pinned; both directions are proved. |
| BufferManagers.FreeCountAll | src/buffer_manager.rs:9-20 | A pool with nothing pinned is all available. |
| BufferManagers.FindBlock | src/buffer_manager.rs:61-62 | Finds the first buffer holding the block, and none before it holds it. None means no buffer holds it. |
| BufferManagers.FirstUnpinned | src/buffer_manager.rs:64 | Finds the first unpinned buffer, with every buffer before it pinned. None means all are pinned. |
| BufferManagers.PinResult | src/buffer_manager.rs:50-76 | `pin` keeps the pool size and the stamp invariant. On success the returned buffer holds the block and is pinned, and every other buffer is unchanged. |
| BufferManagers.PinLoadedResult | src/buffer_manager.rs:55-57 | For an absent block, the pin's outcome is the first free buffer's assignment, pinned once if that succeeded. |
| BufferManagers.PinResident | src/buffer_manager.rs:61-62 | A block already in the pool is pinned again in its buffer, with no I/O and no free buffer needed. |
| BufferManagers.PinExhausted | src/buffer_manager.rs:64 | A pin fails for want of buffers exactly when the block is absent and every buffer is pinned, and then changes nothing. |
| BufferManagers.PinMiss | src/buffer_manager.rs:68 | A block newly pinned went to the first unpinned buffer. It now has one pin, no stamp and the block's bytes as on disk. |
| BufferManagers.PinKeepsPool | src/buffer_manager.rs:50-76 | Pinning keeps every block in at most one buffer. It uses up one available buffer exactly when it pins a free one. |
| BufferManagers.FlushMatching | src/buffer_manager.rs:22-32 | `flush_all` keeps the pool size. What it writes and leaves alone is stated by `FlushMatchingWrites`, `FlushMatchingKeeps`, `FlushMatchingFrame`, `FlushMatchingLog` and `FlushMatchingStop`. |
| BufferManagers.FlushMatchingFrame | src/buffer_manager.rs:28-31 | `flush_all(txnum)` changes only stamps, and only those of buffers stamped by txnum. Every other buffer is untouched, and on success no buffer is left stamped by txnum. |
| BufferManagers.FlushMatchingLog | src/buffer_manager.rs:22-32 | `flush_all` fails only with an I/O error. It never changes the log's page, block or latest LSN, and the saved LSN only moves forward. |
| BufferManagers.FlushMatchingStop | src/buffer_manager.rs:31 | A failed `flush_all` stopped at a buffer stamped by txnum and left that buffer unchanged. Every matching buffer before it was flushed, and none after it was touched (`try_for_each`). |
| BufferManagers.FlushMatchingKeeps | src/buffer_manager.rs:28-31 | `flush_all` writes only the blocks of the buffers it flushes and the log's current block. Any other block outside the log file keeps its contents. |
| BufferManagers.FlushMatchingWrites | src/buffer_manager.rs:22-32 | After a successful `flush_all(txnum)`, every buffer txnum stamped has its page on disk in its block, and the log is saved up to that buffer's LSN (or entirely). This is the write-ahead rule for the whole pool, given distinct blocks and no pool buffer on a log block. |
| BufferManagers.FlushWalkStep | src/buffer_manager.rs:28-31 | One step of the walk either ends it with the visited buffer's error or leaves the rest to the following buffers. |
| BufferManagers.RepinKeepsPool | src/buffer_manager.rs:34-41 | Changing one pin count keeps the stamps and distinct blocks. |
| BufferManagers.ReblockKeepsPool | src/buffer_manager.rs:55-57 | Giving a buffer a block no other buffer holds keeps the pool invariants and the free count. |
| BufferManagers.RestampKeepsPool | src/buffer_manager.rs:31 | Changing one stamp keeps the pool invariants and the free count. |
| BufferManagers.ModifyKeepsPool | src/buffer.rs:8-9 | Stamping one buffer with a transaction and an LSN keeps the stamp invariant, the distinct blocks and the free count. |
| BufferManagers.BufferManager.constructor | src/buffer_manager.rs:9-20 | `new(n)` makes exactly n separate, freshly constructed buffers, all unpinned, with available = n. |
| BufferManagers.BufferManager.Unpin | src/buffer_manager.rs:34-41 | One pin less on the buffer. available rises by 1 exactly when the pins reach 0, and the pool invariants are kept. |
| BufferManagers.BufferManager.SetModified | src/buffer.rs:8-9 | Stamps buffer `index` with the transaction, and with the LSN when one is given. Nothing else in the pool changes, and `available` and the pool invariants are kept, so `flush_all` can follow. |
| BufferManagers.BufferManager.FindExistingBuffer | src/buffer_manager.rs:61-62 | Finds the buffer holding the block, as `FindBlock` does. |
| BufferManagers.BufferManager.ChooseUnpinnedBuffer | src/buffer_manager.rs:64 | Finds the first unpinned buffer, as `FirstUnpinned` does. |
| BufferManagers.BufferManager.VisitAt | src/buffer_manager.rs:28-31 | Flushes buffer i if txnum stamped it and leaves the rest of the pool alone. |
| BufferManagers.BufferManager.FlushAll | src/buffer_manager.rs:22-32 | Performs exactly the `FlushMatching` transition on the log, the disk and the pool, keeping the pool invariants. |
| BufferManagers.BufferManager.PinBuffer | src/buffer_manager.rs:61-62 | One pin more. available drops by 1 exactly when the buffer was free. |
| BufferManagers.BufferManager.LoadBuffer | src/buffer_manager.rs:55-57 | Performs the `AssignResult` transition on a free buffer for an absent block. |
| BufferManagers.BufferManager.PinLoaded | src/buffer_manager.rs:68 | Assigns the free buffer, then pins it if that succeeded. |
| BufferManagers.BufferManager.PinAbsent | src/buffer_manager.rs:64-68 | For an absent block, performs exactly the `PinResult` transition, including failure when all buffers are pinned. |
| BufferManagers.BufferManager.Pin | src/buffer_manager.rs:50-76 | Performs exactly the `PinResult` transition on the log, the disk and the pool. |
| BufferScenario.FlushClean | src/buffer_manager.rs:30 | A buffer that no transaction stamped is flushed without effect. |
| BufferScenario.PinFresh | src/buffer_manager.rs:55-57 | An absent block goes to the first free, unstamped buffer, with one pin and the disk block's bytes. |
| BufferScenario.Unpinned | src/buffer_manager.rs:34-41 | The pool with one pin less on one buffer. |
| BufferScenario.FillPool | src/buffer_manager.rs:55-57 | In a pool of 3, pinning blocks 0, 1 and 2 gives buffers 0, 1 and 2, each with one pin. |
| BufferScenario.Repin | src/buffer_manager.rs:59-68 | After unpinning buffer 1, block 0 and block 1 are pinned again in their buffers and block 3 fails with the pool unchanged. After unpinning buffer 2, block 3 gets buffer 2. |

## Left out

- src/page.rs and src/file_manager.rs are unimplemented in the repository, and their signatures disagree with their callers. For example, `Page::get_int` returns `i64` where the log reads a `u64`:
  - `Page` is modelled after its use by the log, with a `ByteBuffer` inside and byte strings stored with a length prefix.
  - `FileManager` is modelled as a map from file name to blocks. Directories, file handles, `is_new` and clean-up of temporary files are not modelled.
- Disk I/O is replaced by that map:
  - Write failures and failures to extend a file are the fault sets `faulty` and `full` of the file manager, given as parameters.
  - A read of a block that does not exist is a corruption error. The buffer scenario therefore assumes a `testfile` of at least four blocks.
- `Buffer::pin`, `Buffer::unpin`, `Buffer::flush`, `Buffer::set_modified`, assignment of a buffer to a block, and `BufferManager::pin` do not appear in the repository. They follow the SimpleDB design the pool's fields and its test are made for:
  - a modified buffer forces the log up to its LSN before it writes its page;
  - assignment flushes the old contents, then reads the new block, and a failed read leaves the buffer on its old block;
  - `pin` reuses a resident buffer, else takes the first unpinned one, else fails with an exhaustion error.
- BufferManagers.BufferManager.SetModified: requires the buffer to hold a block, as the design modifies only a buffer pinned to a block; there is no `set_modified` in the repository to say otherwise.
- BufferManagers.FlushMatchingWrites: assumes that no pool buffer holds a block of the log file, the separation the log and the buffer pool keep by design. Without it, a later log flush could overwrite a flushed data page.
- `BufferManager::unpin` takes the buffer's index in the pool instead of a reference to the buffer.
- `Iterator::next` of `LogManager` is `todo!()` and is not modelled.
- The `Debug` formatter of `ByteBuffer` and the `println!` in `set_bytes` are output only and are not modelled.
- Pages.Page.SetString: requires an ASCII string, though `set_string` takes any `&str`. Stores one byte per character; UTF-8 encoding of other characters is not modelled.
- Pages.StringRoundTrip: proved for ASCII strings only, because the model's string codec is one byte per character and does not model UTF-8.
- Pages.Page.GetString: maps each byte to the character with that code. It agrees with the UTF-8 decoding of `&str` only on ASCII text, which is all the kernel stores.
- There is no concurrency in the source: no locks, waits or timeouts.
- Panics are preconditions instead of modelled behaviour. This covers `.unwrap()`, slices past the end and u64 underflow of `boundary - bytes_needed` or `log_size - 1`.
- LogManagers.LogManager.constructor: requires an existing log to have at least one block, and its last block to hold a header no larger than the block size. It also requires a new log's file to be extensible and its block 0 writable. The source panics on an `unwrap` in the other cases, and a header past the block size makes a later append write outside the page.
- LogManagers.AppendLog: requires len + 8 <= blocksize. A longer record underflows `boundary - bytes_needed` in the source, even right after a rollover.
- LogManagers.AppendBoundary: 8 <= boundary is proved only for records with len + 16 <= blocksize. A record of blocksize - 15 to blocksize - 8 bytes always rolls over, and is then placed below offset 8. The header written after it overwrites its length prefix.
- LogManagers.LogManager.Append: `latest_lsn` and `last_saved_lsn` are unbounded naturals, so the u64 wrap-around after 2^64 - 1 appends is not modelled.
- LogScenario.LogRun: states the block count, block sizes, both headers, the LSNs and the last record read back. It does not state the full 800-byte hex dump.
- BufferScenario.Repin: states which buffers the pins get, their pin counts and the exhaustion error. The log, the disk and the data pages of the scenario are not stated.
- src/simpledb.rs only wires the three constructors together, with the log file `logfile`. The scenarios build those states directly.
