# Shared-page message log of `log_test` (Dafny model)

`user/log_test.c` runs a multi-process log over one shared 4096-byte page.
Each child is a producer. It builds messages of three shapes, chosen by
`i % 3`, and appends each one as a record. A record is a 32-bit header
(child index in the high 16 bits, payload length in the low 16) followed by
the payload, padded to a 4-byte boundary.

To write a record, a child scans from offset 0. It claims the first zero
header word with a compare-and-swap and copies the payload behind it. It
skips each occupied slot by that slot's declared length. A message that does
not fit ends the child's run (`goto child_exit`). The parent is the single
consumer. It makes repeated passes from offset 0. A pass steps over zero
words, reads each record it meets and clears that record's header to 0. It
stops at the first non-zero header whose payload would not fit, so nothing
behind that header is read in that pass. The parent stops after 100 passes
in a row that read nothing.

The model follows the program's structure, one module per concern:

- `Memory` (`memory.dfy`): the page as a sequence of bytes.
  - Little-endian word load and store.
  - Byte-range stores.
  - `align_addr`.
  - A count of the non-zero bytes, which bounds the consumer's progress.
- `Header` (`header.dfy`): packing and unpacking the header word, with the
  16-bit truncations written out.
- `CStrings` (`cstring.dfy`): C strings and `copy_string`, as a method over
  arrays.
- `Messages` (`messages.dfy`): the three message builders.
  - Each advances a cursor through its `temp` array, as imperative methods.
  - `Text` and `Message` are the functions those methods are proved against.
- `Producer` (`producer.dfy`): `child_process`.
  - The methods: `CompareAndSwap`, the payload copy, the claim loop of one
    message (`WriteMessage`) and the whole run (`RunChild`).
  - Each is proved against a function: `ClaimScan`, `WriteRecord` or
    `ChildRun`.
  - `Packed` is the invariant of a log that only producers have written to.
- `Consumer` (`consumer.dfy`): `parent_read_messages`.
  - The methods: one pass (`ReadPass`) and the whole run (`ReadMessages`).
  - They are proved against `ScanPass` and `Drain`.
- `Log` (`log.dfy`): producer and consumer together.
  - On a packed log, a consumer pass reads exactly the chain of records laid
    end to end from offset 0.
  - A claim appends its record to the end of that chain.
  - So after a child's run, a pass reads one entry per message the child
    counted, tagged with its index, behind whatever it read before.

The program runs producers and consumer in parallel. The model reads that
concurrency sequentially:

- Each compare-and-swap is one atomic step on the page; it succeeds exactly
  when the word holds 0.
- Each method sees the page as that sequence of steps leaves it.
- The buffer is passed to the methods as an `array` of bytes, just as the C
  functions take a `char *`.
- Offsets are relative to the page base, which the model assumes to be
  4-aligned (see "## Left out"). `Memory.AlignAddrShift` relates aligning an
  offset to `align_addr` on the absolute address.

Where the program's code does less than its own comments suggest, the model
follows the code:

- **A message that does not fit ends the run.** The room test uses the message's
  own length with `>=`. When it fails, `goto child_exit` ends the child's
  whole run, not just this message (`Producer.ChildRunCount`).
- **A skip that reaches the end drops the message.** If skipping an
  occupant moves the cursor to the end of the page, the inner loop ends
  without a claim. That message is dropped silently, and the child goes on
  with its next message (`Producer.Claim.PassedEnd`).
- **A claim can overwrite a live record.** The claim takes the first zero
  word without looking at the words behind it. The comments at lines 99 and
  110 of `user/log_test.c` treat a zero word as a free spot and a non-zero one
  as taken, so that a claim takes only free space. By the code, though, once the consumer has
  cleared a header, a longer message claimed there overwrites a record that
  is still live (`Producer.ClaimOverwritesLiveHeader`). For a log that only
  producers have written to, no overlap occurs (`Producer.ClaimKeepsPacked`).
- **A cleared header is not an empty gap.** The comment at line 150 of
  `user/log_test.c` ("Empty slot") treats a zero word as a gap, and line 173
  clears a header "to mark as processed". The consumer steps 4 bytes into the consumed payload and reads
  its first word as a header. For the messages this program builds, that
  word's length runs past the page, so once the record at offset 0 has been
  consumed, later passes read nothing until a producer claims offset 0 again
  (`Consumer.StalePayloadStopsPass`, `Log.ConsumedFrontHidesRest`).

## Model

| member | source | states |
|---|---|---|
| Memory.AlignAddr | user/log_test.c:15-17 | `(addr + 3) & ~3` on uint64 is a multiple of 4. Without wrap-around it lies in `[addr, addr + 4)`, and it is `addr` when `addr` is aligned. When `addr + 3` wraps past 2^64 it is 0. |
| Memory.AlignOffset | user/log_test.c:15-17 | Rounding an offset up to 4 gives a multiple of 4 in `[off, off + 4)`, and an aligned offset is unchanged. |
| Memory.AlignAddrShift | user/log_test.c:15-17 | For a 4-aligned base with no wrap-around, `align_addr(base + off) == base + AlignOffset(off)`. The offset-level model therefore agrees with the address arithmetic. |
| Memory.LoadWord | user/log_test.c:146-149 | The little-endian uint32 load is 0 exactly when all four bytes are 0. |
| Memory.LoadStoreWord | user/log_test.c:94-96 | A uint32 stored at an offset loads back unchanged. |
| Memory.StoreBytesAt | user/log_test.c:103-105 | A byte-range store puts `data[k - off]` at every `k` in `[off, off + n)` and leaves every other byte. |
| Memory.BytesSlice | user/log_test.c:166-170 | The bytes the consumer reads one by one are exactly the slice `[a, a + n)`. |
| Memory.BytesFrame | user/log_test.c:166-170 | The payload read depends only on the bytes of its own range. |
| Memory.ClearWordCount | user/log_test.c:174 | Clearing a word never adds a non-zero byte, and it removes at least one when the word was non-zero. |
| Header.Pack | user/log_test.c:95-96 | The packed header is 0 exactly when both the index and the length are 0 modulo 2^16. |
| Header.UnpackPack | user/log_test.c:95-96 | Unpacking a packed header gives `child_index mod 2^16` and `msg_len mod 2^16`. A length below 2^16 comes back exactly. |
| Header.HeaderRoundTrip | user/log_test.c:157-158 | For an index and a length both below 2^16, decode(encode(index, len)) gives back the pair. |
| Header.PackUnpack | user/log_test.c:157-158 | Every 32-bit header word is the packing of its own decoded index and length (encode(decode(w)) = w). |
| CStrings.CString | user/log_test.c:20-28 | The C string held in a buffer is NUL-free. It is a prefix of the buffer, and it is followed by a NUL whenever it is shorter than the buffer. |
| CStrings.CopyString | user/log_test.c:20-28 | The result is the index of the first NUL of `src`. Afterwards `dest[0..len)` equals `src[0..len)` and `dest[len] == 0`, and `dest` beyond `len` is unchanged. |
| CStrings.FirstNulOfTerminated | user/log_test.c:52-53 | A buffer holding a text followed by `'\0'` has its first NUL where the text's C string ends. |
| Messages.Digit | user/log_test.c:48 | `'0' + x` stored into a char is the ASCII digit of `x` for `0 <= x < 10`. |
| Messages.AppendLiteral | user/log_test.c:46-47 | The literal-copy loop appends the literal's bytes at the cursor, advances the cursor by the literal's length and leaves the rest of `temp`. |
| Messages.AppendByte | user/log_test.c:48 | `*p++ = b` appends one byte and leaves the rest of `temp`. |
| Messages.FormatText | user/log_test.c:42-78 | The branch selected by `i % 3` leaves the message text in `temp[0..p)`, with room for the NUL at `p`. |
| Messages.TextLength | user/log_test.c:39-80 | The text is 20, 47 or 92 bytes long for `i % 3` = 0, 1 or 2. With its NUL it fits its 64-, 80- or 120-byte `temp`, which fits the 128-byte `message`. |
| Messages.MessageShape | user/log_test.c:39-80 | When the index digit is not NUL, the message is the whole text. Its length depends only on `i % 3` (20/47/92), and it begins with `"Child "` followed by the index digit. |
| Messages.MessageBound | user/log_test.c:42-80 | Whatever the index, the copied message is no longer than the text. If the index byte wraps to NUL, the message is just `"Child "`. |
| Messages.BuildMessage | user/log_test.c:41-80 | Building message `i` leaves `Message(childIndex, i)` in `message[0..msg_len)` and returns its length. |
| Producer.ClaimScan | user/log_test.c:86-114 | A claimed offset is at or after the starting offset, holds a zero word and leaves room: `off + 4 + msg_len < PGSIZE`. It stays 4-aligned when the start is aligned. |
| Producer.ClaimStepsBound | user/log_test.c:109-114 | Every failed claim moves the cursor at least 4 bytes and keeps it aligned. The claim loop for one message therefore runs at most PGSIZE/4 times. |
| Producer.ClaimScanSkip | user/log_test.c:109-114 | A failed claim continues from `align(off + 4 + occupied_length)`. |
| Producer.NoRoomMonotone | user/log_test.c:88-91 | A message that fails the `>=` room test still fails it when it is longer. |
| Producer.CompareAndSwap | user/log_test.c:94-96 | Returns the word it found, and stores the new header only when that word was 0. Otherwise the buffer is unchanged. |
| Producer.CopyPayload | user/log_test.c:100-105 | The copy loop stores `msg` at `off + 4` and changes nothing else. |
| Producer.WriteRecordContents | user/log_test.c:93-108 | After a claim, the header word holds the packed value and `[off + 4, off + 4 + msg_len)` holds the message. No byte outside the record changes. |
| Producer.WriteMessage | user/log_test.c:82-115 | The inner loop ends as `ClaimScan` says. On a claim, the buffer is the page with that record written; on `goto child_exit` or when the cursor runs off the end, the buffer is unchanged. |
| Producer.ZeroFromPacked | user/log_test.c:204-207 | The zeroed page, and any all-zero tail, is a packed log. |
| Producer.RecordOnZeroTailPacked | user/log_test.c:93-108 | A record written over a zero tail leaves the log packed from there. |
| Producer.ClaimKeepsPacked | user/log_test.c:86-114 | On a packed log, a claim lands in the zero tail, so its record overlaps no other record, and the log stays packed. |
| Producer.ClaimOverwritesLiveHeader | user/log_test.c:93-98 | With a cleared header at 0 and a live record at 24, a message of 24 to 92 bytes is claimed at 0 and overwrites the live header at 24 with its own bytes 20..23. |
| Producer.ChildMessages | user/log_test.c:36-39 | A child builds `Message(childIndex, i)` for `i` below 10, or below 60 for child 0. |
| Producer.ChildRunCount | user/log_test.c:39-120 | msg_count never exceeds the number of messages. A message that does not fit ends the run with the buffer and the count it had. |
| Producer.ChildRunKeepsPacked | user/log_test.c:39-116 | A child writing its messages into a packed log leaves it packed. |
| Producer.RunChild | user/log_test.c:31-120 | `child_process` up to its exit leaves the buffer and returns msg_count as `ChildRun` says for its messages. |
| Consumer.ScanPassSkip | user/log_test.c:149-154 | An empty word advances the pass by exactly 4 (to the next aligned offset). |
| Consumer.ScanPassTake | user/log_test.c:156-181 | A non-zero header with `off + 4 < end` and `off + 4 + len <= end` yields the entry (decoded index, the `len` payload bytes). The pass then continues behind the record with that header cleared. |
| Consumer.ScanPassLowers | user/log_test.c:140-182 | A pass only ever sets bytes to 0. |
| Consumer.ScanPassCount | user/log_test.c:140-182 | Each record a pass reads clears a non-zero header: the records read plus the non-zero bytes left never exceed the non-zero bytes before. |
| Consumer.ScanPassNothing | user/log_test.c:149-154 | A pass that reads nothing leaves the buffer unchanged. |
| Consumer.ScanPassEntries | user/log_test.c:156-163 | Every entry a pass from `off` reads has a 16-bit child index, and its header and payload fit in the page behind `off`: `off + 4 + |payload| <= PGSIZE`. |
| Consumer.ScanPassClearsOnly | user/log_test.c:140-174 | The converse of `ScanPassTake`: a pass from `off` changes a byte only inside the header of a record it consumed. That header lies at some `o >= off` with `o + 4 < end`, a non-zero word, and `o + 4 + len <= end`. |
| Consumer.ZeroTailScan | user/log_test.c:149-153 | A pass over an all-zero tail reads nothing. |
| Consumer.StalePayloadStopsPass | user/log_test.c:149-163 | A pass at a cleared header reads the old payload's first word as a header. When that word's second byte is at least 16, its length runs past the page and the pass ends there. |
| Consumer.ClearHeader | user/log_test.c:174 | `*header_ptr = 0` clears exactly the four header bytes. |
| Consumer.ReadPass | user/log_test.c:137-182 | One inner loop leaves the buffer and returns the records read as `ScanPass` from offset 0 says. `messages_this_scan` is the number of records read. |
| Consumer.DrainBusy | user/log_test.c:184-188 | A pass that reads something resets `empty_scans` to 0 and leaves fewer non-zero bytes, so the outer loop terminates. |
| Consumer.DrainIdle | user/log_test.c:184-188 | Once a pass reads nothing, every later pass reads nothing, and the run ends with the buffer unchanged. |
| Consumer.DrainQuiescent | user/log_test.c:133-189 | The run ends on a buffer from which another pass would read nothing. |
| Consumer.DrainCount | user/log_test.c:133-189 | total_messages plus the non-zero bytes left never exceed the non-zero bytes the buffer started with. |
| Consumer.ReadMessages | user/log_test.c:124-192 | `parent_read_messages` leaves the buffer and returns the records as `Drain` says; `total_messages` is their number. |
| Log.ChainFrame | user/log_test.c:140-182 | The records laid end to end from an offset depend only on the bytes from that offset on. |
| Log.ScanPassReadsChain | user/log_test.c:140-182 | On a packed log, a consumer pass reads exactly the chain of records from its offset. Skipping empty words and clearing headers do not change what it reads. |
| Log.ClaimExtendsChain | user/log_test.c:86-108 | On a packed log, a claim appends its record, tagged with the child index mod 2^16, to the end of the chain. |
| Log.ClaimThenRead | user/log_test.c:93-170 | After a claim on a packed log, a consumer pass reads what it would have read before, then the new message with its child's index. |
| Log.ChildRunEntries | user/log_test.c:86-108 | The records a child run claims, in claim order: their number is msg_count, and each is tagged with the child's index mod 2^16 and carries one of its messages. |
| Log.ChildRunReadBack | user/log_test.c:39-116 | After a child's run on a packed log, a pass reads the earlier records, then exactly the records the run claimed (`ChildRunEntries`), in claim order. |
| Log.ChildMessagesNonEmpty | user/log_test.c:39-80 | Every message a child builds is at least `"Child "` long. |
| Log.ChildProcessReadBack | user/log_test.c:31-120 | `ChildRunReadBack` for the messages `child_process` actually builds, in particular on the zeroed page: all its claimed records are read back in order. |
| Log.ConsumedFrontHidesRest | user/log_test.c:149-174 | Once the record at offset 0, holding a message beginning "Child ", has been cleared, a pass reads nothing at all, whatever lies behind it. |

## Left out

- `main`: `sbrk`, zeroing the page, `fork`, the map/unmap calls and `exit`. Only the zeroed page it hands over appears, as `Producer.ZeroFromPacked`.
- All `printf` output. The consumer returns the records it would print, as `Entry` values.
- `kernel/sysproc.c`: its functions only forward syscall arguments to code that is not part of this model (`map_shared_pages`, `unmap_shared_pages`, `FindProc`, `growproc`). There is no logic of its own to state.
- `user/shmem_test.c`: a test driver over `malloc`, `fork`, `wait` and `sbrk`. Its failure test `(uint64)p < 0` (line 42) can never be true, because no unsigned value is negative.
- True concurrency and memory ordering: each compare-and-swap is one sequential atomic step. Interleavings of producers and consumer appear only as sequences of whole operations on the page (as in `Log.ClaimThenRead` and `Producer.ClaimOverwritesLiveHeader`), not as byte-level races between a claim and its payload copy.
- Absolute addresses and their uint64 overflow. The model works on offsets from the buffer's base and assumes that base is 4-aligned. The program does not show this: `sys_sbrk` returns the process size `myproc()->sz` (`kernel/sysproc.c:45`), whose alignment is not shown, and `map_shared_pages` is not part of this model. `Memory.AlignAddrShift` relates offsets and addresses for an aligned base where no overflow occurs.
- Header.Pack: `child_index << 16` on a signed `int` is undefined in C for indices of 2^15 and above. The model truncates the shift to 32 bits, which matches the program for the indices 0 to 3 that `main` uses.
- Messages.Digit: `'0' + child_index` stored into a `char` is modelled as truncation to 8 bits. On RISC-V, the target of this xv6, plain `char` is unsigned, so the truncation is exact there. Only on a target with a signed `char` would sums of 128 or more convert in an implementation-defined way.
- Producer.WriteMessage: the bound of PGSIZE/4 iterations is proved about `ClaimSteps`, the iteration count of `ClaimScan`. The method itself does not count its iterations.
- Consumer.ReadPass: alignment of the visited offsets is a loop invariant of the method, not stated in its `ensures`.
