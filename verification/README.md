# A verified model of the AESD character driver and its socket server

The repository is one pipeline. A socket server frames each client's byte stream into lines and
appends them to a data file or to a character device; the device keeps the last ten lines in a ring
of buffers, and serves them back from a byte position or from a (command, offset) seek. This project
models that pipeline in Dafny, proves the imperative code of each layer against a value of the same
state, and proves what the layers promise on those values: for every stream, every run and every
interleaving.

| file | models |
|---|---|
| `Bytes.dfy`, `MachineInts.dfy` | byte strings, the split of a stream into lines, the fixed-width integers |
| `Addressing.dfy` | the ring as a queue with a start slot, and its two address maps |
| `CircularBuffer.dfy` | `aesd-circular-buffer.c` as a class over an array with 8-bit offsets |
| `DeviceModel.dfy` | the device as a value: writes, reads, seeks, and their laws over runs |
| `KernelHeap.dfy`, `CharDriver.dfy` | the allocator, and `main.c` as a class that owns its allocations |
| `LineBuffer.dfy`, `SeekCommand.dfy` | `append_string` with its growing block, and the seek command parser |
| `ParsedBlock.dfy` | that parser on the line buffer's block, and on what earlier lines left there |
| `Framing.dfy`, `DataFileModel.dfy` | the receive loop as a function on the stream, and one flush on either store |
| `Server.dfy` | `connnection_handler` and `send_response`, in file mode and in device mode |
| `LockProtocol.dfy` | all handler threads and the timer as interleaved steps around the mutex |
| `Progress.dfy` | runs in which lines are delivered and answered, the timer's run, and every way out of the loop |
| `Handlers.dfy` | many connections on one device: what each handler delivers, and what all of them leave |
| `ConnectionList.dfy` | the connection list and its pruning during a walk |

Bytes are Dafny characters: the code only compares bytes with ASCII constants, so statements over
that larger alphabet cover all 8-bit strings. A pointer is the identity of one allocation, with 0 for
the null pointer.

## What the code does where one might expect otherwise

- The seek compares an unwrapped index with a wrapped slot (`aesd-char-driver/aesd-circular-buffer.c:81`).
  When `out_offs + entrynum` reaches the capacity it runs over the whole buffer and returns
  `size + offset`, which `ioctl` accepts and from which nothing can be read. `SeekPastTheWrap` gives
  the family of eleven lines. With the index wrapped before the comparison the two address maps are
  inverse to each other wherever the ring starts (`WrappedJumpIsInverse`).
- `write_cmd` has 32 bits and is cut to 8 at the call (`aesd-char-driver/main.c:196`); `Dev.Seek`
  keeps the cut, so command 256 seeks to line 0 (`Command256IsCommand0`). `SeekIsRightIff` says for exactly which commands,
  offsets and numbers of written lines a seek is right, the wrap and the cut both included.
- A write call takes one line at most, and the server offers each flush once. A flush with two lines
  loses the second: `LinesPushedIff` says for exactly which connections every line gets through, and
  `TwoLinesInAChunk` shows a line lost.
- `aesd_read` copies the rest of the entry whatever count the reader asked for
  (`aesd-char-driver/main.c:71`), and the server's response buffer has 102400 bytes
  (`server/aesdsocket.c:94`). No read overruns it exactly if no kept line is longer (`ReadsFitIff`,
  `LongLineOverruns`);
  `AesdDevice.Read` and everything that reads for a response carries that as a condition.
- The line buffer is a C string, so bytes behind a NUL in a received piece are dropped;
  `StreamConserved` is an equivalence.
- A number that does not fit an unsigned long makes the parser fail, and the text is then written to
  the device like any other line (`server/datafile.c:100-106`); `RejectedIff` and `StoredIff` are the
  exact conditions, `OutOfRangeIsStored` gives every number above ULONG_MAX. Without a comma, or with nothing behind it, a number is what the stack held; the
  model passes that value in. `StackFreeIff` and `RequestStackFreeIff` say for exactly which texts it
  does not matter, `NoCommaReadsTheStack` gives one for which it does.
- The parser goes through as many bytes as the string is long, but from the keyword on
  (`server/datafile.c:57-65`). With the keyword at byte p it reads p bytes behind the string, which an
  earlier line has left in the block, or which lie behind the block. `SafelyReadIff` says exactly when
  it stays in the block and in its digit array, `SameInAllBlocksIff` and `SameEverywhereIff` exactly when
  the bytes behind the string, and those and the stack, do not matter. In `SeekAfterAnotherLine` a comma
  of the line before decides whether a 5 is the command or the offset.
- The handler keeps the position of the end of the file in an `int`
  (`server/datafile.c:43` and `server/aesdsocket.c:125`), and leaves its loop when that is negative, as
  it is from 2 GiB up to 4 GiB; `ServeFile` returns how many chunks it came to serve.
- In file mode the handler seeks to the end before it takes the lock (`server/aesdsocket.c:125` and
  `:142`). `FileKeepsEverythingIff` is the exact condition for conservation, `LateWriterOverwrites` the
  run that breaks it; the timer seeks under the lock.

## Model

| member | source | states |
|---|---|---|
| Bytes.SplitIsUnique | aesd-char-driver/main.c:130-152 | the split into lines and a newline-free rest is the only one, so "the lines of a stream" means what the driver must keep |
| Bytes.SplitPiecewise | aesd-char-driver/main.c:134-152 | splitting a stream piece by piece needs only the unfinished line carried over |
| Addressing.Modulo | aesd-char-driver/aesd-circular-buffer.c:24-27 | the wrap macros bring any index below twice the capacity to its slot |
| Addressing.LastItems | aesd-char-driver/aesd-circular-buffer.c:96-109 | after any sequence of adds from empty, for any capacity, the ring is the last N of them in order, and the slot of the oldest is known |
| Addressing.LocateInverts | aesd-char-driver/aesd-circular-buffer.c:46-65 | looking up the position of byte o of item n gives back (n, o): no two bytes share a position |
| Addressing.JumpThenLocate | aesd-char-driver/aesd-circular-buffer.c:67-87 | looking up where a seek lands gives the requested item and offset when its slot does not wrap, and nothing when it does |
| Addressing.LocateThenJump | aesd-char-driver/aesd-circular-buffer.c:46-87 | seeking to what a position was looked up as returns that position exactly when the slot does not wrap |
| Addressing.WrappedJumpIsInverse | aesd-char-driver/aesd-circular-buffer.c:67-87 | the scan with the running index wrapped before it is compared, which the code does not do, would invert the lookup in both directions for every start slot |
| CircularBuffers.CircularBuffer.Init | aesd-char-driver/aesd-circular-buffer.c:114-117 | the zeroed structure is the empty queue |
| CircularBuffers.CircularBuffer.Walk | aesd-char-driver/aesd-circular-buffer.c:49-55 | walking from out_offs with wrapped indices visits the queue oldest first |
| CircularBuffers.CircularBuffer.UpperBoundary | aesd-char-driver/aesd-circular-buffer.c:28-34 | the 8-bit loop boundary is out_offs plus the number of items, without wrap-around |
| CircularBuffers.BoundaryFitsIff | aesd-char-driver/aesd-circular-buffer.c:28-34 | the 8-bit boundary is exact for every in_offs if and only if the capacity is at most 128 |
| CircularBuffers.StoreStaysConsistent | aesd-char-driver/aesd-circular-buffer.c:99-106 | the array store and offset updates are a push on the queue, keep free slots zeroed and out_offs 0 until full, keep in_offs = out_offs when full, and keep size equal to the total modulo 2^64 |
| CircularBuffers.CircularBuffer.AddEntry | aesd-char-driver/aesd-circular-buffer.c:96-109 | pushes on the queue and hands back the evicted entry's pointer, NULL unless one was evicted |
| CircularBuffers.CircularBuffer.FindEntryOffsetForFpos | aesd-char-driver/aesd-circular-buffer.c:46-65 | the loop finds the slot and offset of the byte at a position of the concatenated entries, and none exactly at or past the total |
| CircularBuffers.CircularBuffer.SizeBoundsPositions | aesd-char-driver/aesd-circular-buffer.c:103-103 | while the total fits a size_t, positions that hold a byte are exactly those below the running size |
| CircularBuffers.CircularBuffer.JmpEntryOffset | aesd-char-driver/aesd-circular-buffer.c:67-87 | error for an absent item or offset; otherwise the item's position, or the total plus offset when the slot wraps, as a signed 64-bit number |
| DeviceModel.AcceptedIs | aesd-char-driver/main.c:130-140 | a write call takes a buffer without a newline whole, and of any other the first line |
| DeviceModel.WriteIsAbsorb | aesd-char-driver/main.c:130-152 | one write call is the effect of the bytes it accepted on lines and unfinished line, and keeps every ring line ended by its one newline |
| DeviceModel.SubmitIsAbsorb | aesd-char-driver/main.c:130-152 | resubmitting what a short write left over terminates and has the effect of the whole buffer |
| DeviceModel.ChunkingIndependence | aesd-char-driver/main.c:130-152 | however a stream is cut into writes, from any state, the device ends the same |
| DeviceModel.DeviceHoldsLastTenLines | aesd-char-driver/main.c:130-152 | from empty: the last ten lines of the stream in order, the rest behind the last newline pending |
| DeviceModel.ReadEndsOnLineBoundary | aesd-char-driver/main.c:69-77 | a read returns nothing exactly at or past the end, and otherwise advances to the start of the next line |
| DeviceModel.ReadUsesUpALine | aesd-char-driver/main.c:69-77 | each data read leaves fewer lines to see, so the read loop ends after at most one read per kept line |
| DeviceModel.ReadTakesAPiece | aesd-char-driver/main.c:69-77 | what remains from a position is what one read returns followed by what remains behind it |
| DeviceModel.ReadsFitIff | aesd-char-driver/main.c:69-71 | no read at any position writes past a buffer of n bytes if and only if no kept line is longer than n |
| DeviceModel.LongLineOverruns | aesd-char-driver/main.c:69-71 | behind a written line longer than the buffer some read overruns it |
| DeviceModel.SeekDelivers | aesd-char-driver/main.c:196-201 | after a seek the reader gets byte o of the n-th oldest line onwards, nothing if the slot wraps, everything if the seek is rejected |
| DeviceModel.SeekIsRightIff | aesd-char-driver/aesd-circular-buffer.c:67-87 | for every command and offset, in terms of the m lines ever written: a seek to a byte that exists is right if and only if m <= 10 or m mod 10 + n < 10; one to a byte that does not is refused if and only if the cut of the command to 8 bits names none either |
| DeviceModel.Command256IsCommand0 | aesd-char-driver/main.c:196-196 | on any device that holds a line command 256, for which there is none, is accepted and delivers everything |
| DeviceModel.SeekPastTheWrap | aesd-char-driver/aesd-circular-buffer.c:80-83 | after any eleven lines the seek to command 9 is accepted and delivers nothing |
| DeviceModel.WritesPushOneLineEach | aesd-char-driver/main.c:130-152 | buffers that end in newlines, each offered once, push exactly their first lines and leave nothing pending |
| KernelHeaps.KernelHeap.Kmalloc | aesd-char-driver/main.c:122-122 | a new live block; the heap invariant says every allocation is live or was freed exactly once |
| KernelHeaps.KernelHeap.Krealloc | aesd-char-driver/main.c:134-134 | for a growing block: the old one is given back and its bytes are the new block's prefix |
| KernelHeaps.KernelHeap.Kfree | aesd-char-driver/main.c:138-150 | only a live block or NULL can be freed, and exactly that block goes |
| CharDriver.FindChar | aesd-char-driver/main.c:87-100 | with a NUL or the character at or behind size: terminates, found exactly if the character is in the first size bytes, at its first occurrence, NULs before it notwithstanding |
| CharDriver.OwnsAfterRealloc | aesd-char-driver/main.c:134-134 | replacing the pending block keeps live blocks = ring blocks + pending block, pairwise distinct, and all ring texts |
| CharDriver.OwnsAfterPush | aesd-char-driver/main.c:142-151 | moving the pending block into the ring and freeing the evicted one keeps live blocks = ring blocks + pending block, pairwise distinct |
| CharDriver.TextsAfterPush | aesd-char-driver/main.c:142-151 | the ring's texts after that move are the old ones with the pending line pushed |
| CharDriver.AesdDevice.Init | aesd-char-driver/main.c:246-249 | the zeroed device is empty and valid |
| CharDriver.AesdDevice.Write | aesd-char-driver/main.c:102-158 | a buffer without a newline joins the pending bytes whole; of any other the first line completes the pending one, which joins the ring; the count taken is returned and the position reset; on a copy fault only the position is reset; interrupted, nothing changes; it makes two allocations, one if faulted, none if interrupted, and leaks or frees twice none |
| CharDriver.AesdDevice.Read | aesd-char-driver/main.c:54-82 | into a buffer that holds it, returns the rest of the entry at the position and advances past it; leaves the position alone on fault or interruption |
| CharDriver.AesdDevice.UnlockedIoctl | aesd-char-driver/main.c:175-209 | every other command is refused; a seek moves the position exactly if it is accepted, and reports fault, interruption or error otherwise |
| CharDriver.AesdDevice.CleanupModule | aesd-char-driver/main.c:260-277 | after module exit no block is live and every allocation ever made was freed exactly once |
| CharDriver.AesdDevice.FreeEntries | aesd-char-driver/aesd-circular-buffer.h:81-84 | the traversal of all ten slots frees each stored buffer once, skips unused slots, and leaves only the pending buffer live |
| CharDriver.RunKeepsLastTenLines | aesd-char-driver/main.c:102-158 | after any run of calls, interrupted and faulting ones included, the device holds the last ten lines of the bytes the calls accepted |
| CharDriver.Execute | aesd-char-driver/main.c:54-209 | each call, faulting and interrupted ones included, returns, delivers and leaves as file position what its outcome on the device says |
| CharDriver.Lifetime | aesd-char-driver/main.c:235-277 | any run from module init to module exit delivers the bytes its reads account for, makes exactly the allocations its calls account for, and ends with each of them freed once, nothing else freed and no block live |
| LineBuffers.LineBuffer.Strncat | server/datafile.c:116-116 | appends the first n bytes, or those before a NUL, within the block |
| LineBuffers.LineBuffer.AppendString | server/datafile.c:111-117 | appends within the block, growing it exactly when needed; string length <= tracked length < capacity |
| LineBuffers.GrownIffNeeded | server/datafile.c:112-115 | the block is enlarged, by the tracked length and twice the addition, if and only if string, addition and NUL do not fit |
| LineBuffers.GrowthIsGeometric | server/datafile.c:111-117 | over any appends each reallocation doubles the block at least, and the block stays below max(128, 2L + 3n), so reallocations are logarithmic |
| Server.TrackedBuffer | server/aesdsocket.c:134-165 | over any chunks of a connection the buffer holds what the framing holds, and its capacity is that of the appends the chunks cause |
| Server.TrackedLength | server/aesdsocket.c:135-163 | the tracked length is the number of bytes received behind the last flush, those the string lost at a NUL included |
| Server.ConnectionGrowth | server/aesdsocket.c:134-165 | over any chunks of a connection each reallocation doubles its block at least, and the block stays linear in the longest tracked length and the largest chunk |
| SeekCommands.StrToULConverts | server/datafile.c:69-80 | decimal conversion of any text as in section 7.22.1.4 of ISO C11: white space, sign, digits up to the first other byte, 0 without digits, negation in unsigned arithmetic, range error |
| SeekCommands.CharacterClasses | server/datafile.c:69-80 | which characters are white space and digits, and the value of each digit |
| SeekCommands.ParseSeektoCmd | server/datafile.c:53-92 | the result of the parser on any buffer it can read safely, with uninitialised numbers passed in as the stack's content |
| SeekCommands.FillDigits | server/datafile.c:63-79 | the loop stays in the digit array, stops at the comma exactly if the first number is out of range, and else leaves the second run in the array, or the only one |
| SeekCommands.ParseNumbers | server/datafile.c:59-84 | when the runs that the loop comes to fit, the two converted numbers, or the failure |
| SeekCommands.IndexIsSafeIff | server/datafile.c:63-79 | the index of the loop stays in the digit array with a NUL left over, as far as the loop comes, if and only if the runs fit |
| SeekCommands.DigitsConvert | server/datafile.c:69-80 | digits followed by anything that is no digit convert to their value |
| SeekCommands.ParseRoundTrip | server/datafile.c:53-92 | a printed command parses to its two numbers cut to 32 bits, for all numbers an unsigned long holds, any leading text, and whatever lies behind the string |
| SeekCommands.TwoNumbers | server/datafile.c:63-87 | of the text up to the comma and of that behind it only the digits at the start count |
| SeekCommands.OneNumber | server/datafile.c:63-87 | without a comma the number is the offset, and the command what the stack held |
| SeekCommands.NoDigitsAreZero | server/datafile.c:63-87 | a comma and no digits before the newline are the numbers 0 and 0 |
| SeekCommands.RejectedIff | server/datafile.c:59-84 | the parser fails behind a keyword if and only if a number that it reads is out of range |
| SeekCommands.StackFreeIff | server/datafile.c:59-87 | the result is the same for every content of the stack if and only if it fails, or there is a comma and something behind it |
| SeekCommands.NoCommaReadsTheStack | server/datafile.c:59-87 | after a 5 and no comma the command number is what the stack held |
| Framing.StreamConserved | server/aesdsocket.c:122-166 | flushed bytes followed by held bytes are the received stream if and only if no received byte is NUL |
| Framing.HeadIsTheLine | server/aesdsocket.c:126-137 | a chunk that is a line and some more is cut behind the line, one without a newline not at all |
| Framing.FlushedUpToNewline | server/aesdsocket.c:122-166 | for NUL-free chunks the flushes are the stream up to the first newline of the latest chunk that had one, and each ends in a newline |
| Framing.FlushesAreTheLinesIff | server/aesdsocket.c:126-165 | the flushes are the lines of the stream if and only if no chunk holds two newlines |
| Framing.CountLines | server/aesdsocket.c:126-132 | a stream has as many lines as newlines |
| DataFileModel.WriteAppendsIff | server/datafile.c:106-106 | a positioned write appends exactly when the position is still the end of the file |
| DataFileModel.WriteAtBytes | server/datafile.c:106-106 | a positioned write replaces what stands at its bytes, keeps what stands before and behind, and lengthens the file only past its end |
| ParsedBlocks.SafelyReadIff | server/datafile.c:53-76 | on every block of a given size that holds a string the parser stays in the block and in its digit array, if and only if the keyword and the runs leave room |
| ParsedBlocks.ParseOfWellPlaced | server/datafile.c:53-92 | for a string that is read safely, with the keyword at byte 0 or 1, or with a comma or a number that fails behind it, the parse depends on the string alone |
| ParsedBlocks.SameInAllBlocksIff | server/datafile.c:53-92 | for a string that is read safely the parse is the same in all blocks that hold it, for each content of the stack, if and only if the keyword is at byte 0 or 1, or a comma or a number that fails is behind it |
| ParsedBlocks.SameEverywhereIff | server/datafile.c:53-92 | it is the same in all those blocks and for every content of the stack if and only if no number is missing |
| ParsedBlocks.CommaBehindDecides | server/datafile.c:53-92 | `abAESDCHAR_IOCSEEKTO:5` and a newline: the 5 is the command if byte 24 of the block is a comma, and the offset if it is not |
| ParsedBlocks.SeekAfterAnotherLine | server/aesdsocket.c:139-148 | that string appended after any NUL-free line of 25 to 127 bytes has been in the block: byte 24 of that line decides what the 5 is |
| DataFileModel.StoredIff | server/datafile.c:95-109 | a flush is stored as a line, unchanged, if and only if it has no keyword or a number out of range |
| DataFileModel.OutOfRangeIsStored | server/datafile.c:95-109 | for every number above ULONG_MAX, the keyword, that number and a newline are stored as a line |
| DataFileModel.RequestStackFreeIff | server/datafile.c:95-109 | what a flush asks for is the same for every content of the stack if and only if it has no keyword, fails, or misses no number |
| DataFileModel.SeekEndToEnd | server/datafile.c:95-109 | the command line with any two numbers, parsed, passed to the ioctl and answered by reads, delivers the promised suffix, the offset cut to 32 bits and the command to 8, nothing on a wrap, everything on rejection, and leaves the device alone |
| DataFileModel.ConnectionKeepsLastTenLines | server/aesdsocket.c:122-166 | as values: a connection with at most one newline a chunk leaves the last ten lines of its stream on the device, nothing pending, and every line is answered with the last ten up to it |
| DataFileModel.LinesPushedIff | server/aesdsocket.c:122-166 | for a NUL-free connection without seeks the lines that reach the device are the lines of the stream if and only if no chunk brings more than one newline |
| DataFileModel.ThirdLineIsLost | server/aesdsocket.c:122-166 | two lines in a chunk and one in the next: the flushes are the first line, and the second with the third behind it, and the third never reaches the ring |
| DataFileModel.TwoLinesInAChunk | server/aesdsocket.c:122-166 | the shortest such chunks |
| Server.Connection.TakeHead | server/aesdsocket.c:126-139 | appends the chunk up to its first newline, with exact tracked length and capacity |
| Server.Connection.CarryOver | server/aesdsocket.c:161-165 | the bytes behind the newline start the next line, with exact tracked length and capacity |
| Server.DataFile.SendResponse | server/aesdsocket.c:93-107 | in file mode the read loop sends the whole file |
| Server.EndFitsIff | server/datafile.c:43-43 | the end of the file, read into an int, is not negative if and only if it is below 2 GiB modulo 4 GiB |
| Server.ServeFile | server/aesdsocket.c:109-176 | alone on the file, the flushes are appended in order and each is answered with the file up to and including it, until the end of the file no longer fits an int, which leaves the loop then and only then; below 2 GiB every chunk is served, and a NUL-free stream is on the file up to the first newline of the latest chunk that had one |
| Server.SendFromDevice | server/aesdsocket.c:93-107 | in device mode, as long as its reads fit the response buffer, the read loop sends what remains from the position, in at most one read call per line left and one more, so at most eleven |
| Server.AppendDatafile | server/datafile.c:95-109 | on any string that is not empty and parses safely: a seek request goes to the ioctl, anything else is one write call, with the device and the position either leaves |
| Server.ServeDevice | server/aesdsocket.c:109-176 | every flush of a connection is one request, made in a block of the capacity its appends have grown, and its response is the device's answer to it |
| Server.PlainCanServe | server/aesdsocket.c:109-176 | what ServeDevice presupposes holds for every NUL-free connection with at most one newline a chunk, no seek, and no line longer than the response buffer |
| Server.PlainLines | server/aesdsocket.c:122-166 | any lines without a keyword that fit the response buffer, each sent as one chunk, are such a connection |
| Server.ServePlain | server/aesdsocket.c:109-176 | server and driver together: such a connection leaves on an empty device the last ten lines of its stream, nothing pending, and every line is answered with the last ten up to it |
| LockProtocol.StepKeepsInv | server/aesdsocket.c:141-190 | every step of every thread keeps: inside the section implies owner, owner implies inside or leaving; the store is what the appends so far made of the first one; the response so far plus the rest is the store right after the own append; and every response on record is right and in order |
| LockProtocol.Exclusion | server/aesdsocket.c:141-160 | in every run at most one thread is in the append/response section |
| LockProtocol.OnlyTheSectionOwns | server/aesdsocket.c:141-190 | in every run no finished, receiving or waiting thread owns the mutex, no unlock is ever refused, and the cleanup handler gives up its thread's lock and never another's |
| LockProtocol.ResponsesAreOk | server/aesdsocket.c:93-107 | in every run each response is a piece, and if completed the whole, of the store right after its thread's own append, from where it starts, and responses come in the order of the appends |
| LockProtocol.FileResponseIsTheFile | server/aesdsocket.c:93-107 | in every file-mode run each complete response is the whole file as it was right after the thread's own append |
| LockProtocol.SnapshotIsAPoint | server/aesdsocket.c:141-160 | the store after the first n appends is the store at a point of the run |
| LockProtocol.HistoryIsDelivered | server/aesdsocket.c:141-160 | the recorded appends of a run are its successful append steps, in order |
| LockProtocol.StoreChangesUnderLock | server/aesdsocket.c:141-150 | only the owner of the mutex changes the store, and exactly its append is recorded |
| LockProtocol.SnapshotResponse | server/aesdsocket.c:141-160 | whatever other threads do between the reads of a response, the store stays as the own append left it and the response is that store, in file mode the whole file |
| LockProtocol.FailedAppendAnswers | server/aesdsocket.c:147-153 | behind a failed append the store is as it was, and the response is all of it |
| LockProtocol.DeviceRunIsSequential | server/aesdsocket.c:141-160 | after any interleaving the device is the delivered requests applied one after the other |
| LockProtocol.EveryResponseAnswers | server/aesdsocket.c:93-160 | in every device-mode run each complete response behind a successful append is the sequential device's answer to one delivered request of its own thread, at that request's place in the order of delivery, and responses come in that order |
| LockProtocol.LinearizedResponse | server/aesdsocket.c:141-160 | after any run, whatever interleaves with a thread's read loop, once the loop is over the thread is about to unlock and its own record is the sequential answer to its request |
| LockProtocol.OwnerReleases | server/aesdsocket.c:141-190 | from every state the owner of the mutex reaches its release by its own steps |
| LockProtocol.InterleavedRelease | server/aesdsocket.c:141-190 | under any interleaving, failures and cancellations included, the owner has given the mutex back by the time it has taken a number of steps bounded by what it has to send |
| LockProtocol.HandlerReleases | server/aesdsocket.c:141-190 | for a thread about to append that number is the length of its answer, that of what there was to read before, and four |
| Progress.DeliveryHappens | server/aesdsocket.c:109-176 | on any device any list of requests whose answers fit can be made by one thread: some run takes it from being accepted through all of them, delivered in order and each completely answered, and back to recv with the mutex free |
| Progress.FileDeliveryHappens | server/aesdsocket.c:109-176 | the same in file mode for any lines: each is appended, and answered with the whole file up to it |
| Progress.ServeOne | server/aesdsocket.c:122-160 | in any state a handler in recv can, while the mutex is free, receive a line, append it, answer it and go on receiving, all other threads left where they are |
| Progress.TimerRuns | server/aesdsocket.c:323-355 | a timer that fires while the mutex is free appends its stamp, or nothing on failure, and is gone with the mutex free |
| Progress.EveryWayOut | server/aesdsocket.c:141-190 | after a hang-up, a failed lock, a failed send or a cancellation the cleanup ends the thread, frees the mutex if it was the thread's, and leaves store and other threads alone; a response cut off is on record as such |
| Progress.FailedReadGoesOn | server/aesdsocket.c:99-160 | a failed read ends the response, and the thread unlocks and goes on receiving |
| Handlers.DeliversWhatItReceived | server/aesdsocket.c:122-148 | in every device-mode run the requests a thread delivers are, in order, requests it has received |
| Handlers.ConnectionsKeepLastTenLines | server/aesdsocket.c:122-166 | any number of plain connections on an empty device, in any interleaving: each thread delivers lines of its own stream in order, the device holds the last ten of all lines delivered, nothing pending, and every complete response behind a successful append is the last ten up to the thread's own |
| LockProtocol.FileKeepsEverythingIff | server/aesdsocket.c:122-150 | in every file-mode run, with any number of writers, the file is its old contents and everything written, in order, if and only if no handler writes a line after another step has written something between its seek and that write |
| LockProtocol.TimerAlwaysAppends | server/aesdsocket.c:323-355 | the timer's line is always appended, since it seeks under the lock |
| LockProtocol.LateWriterOverwrites | server/aesdsocket.c:125-148 | two handlers that sought before either locked: of the first line only what sticks out behind the second is left |
| LockProtocol.TwoWritersCanMeet | server/aesdsocket.c:122-142 | such a state is reachable |
| ConnectionLists.ConnectionList.InsertHead | server/queue.h:241-244 | the node becomes the head of the list |
| ConnectionLists.ConnectionList.Remove | server/queue.h:248-261 | exactly the given node is unlinked, order kept, list still well formed |
| ConnectionLists.ConnectionList.RemoveAfter | server/queue.h:262-265 | unlinks the successor of a node |
| ConnectionLists.ConnectionList.RemoveHead | server/queue.h:267-269 | unlinks the head |
| ConnectionLists.ConnectionList.CleanupTermConn | server/aesdsocket.c:232-249 | one walk removes exactly the joined nodes, keeps the others in order, frees each removed node and its record once, and never follows a freed node |
| ConnectionLists.JoinedOrNot | server/aesdsocket.c:243-247 | every node is kept or freed, and not both |
| ConnectionLists.KeptInOrder | server/aesdsocket.c:235-248 | neither the kept nor the freed nodes change their order |
| ConnectionLists.ShutdownEmptiesTheList | server/aesdsocket.c:53-56 | when every thread is joined nothing is left and all nodes are freed |
| ConnectionLists.ConnectionList.Accept | server/aesdsocket.c:221-228 | the new connection joins the list and ended ones leave it |

## Left out

- Server.ServeDevice: takes no empty flush, for which the driver's copy loop does not end (`aesd-char-driver/main.c:131`), no flush that makes the parser leave the block or its digit array, and none whose parse the bytes behind it decide; SafelyReadIff and SameInAllBlocksIff are the exact conditions, and AppendDatafile covers the last kind one flush at a time.
- Server.DataFile.SendResponse: takes each send to accept all bytes it is given; the code looks at a failed send but not at a short one (`server/aesdsocket.c:100-103`), and then drops the rest of that piece.
- Server.AppendDatafile: takes no empty string and no string that makes the parser read outside the block, for the same reasons.
- SeekCommands.ParseSeektoCmd: presupposes that the runs of digits fit the 1024-byte array and that the bytes the loop reads lie in the buffer, since the code checks neither; IndexIsSafeIff and SafelyReadIff are the exact conditions.
- CharDriver.AesdDevice.Read: gives no meaning to a read whose entry is longer than the reader's buffer, past which the code writes.
- CharDriver.AesdDevice.Write: takes allocation to succeed, which the code does not check, and a count above zero, without which the copy loop does not end.
- KernelHeaps.KernelHeap.Kmalloc: never fails, and never reuses an address, so that an allocation can be counted.
- KernelHeaps.KernelHeap.Krealloc: never fails, always moves, and only grows a block, which is all the driver asks of it.
- DeviceModel.SeekDelivers: takes less than 2^62 bytes on the device, so that positions stay in the range of loff_t; above it Dev.Seek still follows the signed 64-bit wrap.
- LineBuffers.LineBuffer.AppendString: works on unbounded lengths; a wrap-around of size_t in the capacity, and of the int that counts a flush's bytes, is not modelled.
- LockProtocol.Step: lets a cancellation strike at any point, not only at cancellation points, treats each driver call as one step under the driver's own lock, lets a handler go on at any file size, and takes a send to accept all it is given.
- LockProtocol.OwnerReleases: takes the reads of the response to fit its buffer; a read that overruns it has no meaning, and the thread is then taken to make no step.
- `aesd_llseek`: `fixed_size_llseek` is a kernel function that is not part of this model; the size passed to it is covered by the running-size invariant.
- Kernel registration, `cdev` set-up, module and device scripts: no logic to prove.
- Sockets, daemonising, syslog, signal delivery and the timer's text: foreign calls; the timer keeps only its lock, append and unlock steps.
- File descriptors: every open is a fresh handle at position 0; handles left open by the receive loop are not counted.
- `connection_cleanup` frees the connection's own buffers; only its unlock is modelled.
- The list, tail-queue, concatenation and swap macros of `server/queue.h` that nothing calls, and the finder, example and test programs.
