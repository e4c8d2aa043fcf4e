# The aesdchar device and its socket server

A Dafny 4.11 model of the `aesdchar` character driver, which cuts written bytes into lines and keeps the last ten,
and of the socket server that lets any number of clients write to it, seek in it and read it back. Check it with
`dafny verify dfyconfig.toml`.

## What is modelled

The device is described three times.

- As a value (`DeviceSpec.dfy`): every line ever completed and the unfinished tail; the readable contents are the last
  ten lines. `LineSplitting.dfy` defines lines and shows that a stream can be cut into lines in only one way.
- As the driver implements it: `KernelHeap.dfy` (kmalloc, kfree, memcpy, memchr over blocks that are live or freed),
  `CircularBuffers.dfy` (ten slots, two offsets and a flag) and `CharDevice.dfy` (partial buffer, write, read, seek,
  ioctl, module entry and exit). Every method is proved against the value description.
- As whole lives of the module: `DriverCalls.dfy` describes any sequence of system calls (open, close, write, read,
  llseek, ioctl) on any number of descriptors as values, and `DriverRuns.dfy` proves that the driver, from load to
  unload, answers each of them so and frees what it allocated.

So is the server.

- One connection served alone: `ServerSpec.dfy` gives packet, command and response as values; `ClientThread.dfy` has
  the receive loop, the command and the nested loops of the streaming, running on the concrete driver.
- Any number of connections interleaved: `ServerProtocol.dfy` is a transition system with one step for each operation
  other threads can observe. `ServerInvariant.dfy` has the inductive invariant; `ServerTheorems.dfy`,
  `ServerSerialisation.dfy`, `ServerResponses.dfy` and `ServerLiveness.dfy` draw the consequences for every run;
  `ServerProgress.dfy` shows which runs there are: what every run can still be continued with.
- Both together: `ServerOnDriver.dfy` plays any schedule of that system on one concrete device, with one open file a
  thread, and shows that the concrete states are those of the system.

Choices that matter for reading the contracts:

- Faults are numbers: how many further kmalloc calls of a driver call succeed, and how many copies to user space of a
  read. A driver call gives up at its first refusal, so every pattern of faults within a call is covered by some number.
  A failing copy to user space may have copied part of its bytes. A zero-size kmalloc succeeds and yields a block of
  length 0.
- Heap ownership: `Heap.Valid` says that every block ever issued is either live or freed, never both, and
  `Heap.Evolves`, which every driver method promises, that no issued block is forgotten, no freed one comes back and
  all others are new. `Kfree`, `Memcpy`, `Memmove`, `Memchr` and the copies from and to user space demand live blocks.
  `AesdDevice.Owns` says that each live block is in exactly one place: a ring slot, the partial buffer, or a pointer
  local to the call in progress. A block that is no longer in any of them has therefore been freed, once.
- `size_t` sums in the lookup and in the seek wrap at 2^64. `Fits` asks that the stored bytes number at most the largest
  `loff_t`; the blocks are disjoint pieces of a 64-bit address space, so a real device always meets it. Over runs it is
  asked of the device at each moment (`AlwaysFits`, `ScheduleFits`, `ServeFits`), whatever has been evicted before;
  `EnoughRoomForAll`, `EnoughRoomForSchedule` and `EnoughRoom` give bounds on the input that suffice.
- Descriptors are numbered in the order in which they are opened, and a number is not used again; an operation on a
  number that is not open answers EBADF.
- A driver call is one step of the protocol. `file_mutex` alone orders them; the driver's own lock is not relied on.
- The test for a seek command is an arbitrary function from C strings to pairs of numbers; all results hold for every
  such function. A pair whose first number is 10 or more is not a seek: the packet is written like any other.
- Completeness of a packet is decided as `strchr` does, up to the first NUL byte. `CompleteWithoutNul` shows what that
  means for text.

Where the code and its comments disagree the code is followed: the comment at
aesd-char-driver/aesd-circular-buffer.c:60 announces a stop at the wrap-around, but on an empty buffer the loop visits
all ten slots and is right only because they are NULL; `SEEK_END` counts from the number of slots.

## Model

| member | source | states |
|---|---|---|
| LineSplitting.SplitRecomposes | aesd-char-driver/main.c:174-219 | Cutting a stream at its newlines loses nothing: the pieces are lines (one newline each, at the end) and a rest without newline, and they concatenate to the stream. |
| LineSplitting.SplitUnique | aesd-char-driver/main.c:174-219 | No other sequence of lines and newline-free rest concatenates to the stream. |
| LineSplitting.SplitAppend | aesd-char-driver/main.c:152-220 | Splitting what is there and continuing with the rest and new data equals splitting everything at once. |
| LineSplitting.LinesCountNewlines | aesd-char-driver/main.c:174 | The split loop turns as often as there are newlines. |
| DeviceSpec.LineAssembly | aesd-char-driver/main.c:152-220 | After failure-free writes of any sizes the device holds exactly the lines and the rest of the concatenated input. |
| DeviceSpec.ChunkingInvariance | aesd-char-driver/main.c:152-220 | Any two ways of cutting one stream into writes leave the same device. |
| DeviceSpec.AbsorbConserves | aesd-char-driver/main.c:161-219 | Committed bytes followed by the partial data equal all bytes accepted. |
| DeviceSpec.FailureAccounting | aesd-char-driver/main.c:136-187 | A refusal before the buffers are joined changes nothing; a later one keeps the lines that got a block, empties the partial buffer and loses exactly the bytes from the refused line on; success if and only if nothing is lost. |
| DeviceSpec.WriteAnswers | aesd-char-driver/main.c:124-227 | A write needs two blocks and one for every newline in its data. It answers ENOMEM exactly when one of them is refused, EFAULT exactly when the user copy fails first, and otherwise the number of bytes passed, which is by how much the accepted bytes have grown. |
| DeviceSpec.ContentsAreStream | aesd-char-driver/aesd-circular-buffer.c:86-101 | The readable contents are the committed stream from the base offset on. |
| DeviceSpec.SlidingWindow | aesd-char-driver/aesd-circular-buffer.c:86-101 | The base never moves back, moves by exactly the bytes of the evicted lines, and stays put if and only if no line was evicted. |
| DeviceSpec.CommitMovesBase | aesd-char-driver/aesd-circular-buffer.c:86-101 | One commit moves the base by the size of the oldest line if the ring is full and not at all otherwise. |
| DeviceSpec.LastTenLines | aesd-char-driver/aesd-circular-buffer.h:19 | All lines are readable up to ten, and from then on exactly the last ten. |
| DeviceSpec.ReadIsStreamSlice | aesd-char-driver/main.c:85-113 | A read at position p delivers the committed stream from the base offset plus p on. |
| DeviceSpec.ReadFaultIff | aesd-char-driver/main.c:85-118 | A read needs one copy to user space for every entry its bytes lie in, never more than ten. If they succeed it delivers its bytes and answers their number; otherwise it answers EFAULT and has delivered the bytes up to the end of the last entry copied. |
| DeviceSpec.WriteHolds | aesd-char-driver/main.c:121-227 | No write makes the bytes stored, readable or pending, grow by more than its data. |
| DeviceSpec.ReadsAreContiguous | aesd-char-driver/main.c:85-113 | Reads of one descriptor mixed with arbitrary writes, faulty ones included, deliver one contiguous piece of the contents while nothing is evicted. |
| DeviceSpec.FreshReaderSeesPrefix | aesd-char-driver/main.c:85-113 | From a fresh descriptor that piece is a prefix of the committed stream. |
| DeviceSpec.GapIsEvictedBytes | aesd-char-driver/main.c:85-113 | Between two reads the position in the committed stream jumps by exactly the bytes evicted in between; there is a gap if and only if there was an eviction. |
| DeviceSpec.DrainEquivalence | server/socket.c:120-130 | Reads of any sizes until one of positive size returns nothing deliver everything from the start position on. |
| DeviceSpec.DrainEnds | server/socket.c:120-130 | Reads of positive sizes reach the end in at most as many reads as bytes are left. |
| DeviceSpec.SeekInvertsLookup | aesd-char-driver/main.c:283-301 | (command, offset) translates to k if and only if the lookup of k finds that command and offset. |
| DeviceSpec.LookupFindsTheByte | aesd-char-driver/aesd-circular-buffer.c:42-65 | The lookup succeeds if and only if the offset is below the total length, and denotes that byte of the lines concatenated oldest first. |
| DeviceSpec.SeekIsABijection | aesd-char-driver/main.c:270-304 | Every position below the total length is reached by exactly one accepted pair; a pair is accepted if and only if it names a stored byte, and every other one answers EINVAL and moves nothing. |
| DeviceSpec.SeekAnswers | aesd-char-driver/main.c:270-304 | After an accepted seek to byte o of command c the next byte read is that byte; every other pair answers EINVAL and leaves the position. |
| DeviceSpec.LlseekAnswers | aesd-char-driver/main.c:238-256 | The position answered counts from the start, from the current position or from ten; exactly the calls that would leave the range of loff_t, or name another origin, answer EINVAL and move nothing. |
| DeviceSpec.RelativeLlseeksAddUp | aesd-char-driver/main.c:242-244 | Two relative llseeks lead where one of the sum leads; one of offset 0 answers the current position. |
| KernelHeap.Heap.Kmalloc | aesd-char-driver/main.c:136 | A new live block of the requested size, never issued before, or NULL exactly when the allocation is refused. |
| KernelHeap.Heap.Kfree | aesd-char-driver/main.c:163 | A live block becomes freed, and no other; NULL is ignored. |
| CircularBuffers.OverwriteSlides | aesd-char-driver/aesd-circular-buffer.c:93-101 | Overwriting the slot at in_offs turns the last ten entries of a history into the last ten of the extended history, oldest at the new out_offs. |
| CircularBuffers.ShapeStep | aesd-char-driver/aesd-circular-buffer.c:95-101 | The offset updates keep in_offs = n mod 10, full iff n >= 10, and out_offs = 0 until full and in_offs from then on. |
| CircularBuffers.CircularBuffer.AddEntry | aesd-char-driver/aesd-circular-buffer.c:75-102 | The history grows by what the entry stores, nothing for an entry without a block; the slots hold its last ten entries, and exactly the block of an overwritten entry is freed. A NULL argument changes nothing. |
| CircularBuffers.CircularBuffer.EvictedIsOldest | aesd-char-driver/aesd-circular-buffer.c:86-92 | The block freed is that of the oldest live entry, and only when ten have been added. |
| CircularBuffers.CircularBuffer.FindEntryOffsetForFpos | aesd-char-driver/aesd-circular-buffer.c:31-66 | Returns the slot and byte the lookup specifies, for empty, partly filled and wrapped rings, with NULL entries or without, and without overflow; otherwise NULL with the out-parameter untouched. |
| CharDevice.AesdDevice.constructor | aesd-char-driver/main.c:362-372 | The module starts with an empty device and no block allocated. |
| CharDevice.AesdDevice.Write | aesd-char-driver/main.c:121-227 | State and return value are those of the abstract write, for every amount of memory and for a failing user copy, and a success answers the bytes passed; every block issued is in exactly one place or freed, what was freed stays freed, and a refusal before the buffers are joined leaves the live blocks as they were. |
| CharDevice.AesdDevice.SplitPartial | aesd-char-driver/main.c:173-220 | The loop ends, having committed the pending lines in order as far as memory lasts; what is left is the rest after the last newline, or nothing after a refusal. |
| CharDevice.AesdDevice.CommitLine | aesd-char-driver/main.c:176-219 | Moves the first line from the partial buffer, in place, to a new block in the ring; a refusal frees the partial buffer and sets it to NULL. States exactly which blocks are freed. |
| CharDevice.AesdDevice.Join | aesd-char-driver/main.c:152-170 | The partial buffer becomes a new block with the old partial bytes and the data; the copy of the data and the old buffer are freed. A refusal frees only the copy. |
| CharDevice.AesdDevice.Read | aesd-char-driver/main.c:66-119 | Delivers the slice of the contents at the position, across entries and wrap-around, as far as the copies to user space succeed, answers EFAULT when one fails, advances the position by what was delivered even then, and touches nothing else in the buffer. A success answers the number of bytes delivered, by which the position has moved. |
| CharDevice.AesdDevice.SetPos | aesd-char-driver/main.c:258-305 | Sets the position the abstract seek gives, with answer 0, and rejects the same pairs; a call that fails leaves the position. |
| CharDevice.AesdDevice.Llseek | aesd-char-driver/main.c:229-257 | Sets the position to base plus offset exactly when that is a representable non-negative position; otherwise EINVAL and no change. |
| CharDevice.AesdDevice.Cleanup | aesd-char-driver/main.c:392-400 | Every block still live is freed; none stays. |
| CharDevice.RingShape | aesd-char-driver/main.c:276 | After n commits: in_offs, out_offs, full and the NULL slots as functions of n; every live entry is one line; the seek's command count is min(n, 10). |
| CharDevice.AbstractionDeterminesState | aesd-char-driver/main.c:152-220 | Offsets, flag, slot bytes and partial bytes depend only on the abstract device, so chunking invariance holds slot by slot. |
| DriverCalls.ErrorsExactly | aesd-char-driver/main.c:66-321 | For each error number, the calls that answer it, by a condition on the arguments, the descriptor, the stored lines and the faults. |
| DriverCalls.AnswersExactly | aesd-char-driver/main.c:31-321 | What each call that succeeds answers, and where its descriptor then is; an open answers a new descriptor at position 0. |
| DriverCalls.CallsKeepToThemselves | aesd-char-driver/main.c:31-321 | No call moves another descriptor; only writes change the device, and they move no descriptor; a call that fails changes nothing beyond what a write has committed or a read has delivered. |
| DriverCalls.ReadAfterLlseek | aesd-char-driver/main.c:85-113 | A read after an accepted llseek delivers the contents from the answered position on. |
| DriverCalls.ClosedStaysClosed | aesd-char-driver/main.c:45-64 | In every run after a close, each call on the descriptor answers EBADF, and the run leads where it would lead without those calls. |
| DriverCalls.CloseIsFinal | aesd-char-driver/main.c:45-64 | So does each run that follows the close itself, which leaves the device alone. |
| DriverCalls.RunAssemblesLines | aesd-char-driver/main.c:152-220 | Over any run in which the writes were accepted, with opens, reads, seeks and closes in between, the device holds the lines of all input. |
| DriverCalls.WriteCountsAddUp | aesd-char-driver/main.c:225-226 | Over a run the counts answered to accepted writes add up to the bytes passed, and to the growth of what the device has accepted. |
| DriverCalls.RunProjects | aesd-char-driver/main.c:66-119 | For a descriptor that only reads, a run of arbitrary calls is its own reads mixed with all the writes: same device, same position, same bytes delivered. |
| DriverCalls.DescriptorReadsAreContiguous | aesd-char-driver/main.c:85-113 | With arbitrary calls on other descriptors in between, and faulty reads, its reads deliver one contiguous piece of the contents while nothing is evicted. |
| DriverCalls.NewDescriptorSeesPrefix | aesd-char-driver/main.c:31-119 | What the descriptor that an open answers has read, while nothing is evicted, is a prefix of the committed stream, as long as its position. |
| DriverCalls.DescriptorGapIsEvicted | aesd-char-driver/main.c:85-113 | Between two reads of a descriptor the place in the committed stream jumps by exactly the bytes evicted in between. |
| DriverCalls.ReadCountsAddUp | aesd-char-driver/main.c:108-118 | The counts answered to a descriptor that only reads, without faults, add up to the bytes delivered and to the movement of its position. |
| DriverCalls.PositionsStayInRange | aesd-char-driver/main.c:229-257 | Over any run of reads, seeks and llseeks no position leaves the range of loff_t. |
| DriverCalls.EnoughRoomForAll | aesd-char-driver/main.c:121-227 | What the device holds and the bytes offered to it bound what it ever holds. |
| DriverRuns.Dispatch | aesd-char-driver/main.c:325-333 | One system call of the operations table on the concrete driver gives the abstract answer, the abstract new device and the abstract positions, for open, closed and unknown descriptors. |
| DriverRuns.ModuleLifetime | aesd-char-driver/main.c:351-406 | From load to unload, over any sequence of calls and faults, every answer is the abstract one; at the end every block issued has been freed, and none twice. |
| ServerSpec.CompleteWithoutNul | server/socket.c:215 | For NUL-free data a packet is complete if and only if it contains a newline. |
| ServerSpec.CompleteIff | server/socket.c:215 | A packet is complete if and only if it has a newline that no NUL precedes. |
| ServerSpec.DataIsWritten | server/socket.c:220-231 | The command is a seek to (x, y) exactly when the text scans as those two numbers, in that order, with x below ten; in all other cases it is a write. |
| ServerSpec.GatherIsFirstComplete | server/socket.c:192-217 | The packet is the concatenation of the chunks up to the first one that completes it, and there is none if no prefix is complete. |
| ClientThread.Connection.constructor | server/socket.c:366-369 | A new connection has no data and is active. |
| ClientThread.Connection.Append | server/socket.c:202-212 | The packet grows by exactly the received chunk and stays NUL-terminated. |
| ClientThread.Connection.HasNewline | server/socket.c:215 | Finds a newline if and only if there is one before the first NUL. |
| ClientThread.Command | server/socket.c:218-233 | One device command: if the text scans as (x, y) with x below ten, a seek to byte y of command x, which leaves the device alone; otherwise one write of the whole packet. |
| ClientThread.SendAll | server/socket.c:121-129 | However short the sends, the bytes of the buffer are sent in order, each once. |
| ClientThread.StreamFileReader | server/socket.c:115-136 | Ends, having sent exactly the contents from the descriptor's position on. |
| ClientThread.DataProcessing | server/socket.c:169-261 | For any chunks: nothing happens without a complete packet; otherwise exactly its command and its response. |
| ServerInvariant.OthersStay | server/socket.c:219-250 | No step of one thread disturbs what is known about another. |
| ServerInvariant.StepKeepsInv | server/socket.c:192-251 | The protocol invariant survives every step of every thread. |
| ServerTheorems.MutualExclusion | server/socket.c:219-250 | In every run at most one thread is between a lock and its unlock. |
| ServerTheorems.SnapshotStreaming | server/socket.c:240-250 | In every interleaving a finished response is what the device held when the thread took the mutex to stream, from its position to the end; an unfinished one is a beginning of that. |
| ServerSerialisation.WholePackets | server/socket.c:215-239 | In every interleaving the device is the result of executing commands one by one on whole packets, each thread's at most once; each is a seek to what its packet scans as, or a write. Without refusals the accepted stream is the concatenation of the packets that are data. |
| ServerSerialisation.CommandsInLockOrder | server/socket.c:219-233 | Commands are executed in the order in which the threads took the mutex. |
| ServerSerialisation.ReceiveReassembly | server/socket.c:192-217 | In every run the packet is the concatenation of the chunks, and a thread acts exactly when it is first complete. |
| ServerSerialisation.OneCommandOneStream | server/socket.c:215-250 | A thread executes at most one command and streams at most once, the stream after the command; an answered one has done exactly one of each. It closes its descriptor at most once, and has ended exactly when it has. |
| ServerResponses.UndisturbedResponse | server/socket.c:218-250 | With no foreign command between its command and its stream, a client is answered as if it had been alone. |
| ServerResponses.ReadYourOwnLines | server/socket.c:229-242 | All lines a packet completed come back in one piece if at most ten lines were committed from its write up to its stream. |
| ServerResponses.ReadYourOwnPacket | server/socket.c:229-242 | So does the packet itself when it ends in a newline and no unfinished data preceded it. |
| ServerResponses.StillReadableIff | aesd-char-driver/aesd-circular-buffer.c:93-101 | The ten-line condition is exact: the first byte committed after a moment is still readable if and only if at most ten lines were committed since. |
| ServerResponses.SeekResponse | server/socket.c:220-242 | If the packet scans as a seek to (x, y), the device stays as it is, and the response runs from byte y of command x to the end if nothing was evicted in between, and otherwise from the position shifted by the evicted bytes; a refused seek is answered with the full contents. Any other packet is accepted whole, memory permitting, and answered with the full contents. |
| ServerResponses.ServedAlone | server/socket.c:218-250 | The same for a connection served alone: from byte y of command x to the end, or everything; accepted data is appended to the stream. |
| ServerLiveness.NoDeadlock | server/socket.c:219-250 | While any thread is neither waiting for its client nor ended, some thread can take a step; and it itself can unless another one holds the mutex. |
| ServerLiveness.ServingTerminates | server/socket.c:115-136 | Without new input every schedule ends, after a number of steps bounded beforehand. |
| ServerLiveness.StoppedMeansAnswered | server/socket.c:237-261 | When nothing more can happen, every client whose packet was complete has its whole response and its thread has ended. |
| ServerProgress.CanReceive | server/socket.c:192-217 | After every run a receiving thread can receive any chunk of at most 1023 bytes, however much it has already; it goes on receiving exactly while the packet is incomplete. |
| ServerProgress.EveryChoiceIsOpen | server/socket.c:192-250 | After every run a client can connect or stop sending, every waiting thread can take a free mutex, and no outcome of an allocation and no length of a send is excluded. |
| ServerProgress.ChunksFit | server/socket.c:193 | In no run is a chunk longer than 1023 bytes. |
| ServerProgress.NewClientCanBeServed | server/socket.c:169-261 | After every run that leaves the mutex free, for all chunks that complete a packet there is a schedule by which a new client is answered: it receives the chunks up to the completing one, and device and response are those of a connection served alone. |
| ServerProgress.EverybodyCanBeServed | server/socket.c:169-261 | After any run whatever, all complete packets can be answered without further input, and then any new client as well. |
| ServerOnDriver.Play | server/socket.c:169-261 | Under every schedule of the threads the concrete device, the mutex, the positions of the open files and what each thread has received, read and sent are those of the protocol. |
| ServerOnDriver.ClientsGetSnapshots | server/socket.c:240-250 | On the concrete driver, under every schedule, what a thread has sent and read is a slice of the device at its streaming lock, and all of it from its position on once it has read to the end. |
| ServerOnDriver.EnoughRoomForSchedule | server/socket.c:192-212 | The bytes received bound what the device ever holds under a schedule. |

## Left out

- The balance of the driver's own lock: it is released twice at the end of a read and once without being held on close; driver calls are atomic steps here.
- CircularBuffers.CircularBuffer.AddEntry: a NULL buffer, which the source dereferences before its check, is not a value here.
- DriverRuns.Dispatch: descriptors sharing one open file (dup, fork), reuse of descriptor numbers, and the kernel's own limits on counts.
- CharDevice.AesdDevice.Write: the sum of the partial and the new size is not bounded by `size_t`, because both blocks exist in one address space; the debug print of the slots is omitted.
- CharDevice.AesdDevice.Llseek: signed overflow is taken to wrap, as kernel code is compiled; `SEEK_END` is stated as the code does it, from the slot count.
- ClientThread.DataProcessing: opening and describing the device file, freeing and closing at the end, log lines and a failing realloc.
- ServerProtocol: writers to the device other than the server's threads, the disabled timestamp thread, failing sends, after which the code drops the rest of a chunk and goes on, and faulting reads: the server reads into its own memory, so its copies to user space succeed.
- `end_of_packet` is never initialised by the source; it is false at the start here.
- A `recv` of length 0 without a newline repeats forever, so the receive loop has no termination claim.
- `parse_seekto_command`, which nothing calls; the text of the seek command itself, which is a parameter.
- Module and socket plumbing: registration, sysfs, accept, bind, listen, signals, daemonising, the thread list.
- finder-app, examples, scripts and tests: no property beyond single calls.
