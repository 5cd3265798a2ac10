# AESD character device and socket server: a verified model

The repository has two halves that meet at one file. The character device keeps the last ten
newline-terminated writes in a ring of heap buffers, glues unfinished writes together in a partial
record, and answers reads, seeks and an ioctl that seeks to a byte of a stored entry. The socket server
appends what its clients send to a file (the device, or a regular file), sends the file back, and keeps
one thread per client in an intrusive list. This project models both and proves what they promise over
every input, every run, and every interleaving of their threads.

`dafny verify dfyconfig.toml` checks the whole project.

## How it is laid out

| file | content |
|---|---|
| `Machine.dfy`, `Sequences.dfy`, `Wrappers.dfy` | machine integers with their wrap-around, flattening, optional values |
| `EntryRing.dfy`, `Find.dfy` | the ring as a value, the last entries of a log; the offset search and flat indexing |
| `CircularBuffer.dfy` | the circular buffer as a class over an array, proved against the two above |
| `DeviceLog.dfy` | what the device stores, said simply: committed entries and unfinished bytes; runs of writes; reads |
| `Ownership.dfy`, `DeviceState.dfy`, `DeviceReads.dfy` | heap buffers and their owners; what each memory step of a write does to the stored log; reading and seeking |
| `AesdDevice.dfy` | the device as a class: write, read, llseek, ioctl, cleanup |
| `DeviceSteps.dfy`, `DeviceRuns.dfy`, `UnlockedSeek.dfy` | any number of calls interleaved under the buffer mutex; runs of undisturbed calls, and one that overruns a buffer; the ioctl that walks the slots without the mutex |
| `Links.dfy`, `TailQueue.dfy`, `SimpleTailQueue.dfy`, `ThreadList.dfy` | elements linked through addresses of next-fields; the queue and list macros; the walk that joins and frees threads |
| `SeekCommand.dfy`, `ServerFile.dfy` | the seek command; receiving into the file and sending it back |
| `ServerSteps.dfy` | the main thread and all workers interleaved, on a regular file or on the device |
| `ServerReplies.dfy`, `ServerWalks.dfy`, `ServerProgress.dfy` | over its runs: what each client gets back from the device; what each walk over the threads takes out; when the server stands still |

Things to know when reading the contracts:

- The ring capacity is any number from 1 to 255; the device uses 10. Offsets are 8-bit, sizes and file
  positions 64-bit, and where the code can wrap the model wraps.
- Whether a lock is interrupted, an allocation fails or a copy faults is a parameter. An allocation returns
  a free address, and live buffers together stay below 2^63 bytes, as in any kernel address space. The
  payload length of a write fits the signed return value.
- A buffer may be read, written or freed only while it is live, so each method body that verifies has no
  use after free, no double free and no copy out of bounds of a kernel buffer. `NoDanglingUse` says the same
  of every interleaving. The thread list goes through a `Memory` in the same way: every load, store, join and
  free names an element or record that is allocated, and a record is freed only after its thread was joined.
- `Stores(heap, ring, partial, hand, log)` is the relation between the concrete device and the log: the ring
  holds the last entries, the partial record the unfinished bytes, and every live buffer has one owner
  (`hand` is the buffer the running call holds).

Where the code does less than its documentation says, the model follows the code and states exactly when
the promise holds:

- `aesd_circular_buffer_find_entry_offset_for_fpos` is flat indexing at every position exactly when the sum
  of the sizes is below 2^64 (`FindIsFlatIff`).
- The ioctl is documented to seek into the n-th write command, but it walks slots in physical order and seeks
  relative to the current position. `SeekLandsIff` says exactly when every request lands; `SeekMissesAfterWrap`
  is a ring where one does not.
- The ioctl takes no lock. Its sums are those of one ring exactly when every slot, when it was read, had the
  size it has in that ring (`SumsAsInIff`). That is so for the ring at the start or at the end of the walk
  whenever at most one commit falls into the walk (`OneCommitSeek`), and two commits can break it (`TornWalk`,
  a run of the device).
- `aesd_read` copies the rest of the entry whatever count it is given, so it stays within the user's buffer
  exactly when that rest fits (`Read`, `ReadWithinIff`, `ReadFitsIff`); `ReadOverruns` is a run in which it
  does not. The server's reply from the device is right under that condition (`ReadToEnd`, `SendDevice`).
- `aesd_write` moves the file position by the size of the glued buffer (`AdvanceCountsBytesIff`,
  `AdvanceCountsTwice`).
- `aesd_write` tests the last byte of the new buffer, which is inside it exactly when payload and unfinished
  bytes are not both empty (`TestedByteInsideIff`).
- The receive loop looks for a command in the whole buffer, so bytes left by an earlier chunk can complete one
  (`CommandIff`); `StaleBytesSwallow` is a chunk of data that is lost that way.
- Cleanup frees the slots but not the partial record (`Cleanup`: nothing is left exactly when no bytes are
  unfinished).

## Model

| member | source | states |
|---|---|---|
| EntryRing.RingRefinesLog | aesd-char-driver/aesd-circular-buffer.c:70-97 | after any log of additions to an empty ring of any capacity, the full flag is set exactly from a whole capacity of additions on, walking from `out_offs` yields exactly the last entries of the log in order and then zero records, and the record returned by the next addition is the one added a whole capacity ago |
| EntryRing.RingOffsets | aesd-char-driver/aesd-circular-buffer.c:75-86 | the in-offset is the number of additions modulo the capacity, and the out-offset is 0 until the ring is full and the in-offset from then on |
| EntryRing.CachedSize | aesd-char-driver/aesd-circular-buffer.c:77-82 | the cached size is the sum of the slot sizes modulo 2^64, even when the addition wraps before the subtraction, and is the sum itself exactly when that fits |
| AesdCircularBuffer.CircularBuffer.constructor | aesd-char-driver/aesd-circular-buffer.c:95-97 | an initialised buffer is the empty ring |
| AesdCircularBuffer.CircularBuffer.AddEntry | aesd-char-driver/aesd-circular-buffer.c:70-90 | the in-place update is the ring addition, the overwritten record is returned, and no 8-bit offset overflows on the way |
| AesdCircularBuffer.CircularBuffer.FindEntryOffsetForFpos | aesd-char-driver/aesd-circular-buffer.c:33-59 | the search loop over physical slots computes the search over slots in walk order |
| Find.FindIsFlat | aesd-char-driver/aesd-circular-buffer.c:37-58 | when the sizes add up to less than 2^64, nothing is found exactly at or past their sum, and otherwise the entry and offset found are those of the flat position |
| Find.LiesAtUnique | aesd-char-driver/aesd-circular-buffer.c:55-58 | at most one entry and offset name a flat position, zero-sized entries included |
| Find.FindIsFlatIff | aesd-char-driver/aesd-circular-buffer.c:37-52 | the wrapped search is flat indexing at every position if and only if the sizes add up to less than 2^64 |
| DeviceLog.Conservation | aesd-char-driver/main.c:95-149 | after any run of writes, the committed entries followed by the unfinished bytes are exactly the bytes written; every entry is nonempty and ends in a newline, and the unfinished bytes do not |
| DeviceLog.EntriesEndInTen | aesd-char-driver/main.c:134-146 | after any run of writes every committed entry is nonempty and its last byte is 10, and the last unfinished byte is not 10 |
| DeviceLog.ChunkingInvariance | aesd-char-driver/main.c:95-146 | two runs of writes, empty ones included, reach the same entries and unfinished bytes if and only if they write the same bytes and are cut at the same places right after a newline |
| DeviceLog.AdvanceCountsBytesIff | aesd-char-driver/main.c:96-148 | writes move the file position by at least the bytes written, and by exactly as many if and only if, before every write but the first, what was written so far is nothing or ends a line |
| DeviceLog.AdvanceCountsTwice | aesd-char-driver/main.c:96-148 | a line written in two pieces of one byte moves the position by three |
| DeviceLog.ReadAtIsFlat | aesd-char-driver/main.c:59-78 | a read delivers the next bytes of the concatenated entries, at least one of them before the end and none from there on |
| DeviceLog.ReadFitsIff | aesd-char-driver/main.c:68-78 | all reads stay within a requested count if and only if no entry is longer than it |
| DeviceLog.LoopFitsStep | aesd-char-driver/main.c:68-78 | reading on until nothing is left stays within a count if and only if the read at hand does and the loop from where it ends does, where the loop fits when the rest of the first entry and every later entry do |
| Ownership.LiveBytes | aesd-char-driver/main.c:97-144 | when every live buffer has exactly one owner, there are no more live buffers than owners and their bytes are the sizes the owners record |
| DeviceState.InitStores | aesd-char-driver/main.c:250-252 | a zeroed device stores the empty log and owns nothing |
| DeviceState.AllocateStores | aesd-char-driver/main.c:96-100 | allocating the new buffer changes nothing stored |
| DeviceState.FillStores | aesd-char-driver/main.c:103-116 | copying into the new buffer changes nothing stored |
| DeviceState.FreePartialStores | aesd-char-driver/main.c:115-124 | freeing and resetting the partial record removes the unfinished bytes and leaves the new buffer and every entry alone |
| DeviceState.CommitStores | aesd-char-driver/main.c:134-138 | adding a buffer that ends a line appends its bytes to the log, and ownership of the overwritten buffer passes to the call |
| DeviceState.KeepPartialStores | aesd-char-driver/main.c:143-146 | keeping a buffer that does not end a line makes its bytes the unfinished ones |
| DeviceState.FreeHandStores | aesd-char-driver/main.c:139-142 | freeing the overwritten buffer changes nothing stored |
| DeviceState.LiveBuffers | aesd-char-driver/main.c:85-154 | between calls the live buffers are those of the slots and the partial record, at most one more than the capacity, with as many bytes as the two recorded sizes |
| DeviceReads.LocateReads | aesd-char-driver/main.c:59-78 | the search and the pointer arithmetic deliver exactly the next read of the visible entries, from a live buffer and within it |
| DeviceReads.VisibleTotal | aesd-char-driver/aesd-circular-buffer.h:48-51 | the cached size is the number of bytes a reader can see |
| DeviceReads.SlotSumStored | aesd-char-driver/main.c:202-207 | the sum of slots the ioctl adds up is a function of the stored log alone, given by which log entry each slot holds |
| DeviceReads.SeekLandsIff | aesd-char-driver/main.c:202-210 | every request for a visible byte lands on it if and only if nothing is visible, or the position before is 0 and the slots in physical order have the sizes of the entries in walk order, the last one apart |
| DeviceReads.SeekFindRoundTrip | aesd-char-driver/main.c:185-216 | from position 0, with the oldest entry in slot 0, seeking to a command and offset and then searching finds that entry and that offset |
| DeviceReads.SeekMissesAfterWrap | aesd-char-driver/main.c:202-209 | eleven additions to ten slots for which a seek to entry 1 lands one byte too far |
| AesdDevice.AesdDevice.constructor | aesd-char-driver/main.c:250-253 | the module starts with a valid device that stores nothing |
| AesdDevice.AesdDevice.Assemble | aesd-char-driver/main.c:95-128 | the new buffer holds the partial bytes and then the payload, the partial buffer is freed, and a failed allocation or copy leaves the heap as it was |
| AesdDevice.AesdDevice.Push | aesd-char-driver/main.c:130-146 | the new buffer is committed if its last byte is 10, freeing the one it overwrites, and is kept as the partial record if it is not |
| AesdDevice.AesdDevice.Write | aesd-char-driver/main.c:85-154 | the error codes in their order; a failed write changes nothing; a successful one glues its payload to the unfinished bytes, which become an entry if the last byte is 10 and stay unfinished if it is not, keeps single ownership of every buffer, and moves the position by the size of the glued buffer, so a position that counts all writes since the start, as `Advance` does, keeps counting them |
| AesdDevice.AesdDevice.Read | aesd-char-driver/main.c:49-83 | the next read of the visible entries is delivered and the position moves past it; the error codes leave the position alone; what is copied to the user stays within the count if and only if the call fails or the rest of the entry is no longer than it |
| AesdDevice.AesdDevice.LlSeek | aesd-char-driver/main.c:156-183 | an absolute seek to a nonnegative offset goes there and returns it, a relative one goes to the sum, and a negative result or any other origin, the end included, is refused and moves nothing; the position never becomes negative |
| AesdDevice.AesdDevice.Ioctl | aesd-char-driver/main.c:185-216 | the slot walk asks for the sum of the slots before the named one plus the offset, relative to the position; the answer is cut to an int, which differs from the position by a multiple of 2^32; unknown commands are refused |
| Machine.ConversionsKeepLowBits | aesd-char-driver/main.c:188-210 | each conversion to a machine integer changes a value by a multiple of 2^64, or of 2^32 for an int |
| AesdDevice.AesdDevice.Cleanup | aesd-char-driver/main.c:263-282 | every slot's buffer is freed exactly once, only the partial buffer stays, and nothing stays if and only if no bytes are unfinished |
| DeviceSteps.Linearizable | aesd-char-driver/main.c:49-154 | in every state of every interleaving, each call gets the mutex at most once, those that released it were answered as an atomic device would in that order, interrupted calls left no trace, and while the mutex is free the device stores what the successful writes in that order make of it |
| DeviceSteps.RealTimeOrder | aesd-char-driver/main.c:55-57 | a call that returned before another began comes before it in the order that explains the answers |
| DeviceSteps.WriteAnswers | aesd-char-driver/main.c:85-154 | in every run a served write returned the length of its payload, or -12 or -14 |
| DeviceSteps.ReadAnswers | aesd-char-driver/main.c:49-83 | in every run a served read at or behind the end got nothing, and any other faulted or got at least one of the next bytes of the last entries of the writes served before it, laid end to end |
| DeviceSteps.RunConserves | aesd-char-driver/main.c:85-154 | while the mutex is free, entries committed and the partial buffer hold exactly the bytes of all successful writes, and the ring holds the last of those entries in order |
| DeviceSteps.RunOwnsItsBuffers | aesd-char-driver/main.c:85-154 | while the mutex is free, the live buffers are exactly the nonnull slots and the partial record, pairwise distinct, at most one more than the capacity |
| DeviceSteps.NoDanglingUse | aesd-char-driver/main.c:68-142 | whatever the call that holds the mutex reads, fills or frees next is live and large enough, and the evicted buffer is in no slot |
| DeviceSteps.TestedByteInsideIff | aesd-char-driver/main.c:134 | in every run, the byte a write tests lies in its new buffer if and only if payload and unfinished bytes are not both empty |
| DeviceSteps.ReadWithinIff | aesd-char-driver/main.c:49-83 | in every run, a read that was answered stayed within its count if and only if it faulted or the rest of the entry at its position, as of its turn, was no longer |
| DeviceRuns.SoloWrite | aesd-char-driver/main.c:85-154 | from every state with the mutex free and nothing unfinished, a write of a whole line can run undisturbed to its end, through the eight states named |
| DeviceRuns.SoloRead | aesd-char-driver/main.c:49-83 | from every state with the mutex free a read can run to its end and is answered with what is there |
| DeviceRuns.ReadOverruns | aesd-char-driver/main.c:68-78 | a run, at every capacity, in which a read with a buffer of one byte is answered with two |
| UnlockedSeek.SumsAsInIff | aesd-char-driver/main.c:202-207 | the sums a walk reads, at every slot it may stop at, are those of one ring if and only if every slot had, when it was read, the size it has in that ring |
| UnlockedSeek.StepRing | aesd-char-driver/main.c:49-154 | a step of any call leaves the ring alone or is the one addition of the write that holds the mutex |
| UnlockedSeek.OneCommitSizes | aesd-char-driver/main.c:202-207 | with at most one commit during the walk all slots read have the sizes of the ring before it, or all those of the ring after it |
| UnlockedSeek.OneCommitSeek | aesd-char-driver/main.c:202-210 | in every run, when at most one commit falls into the walk, whatever reads, failed and unfinished writes do, the position asked for is the one of the ring as the walk began or of the ring as it ended |
| UnlockedSeek.TornWalk | aesd-char-driver/main.c:202-207 | at every capacity from two there is a run with exactly two commits during the walk in which the sum it reads is that of no ring of the run |
| TailQueue.EveryAddressHolds | server/queue.h:429-443 | under the pointer invariant every element is held by the field it points back at, and the last address holds the final null |
| TailQueue.RepresentsOne | server/queue.h:429-443 | a head and its links represent only one sequence |
| TailQueue.Init | server/queue.h:448-451 | an initialised head represents the empty sequence |
| TailQueue.InsertHead | server/queue.h:453-461 | the element is put in front; only the head, it and the old first element change |
| TailQueue.InsertBefore | server/queue.h:463-468 | the element is put right before the given one, by one store through an address |
| TailQueue.InsertAfter | server/queue.h:470-479 | the element is put right after the given one |
| TailQueue.InsertTail | server/queue.h:481-486 | the element is put last, by one store through the last address; only the head, it and the old last element change |
| TailQueue.Concat | server/queue.h:488-495 | the second queue is appended to the first and left empty |
| TailQueue.Remove | server/queue.h:497-504 | exactly the given element is taken out, in any position, and keeps its own links |
| TailQueue.Replace | server/queue.h:506-515 | the new element stands in the place of the old one |
| TailQueue.Swap | server/queue.h:517-534 | the two sequences change heads, empty or not; only the heads and the two first elements change |
| TailQueue.LastElement | server/queue.h:541-542 | two hops through the overlaid address pairs give the last element, or null for an empty queue |
| TailQueue.Previous | server/queue.h:544-545 | two hops give the predecessor, or null for the first element |
| TailQueue.ForeachReverse | server/queue.h:559-562 | walking by predecessors visits every element once, in reverse |
| SimpleTailQueue.RemoveHead | server/queue.h:349-354 | the first element is taken out and the last address stays right |
| SimpleTailQueue.Remove | server/queue.h:371-385 | the walk ends, exactly the given member is taken out, the others keep their order, and the last address is right when it was first, middle, last or only |
| ThreadList.InsertHead | server/queue.h:224-230 | the element is put in front of the list |
| ThreadList.Remove | server/queue.h:247-252 | exactly the given element is taken out and keeps its own links; only it and its neighbours need to be allocated |
| ThreadList.Swap | server/queue.h:262-272 | the two lists change heads, empty or not; only the heads and the two first back-links change |
| ThreadList.CleanThreads | server/aesdsocket.c:306-319 | the walk that removes while it iterates touches only allocated elements and records, ends with a well-formed list, and joins, once each, and then frees exactly the elements that were finished when visited, or all when waiting, and their records |
| ThreadList.MarkedInOrder | server/aesdsocket.c:308-318 | the elements kept, and those freed, are all that qualify, each once and in list order |
| ThreadList.WaitingLeavesNone | server/aesdsocket.c:310 | a walk that waits leaves the empty list |
| ThreadList.StillAllocated | server/aesdsocket.c:308-316 | at every turn the current element, its neighbours and its record are none of those freed so far, and its thread none of those joined |
| SeekCommand.StrtoulOfDecimal | server/aesdsocket.c:150-151 | reading back a decimal number gives the number, capped at the largest unsigned long, and stops right behind it |
| SeekCommand.StrtoulOfNumber | server/aesdsocket.c:150-151 | behind any run of blanks and at most one sign, a decimal is read up to the first byte that is no digit, or the end: capped at 2^64 - 1, and negated modulo 2^64 behind a minus sign |
| SeekCommand.StrtoulElsewhere | server/aesdsocket.c:150-151 | at a byte that is no blank, sign or digit zero is read and nothing is passed over |
| SeekCommand.StrtoulOfNegative | server/aesdsocket.c:150-151 | a number behind a minus sign is read as its negation modulo 2^64 |
| SeekCommand.StrtoulOfNothingIff | server/aesdsocket.c:150-151 | reading stops where it began if and only if there is no digit behind the spaces and at most one sign, and then zero is read |
| SeekCommand.FormatText | server/aesdsocket.h:50 | the command for 1 and 2, byte by byte |
| SeekCommand.ParseOfFormat | server/aesdsocket.c:144-151 | what any two numbers in a command become, whatever follows it in the buffer: capped at 64 bits, then cut to 32 |
| SeekCommand.SeekRoundTrip | server/aesdsocket.c:144-151 | a command carries its two numbers if and only if both fit 32 bits |
| ServerFile.Globals.RecvToFile | server/aesdsocket.c:135-159 | chunks up to the first short one are taken; each is looked at in the buffer with what earlier ones left there; the data lands in order, commands aside, and the last command is the pending request |
| ServerFile.TakenExact | server/aesdsocket.c:139-156 | the chunks taken are those up to and including the first that is not 1024 bytes, or all and then the end |
| ServerFile.NoCommand | server/aesdsocket.c:144-155 | when no buffer is a command, the data is the chunks taken, laid end to end, and the pending request stays |
| ServerFile.CommandReceived | server/aesdsocket.c:140-151 | whatever was in the buffer and whatever was pending, the two numbers of the last command received are the request, and the command is not data |
| ServerFile.CommandComesLast | server/aesdsocket.c:139-156 | a command for two 32-bit numbers, alone or behind any number of full chunks, ends the receiving, and its numbers are the request |
| ServerFile.CommandIff | server/aesdsocket.c:140-144 | a chunk is taken for a command if and only if it starts with one, or is the beginning of one that bytes left in the buffer complete |
| ServerFile.StaleBytesSwallow | server/aesdsocket.c:140-156 | one byte of data behind a full chunk with a command is lost |
| ServerFile.Globals.SendFile | server/aesdsocket.c:161-173 | on a regular file the reply is the whole file and no request stays pending |
| ServerFile.Globals.SendDevice | server/aesdsocket.c:161-173 | on the device all reads stay within the count if and only if the rest of the entry where the ioctl lands and all later entries do, and then the reply is the flat contents from there, everything when the request is refused, nothing when it lands behind the end |
| ServerFile.ReadToEnd | aesd-char-driver/main.c:49-83 | reading from any position until nothing is left ends; it stays within the count if and only if the rest of the first entry and all later ones do, and then yields exactly the suffix of the flat contents |
| ServerFile.StartIsTarget | server/aesdsocket.c:161-164 | where a reply starts is a function of the stored log and the request, and is where the ioctl lands from position 0 |
| ServerFile.SeekReply | server/aesdsocket.c:144-172 | when the seek of a client's last command lands, the reply to it is the named entry from the named byte on and then the later entries |
| ServerFile.CommandTurn | server/aesdsocket.c:19-34 | the turn of a client that sends one command writes nothing, and its reply is what lies behind the position the slots add up to: everything when that is refused, nothing when it is behind the end, and the named entry from the named byte on and the later entries when the seek lands |
| ServerFile.ReadAllFrom | aesd-char-driver/main.c:156-183 | an absolute seek to a position followed by reading yields the visible contents from that position on |
| ServerSteps.ThreadsOutliveNothing | server/aesdsocket.c:86-126 | in every state of every interleaving a thread that runs still has its record, every started thread is in the list or joined when the list is walked, and after the last walk every thread was joined once and no record or element is left |
| ServerSteps.GlobalsBelongToHolder | server/aesdsocket.c:19-34 | at most one worker is between lock and unlock, and it is the one that holds the mutex; while the mutex is free the file is closed, nothing waits to be written and no request is pending, and each request allocated was freed once |
| ServerSteps.RepliesFollowTurns | server/aesdsocket.c:135-173 | in every state, on a regular file or the device, and however the standard library splits what it writes: the file is what the clients' turns make of it in lock order, each turn contiguous and, once its client released the mutex, its whole data; and each reply is what the file shows after the turns up to the client's own, from where its own last command asks |
| ServerSteps.FileIsAllData | server/aesdsocket.c:135-173 | while the mutex is free, what the file stores, evicted entries and unfinished bytes included, is the data of the clients in lock order |
| ServerSteps.RegularReplies | server/aesdsocket.c:135-173 | on a regular file, while the mutex is free, each reply is the data of all clients up to and including the client's own |
| ServerReplies.DeviceReplies | server/aesdsocket.c:161-173 | in every state of every run on the device, a reply is the visible contents after the turns up to the client's own, from where the ioctl lands with its own last command, everything when it is refused and nothing behind the end |
| ServerReplies.SeekingClient | server/aesdsocket.c:144-172 | a client whose last command names an entry and a byte gets, when that seek lands, that entry from the byte on and the later entries |
| ServerReplies.PlainClient | server/aesdsocket.c:135-173 | a client that sends no command gets everything visible after its turn, in which exactly what it sent up to the first short chunk was written |
| ServerWalks.WalkTakesOutFinished | server/aesdsocket.c:306-319 | in every run, whatever the workers do during a walk: what had finished when it began is out of the list, joined and its record gone; what has not finished when it ends is still there; the list keeps its order; a waiting walk leaves nothing |
| ServerWalks.WalksAreWhole | server/aesdsocket.c:86-126 | every walk begins with the whole list and goes to its end; an accepted client is followed by one; a round without one is a failed accept; a stopped server makes a waiting one before it ends |
| ServerProgress.StuckIff | server/aesdsocket.c:19-126 | in every state of every run no thread can make a step if and only if each has terminated, waits for the mutex or would overrun a buffer through the device, and the main thread is done or waits to join such a one; on a regular file that is only when all is done |
| ServerProgress.ClientCanBeServed | server/aesdsocket.c:19-40 | from every state in which the main thread polls and the mutex is free, a new client can be accepted and run through its whole turn, unless the device would overrun a buffer |

## Left out

- DeviceSteps.Linearizable: a write of nothing with nothing unfinished has no step past the test of its last byte, which is undefined in the code (`TestedByteInsideIff`). The position of an open file belongs to its caller; the ioctl takes no lock and is an observer of these runs, in `UnlockedSeek`.
- AesdDevice.AesdDevice.Write: an empty payload with no unfinished bytes is excluded, because the code then reads the byte before a zero-sized buffer.
- ServerFile.Globals.RecvToFile: receiving never fails, and number parsing stops at the end of the receive buffer, where the code would read on.
- ServerFile.ReadToEnd: once a read has copied past the buffer, the loop stops with no promise of what follows.
- ThreadList.CleanThreads: the flags are those read at each visit; that a join waits for its thread is in `ServerSteps`.
- ServerSteps.RepliesFollowTurns: writes of the file succeed and the standard library reads the device in blocks of 4096 bytes; a reply that would read a longer rest of an entry has no step. A command is understood, and its request resolved, as in `ServerFile`.
- Module and device registration, open and release, debug output: no state law.
- Sockets, polling, address lookup, signals beyond the stop flag, becoming a daemon, logging, and the timestamp thread, whose creation is commented out.
- Partial sends and failed opens of the file, after which the server exits.
- Partial copies from user memory that then fault: the buffer is freed, so its bytes do not matter.
- The other list macros (singly-linked lists, circular queues, LIST_INSERT_BEFORE, LIST_INSERT_AFTER, LIST_REPLACE, the rest of STAILQ): the same pointer steps again.
- Fairness: that a waiting call or join is eventually served. `StuckIff` and `ClientCanBeServed` say what can happen next, not that it does.
- The scripts, makefiles, the file writer and the small system-call and threading examples.
