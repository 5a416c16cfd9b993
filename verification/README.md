# aesdchar and aesdsocket, verified

A Dafny model of the aesdchar character device and of the socket server that uses it as its
log, with proofs of what they promise together.

The device keeps the newest n newline-terminated commands in a ring (n is 10 in the driver
and any number from 1 to 255 here), gathers writes until one ends in a newline, translates
byte positions to places in commands for reads and back for the seek ioctl, and owns one heap
block per command. The server has any number of threads. Each assembles a message from
1000-byte receives, and under one mutex commits its line with two device writes (or issues a
seek) and sends the device's content back.

| file | what it holds |
|---|---|
| Common.dfy | bytes, concatenation, newest-n |
| Layout.dfy | byte position <-> (command, offset), on command sizes |
| BoundedQueue.dfy | the queue the ring refines |
| CircularBuffer.dfy | the ring: array, offsets and sticky full flag, with its loops |
| Kernel.dfy | contracts for kmalloc/kfree, the lock, user copies, fixed_size_llseek |
| Ownership.dfy | which heap blocks the device owns |
| CommandLog.dfy | the abstract device: history, pending bytes, and each call as a function; grouping of writes into commands |
| Driver.dfy | the device class; every method is proved to do what CommandLog says |
| Runs.dfy | any calls on any open files, in any order, with any failures: history, conservation, reader continuity |
| Calls.dfy | what one call does for its caller wherever its file stands: errors, reads, seeks, positions |
| FileOperations.dfy | runs of the device class are runs of the abstract machine; load, run, unload leaves no block |
| Messages.dfy | messages, lines, sessions and echoes; when a session commits exactly its line; when an echo is exact |
| Protocol.dfy | any number of threads as a transition system: mutual exclusion, serializability, one exact echo per session |
| Isolation.dfy | a thread steps as if it were alone, and no message it received goes missing |
| Promises.dfy | what clients and the device can count on over whole runs, and exactly when |
| Progress.dfy | bounded sections, nobody stuck, and what a killed thread does to the rest |
| Connections.dfy | one connection: its receives, its receive buffer, what its client was sent |
| FileSection.dfy | the two writes and the send loop, tied to the events of Protocol |
| Server.dfy | the server thread from its first receive to its end, as a run of Protocol |
| Registry.dfy | the main thread's list of threads and its reaping |

How failures enter. Every kmalloc may be refused, every interruptible lock may be interrupted
and every user copy may be short: these are arguments of the calls (`WriteEnv`, `ReadEnv`) or
arbitrary choices inside the methods, and the theorems hold for all of them. In the server's
methods `Luck` says whether all calls can be relied on to succeed and all copies to be full, so
that each contract says both what happens on any path and what success is certain to bring.
Blocks are freed, loaded and stored only under `Heap` preconditions, so that the driver's
methods verify is already the proof that nothing is freed twice, used after being freed or
accessed out of bounds, with one exception.

The exception is the newline test (main.c line 197). When no byte was copied and none was
pending it loads from below the start of the block. `CommandLog.TestsOutside` and the ghost
result `outside` of `Driver.AesdDev.Write` say exactly when: nothing pending, and the write
returns 0 or does not return. There are two cases.

- A write of some bytes of which none could be copied has a block. The byte below it is an
  arbitrary value, `adjacent`; `CommandLog.CommitsWithoutNewline` says when it matters.
- A write of no bytes has no block: kmalloc gives `ZERO_SIZE_PTR`, below which nothing is
  mapped. The load kills the caller, which holds the device lock. Such a write is said to
  return `NEVER_RETURNS`; from then on the device is dead (`Runs.WhatKills`,
  `Runs.DeadForGood`). The server makes such a write for a message with an empty line
  (aesdsocket.c line 234), holding the file mutex as well, so that it never handles another
  message (`Progress.WhoIsKilled`, `Progress.EmptyLineStopsTheServer`).

All theorems cover both cases.

Where comments and code differ the model follows the code: an interrupted lock gives -EINTR
although the comments on the seek functions (main.c lines 219 and 276) say -ERESTARTSYS, and
a command number of n or more is refused before the lock is tried.

Serializability is unconditional: `Protocol.RunsAreSerial` says that after any run, with any
failures, the device is what handling the sessions one at a time in mutex order gives. So is
the exact echo: `Protocol.ClientsReceiveTheirEchoes` says that each client has received, in
order, one exact echo per session of its own thread and nothing else. That every ordinary
message is then exactly one command is false when a write fails or is short:
`Promises.FailedNewlineJoinsLines` is a run in which two lines become one command, and
`Promises.SerializedIffClean` gives the exact condition. `Promises.SmoothRuns` says what clients
receive and the device holds when nothing fails, as a function of the messages in mutex order.

The methods of the server thread say which events of the protocol they amount to: from a
protocol state that agrees with the device and the connection, the events lead to one that
agrees with them again (`Leads`, `Handled`). Those methods run alone; that a thread among others
takes the same steps is `Isolation.StepsAsIfAlone`. So what is proved of every run of the protocol
holds of the code. The ghost results `handled` and `echoes` list what was handled and sent.

## Model

| member | source | states |
|---|---|---|
| CircularBuffers.SlotIndex | aesd-char-driver/aesd-circular-buffer.h:77-80 | the modular slot number wraps at most once, for every offset and index the traversal and the advance macro use |
| CircularBuffers.MeetsEverySlotOnce | aesd-char-driver/aesd-circular-buffer.h:77-80 | going round from any slot meets every slot exactly once and comes back to where it began |
| CircularBuffers.CircularBuffer.SlotAt | aesd-char-driver/aesd-circular-buffer.h:77-80 | the k-th slot of the traversal is the array slot k places after out_offs, round the ring |
| CircularBuffers.CircularBuffer.SlotInQueue | aesd-char-driver/aesd-circular-buffer.h:77-80 | slot k of the traversal holds the k-th oldest entry, and is null and zero-sized when there are no more than k |
| CircularBuffers.CircularBuffer.constructor | aesd-char-driver/aesd-circular-buffer.c:118-121 | a new ring is valid and holds no entry |
| CircularBuffers.CircularBuffer.Init | aesd-char-driver/aesd-circular-buffer.c:118-121 | whatever the ring held, it is valid and empty afterwards |
| CircularBuffers.OverwriteOldest | aesd-char-driver/aesd-circular-buffer.c:95-105 | overwriting the slot at in_offs of a full ring and advancing out_offs drops the oldest entry and appends the new one |
| CircularBuffers.CircularBuffer.AddEntry | aesd-char-driver/aesd-circular-buffer.c:71-113 | refines a bounded queue: appends, dropping the oldest of n; the returned buffer is the dropped entry's exactly when the ring held n, else NULL; keeps full implies in == out, not full implies out == 0 with unused slots null |
| BoundedQueue.PushKeepsNewest | aesd-char-driver/aesd-circular-buffer.c:95-112 | one insertion into the newest n of a history gives the newest n of the longer history |
| BoundedQueue.PushAllKeepsNewest | aesd-char-driver/aesd-circular-buffer.c:95-112 | after any run of insertions the queue holds exactly the newest n of everything inserted |
| CircularBuffers.CircularBuffer.WalkSeesTheQueue | aesd-char-driver/aesd-circular-buffer.c:47-55 | in every valid ring (empty, partly filled, full and wrapped) the slots met before in_offs comes round hold every byte there is |
| CircularBuffers.CircularBuffer.FindEntryOffsetForFpos | aesd-char-driver/aesd-circular-buffer.c:34-59 | finds the slot and offset Locate gives for the stored sizes, none exactly past the end, in at most n steps |
| CircularBuffers.CircularBuffer.Size | aesd-char-driver/aesd-circular-buffer.c:127-139 | counts the sizes of the stored entries that have a buffer, over all n slots |
| CircularBuffers.RecordedBytesIsTotal | aesd-char-driver/aesd-circular-buffer.c:133-137 | when every stored entry has a buffer that count is the total of the sizes |
| Layout.LocateFinds | aesd-char-driver/aesd-circular-buffer.c:47-58 | lookup answers none exactly at or past the total, and otherwise a pair that names a byte and seeks back to the position |
| Layout.SeekAndLocateAreInverse | aesd-char-driver/main.c:245-266 | a seek to a pair gives a position if and only if looking that position up gives the pair |
| Layout.SeekPreservesOrder | aesd-char-driver/main.c:245-266 | a pair is lexicographically before another if and only if its position is smaller |
| Layout.LocateIgnoresEmptyTail | aesd-char-driver/aesd-circular-buffer.c:47-58 | trailing zero-sized slots do not change where a position lies |
| Layout.CommandIsSlice | aesd-char-driver/aesd-circular-buffer.c:28-29 | each command occupies its own stretch of the concatenation, starting at the sum of the sizes before it |
| Layout.LocateNamesTheByte | aesd-char-driver/aesd-circular-buffer.c:28-32 | the located entry and offset name the byte at that position of the concatenated commands |
| Kernel.Heap.Kmalloc | aesd-char-driver/main.c:151-152 | ZERO_SIZE_PTR and no block for no bytes; else NULL and no change when refused; otherwise a block of the size asked for, at an address no live block has |
| Kernel.LlseekStaysInFile | aesd-char-driver/main.c:70 | the contract assumed of the kernel's function: it answers exactly the positions from 0 to the size, except that asking where the file stands always answers |
| Ownership.OwnMore | aesd-char-driver/main.c:168-174 | allocating one block more keeps the live blocks exactly the owned ones, all distinct, and every command's bytes |
| Ownership.OwnLess | aesd-char-driver/main.c:385-391 | freeing one owned block leaves exactly the others owned, with their bytes |
| Ownership.OwnLastMoved | aesd-char-driver/main.c:157-164 | moving the partial write to a new block and freeing the old one keeps ownership and every command's bytes |
| Ownership.OwnLastChanged | aesd-char-driver/main.c:193-195 | storing into the partial write's block touches no command of the ring |
| Ownership.OwnPushed | aesd-char-driver/main.c:198-204 | committing the partial write and freeing what the ring drops keeps ownership and pushes its bytes on the commands |
| Driver.AesdDev.constructor | aesd-char-driver/main.c:343-354 | a new device is valid and empty, with no block allocated and its lock free |
| Driver.AesdInitModule | aesd-char-driver/main.c:332-366 | the driver is loaded empty with room for ten commands |
| Driver.AesdDev.ExpandPartial | aesd-char-driver/main.c:149-165 | makes room for count more bytes without losing a pending one, or changes nothing when refused |
| Driver.AesdDev.StartPartial | aesd-char-driver/main.c:166-176 | a first block with room for count bytes and nothing gathered, or no change when refused |
| Driver.AesdDev.PointNowhere | aesd-char-driver/main.c:149-176 | with nothing pending and nothing asked for the partial write is left without a block, its old one freed; the ring keeps its own |
| Driver.AesdDev.Gather | aesd-char-driver/main.c:193-195 | appends the copied bytes to the pending ones, in bounds |
| Driver.AesdDev.InspectedByte | aesd-char-driver/main.c:197 | the newline test sees the last gathered byte; its load is outside the block if and only if nothing is gathered |
| Driver.AesdDev.Commit | aesd-char-driver/main.c:198-204 | the pending bytes become the newest command of the history, nothing is pending, and the block the ring drops is freed |
| Driver.AesdDev.Write | aesd-char-driver/main.c:128-212 | result, position, history and pending bytes are those of the abstract write; an error leaves heap, ring and partial write as they were; the lock is free on every path that returns, and held for good on the one that does not, the history and the ring as they were; the live blocks stay exactly the owned ones; the newline test loads outside its block if and only if nothing was pending and the write returns 0 or never |
| Driver.WriteNothingFirst | aesd-char-driver/main.c:197 | on a new device a write of no bytes loads from outside any block and does not return |
| Driver.AesdDev.FindBytes | aesd-char-driver/main.c:98-116 | the block found holds the retained command the position lies in |
| Driver.AesdDev.CopyToUser | aesd-char-driver/main.c:115-121 | copies just the given stretch of the command to the front of the user's buffer, in bounds |
| Driver.AesdDev.Read | aesd-char-driver/main.c:77-126 | result, position and bytes are those of the abstract read, the device is unchanged, the rest of the user's buffer too |
| Driver.AesdDev.RecordedIsRetained | aesd-char-driver/aesd-circular-buffer.c:133-137 | the ring's recorded sizes add up to the lengths of the retained commands |
| Driver.AesdDev.Llseek | aesd-char-driver/main.c:57-75 | positions relative to start, position or the length of the content, as the contract of fixed_size_llseek says |
| Driver.AesdDev.FindCommand | aesd-char-driver/main.c:245-252 | the traversal stops at the command's slot with the bytes before it counted |
| Driver.AesdDev.SlotOfCommand | aesd-char-driver/main.c:254-257 | that slot is null exactly when there is no such command, and otherwise has its length and start |
| Driver.AesdDev.AdjustFileOffset | aesd-char-driver/main.c:224-270 | result and position are those of the abstract seek: the pair's position, or an error and no move |
| Driver.AesdDev.FreeRing | aesd-char-driver/main.c:385-391 | frees every block of the ring once, leaving only the partial write's |
| Driver.AesdDev.Cleanup | aesd-char-driver/main.c:368-404 | no block is left when the lock is obtained, none is touched when it is not |
| CommandLog.ReadReturnsContent | aesd-char-driver/main.c:98-125 | a read returns the content's bytes at its position, moves by as many, and with full copies returns 0 only at the end |
| CommandLog.ReadStopsAtCommandEnd | aesd-char-driver/main.c:115-121 | a read inside the content asks the copy for exactly count bytes or, if that is less, for what is left of the command it stands in; with a full copy it stops exactly there |
| CommandLog.SeekFindsTheByte | aesd-char-driver/main.c:238-270 | from any position, an uninterrupted seek returns 0 if and only if the pair names a byte; then lookup of the new position gives the pair and the content there is that byte; otherwise -EINVAL and no move; an interrupted one does not move either |
| CommandLog.LlseekGoesThere | aesd-char-driver/main.c:66-74 | SET, CUR and END succeed if and only if the start, the position or the size plus the offset lies from 0 to the size (CUR by 0 always), and then result and position are that sum; a failure leaves the position |
| CommandLog.ThereAndBack | aesd-char-driver/main.c:70 | a CUR seek and one by as much the other way end where they began |
| CommandLog.SeekEndIsFirstEof | aesd-char-driver/main.c:69-70 | seeking to the end with offset 0 lands on the smallest position at which lookup finds nothing |
| CommandLog.StreamParts | aesd-char-driver/main.c:193-206 | evicted, readable and pending bytes, in this order, are the whole stream |
| CommandLog.StreamGrowsByGathered | aesd-char-driver/main.c:193-206 | every accepted byte is added to the end of the stream, whatever is committed or evicted |
| CommandLog.PendingNeverEndsInNewline | aesd-char-driver/main.c:193-206 | after any writes the pending bytes do not end in a newline |
| CommandLog.CommitsWithoutNewline | aesd-char-driver/main.c:197 | a write commits a command not ending in a newline if and only if it adds nothing to nothing and the byte below its buffer is a newline |
| CommandLog.TestsOutside | aesd-char-driver/main.c:197 | the offset tested is negative if and only if nothing was pending and the write returns 0 or never, and is never past the bytes there is room for |
| CommandLog.FirstClose | aesd-char-driver/main.c:197 | the first write that ends the command begun with the first write |
| CommandLog.GathersUntilClose | aesd-char-driver/main.c:148-195 | writes before the first closing one only gather |
| CommandLog.CloseCommits | aesd-char-driver/main.c:197-206 | the first closing write commits everything gathered as one command |
| CommandLog.AcceptAllIsGroup | aesd-char-driver/main.c:148-206 | writing one at a time commits exactly the groups read off the list of writes: up to each write ending in a newline, newlines inside a write not counting |
| CommandLog.SplitsAlike | aesd-char-driver/main.c:149-206 | cutting a write into non-empty pieces, only the last ending in a newline, leaves the same device, whatever was pending |
| Runs.FailureChangesNothing | aesd-char-driver/main.c:144-171 | a call that ends in an error, or never, changes neither history, pending bytes nor any position; an error changes nothing at all |
| Runs.WhatKills | aesd-char-driver/main.c:148-197 | the call that never returns is a write of no bytes, not interrupted, with nothing pending, and no other |
| Runs.DeadForGood | aesd-char-driver/main.c:144-146 | once a caller was killed no call changes anything: the lock is never free |
| Runs.RunIsAcceptAll | aesd-char-driver/main.c:128-212 | the log after any run is that of its accepted writes alone |
| Runs.HistoryOfRun | aesd-char-driver/main.c:148-206 | after any run the commands are the accepted bytes grouped up to each write ending in a newline, the ring shows the newest n, the ungrouped tail is pending and does not end in a newline |
| Runs.WriteTotalIsGathered | aesd-char-driver/main.c:193-211 | the non-negative write results add up to the number of accepted bytes |
| Runs.BytesAreConserved | aesd-char-driver/main.c:193-206 | over every run evicted, readable and pending bytes are the accepted bytes in order, and as many as the writes reported |
| Runs.StreamOnlyGrows | aesd-char-driver/main.c:193-206 | what was accepted stays the beginning of the stream |
| Runs.WhatReturnsBytes | aesd-char-driver/main.c:77-126 | only a read that gets the lock returns bytes, and it moves its file by as many |
| Runs.ReadIsSliceOfStream | aesd-char-driver/main.c:98-123 | a read returns the stream's bytes at its place, counted from the first byte ever accepted |
| Runs.StepMoves | aesd-char-driver/main.c:122 | one call moves a file that is only read by what it returned to it plus what it evicted |
| Runs.GapIsEviction | aesd-char-driver/main.c:98-123 | between reads, a file's place in the stream jumps by exactly the bytes evicted in between |
| Runs.ReadsJoin | aesd-char-driver/main.c:98-123 | with nothing evicted meanwhile, a file's reads join into one gap-free slice of the stream, however other files' calls come in between |
| Calls.WhyCallsFail | aesd-char-driver/main.c:144-171 | what each error code means: -EINTR if and only if a signal came first (a command number of n or more is refused before), -ENOMEM if and only if a write of something was refused memory, -EBADF if and only if the file is not open, -EINVAL only from a seek |
| Calls.DeadCallsFail | aesd-char-driver/main.c:144-146 | on a dead device every call fails and changes nothing |
| Calls.ReadAnswers | aesd-char-driver/main.c:98-125 | a read that gets the lock hands back the content from where its file stands, as many bytes as asked for or up to the end of that command, less what could not be copied; it hands back nothing at the end |
| Calls.SeekThenRead | aesd-char-driver/main.c:224-270 | a seek to a pair and then a read hand back that command's bytes from the offset; a pair that names no byte changes nothing |
| Calls.LlseekThenRead | aesd-char-driver/main.c:57-75 | a seek relative to start, position or end and then a read hand back the content from there, nothing exactly at its end; one that would leave the content changes nothing |
| Calls.PositionIsResultTotal | aesd-char-driver/main.c:122-194 | over any run, a file that is only read and written stands where it stood plus the sum of the results of its own calls |
| FileOperations.PerformRead | aesd-char-driver/main.c:77-126 | a read call hands back exactly the abstract read's bytes |
| FileOperations.Perform | aesd-char-driver/main.c:306-314 | one call on the device class, on any of the open files, is one step of the abstract machine, results and bytes included; it leaves the lock held exactly when the caller was killed |
| FileOperations.PerformAll | aesd-char-driver/main.c:306-314 | any calls in any order on the device class are the abstract run, up to a call that never returns if there is one |
| FileOperations.LoadRunUnload | aesd-char-driver/main.c:332-404 | from load to unload, after any calls with any failures in which nobody was killed, a cleanup that gets the lock leaves no allocation |
| Messages.LineLength | server/aesdsocket.c:361-363 | the line ends at the first newline or NUL |
| Messages.Message.Line | server/aesdsocket.c:361-363 | the line is the beginning of the message without a newline or NUL, up to the first of these if there is one |
| Messages.NewlineWrite | server/aesdsocket.c:243-247 | a newline that is copied ends whatever is pending as one command |
| Messages.CommitsExactlyItsLine | server/aesdsocket.c:222-255 | on an idle device a session adds exactly its line and a newline as one command if and only if it is clean: both writes in full and the line not empty |
| Messages.LeavesPending | server/aesdsocket.c:232-247 | on an idle device a session leaves bytes pending if and only if part of its line was copied and its newline was not |
| Messages.CleanSessionsCommitTheirLines | server/aesdsocket.c:367-406 | clean sessions one at a time leave one command per ordinary message, in order, and nothing pending |
| Messages.StartInContent | server/aesdsocket.c:264-272 | a freshly opened file is within the content after the ioctl, and at 0 after the ordinary message's pair |
| Messages.ReadExtendsSent | server/aesdsocket.c:274-285 | one more read, of which any part is sent, extends what is sent to a longer stretch of the content |
| Messages.ReadExtendsEcho | server/aesdsocket.c:274-285 | one turn of the send loop keeps the echo exact, whether all or a part of what was read is sent |
| Messages.EndIsExact | server/aesdsocket.c:274-285 | a read that returns nothing leaves the whole content from the start sent, or less of it when cut short |
| Protocol.MovesOneThread | server/aesdsocket.c:367-406 | an event moves its own thread alone, and into or out of the file section only with the mutex; the device changes only by the holder's events |
| Protocol.SendsAlike | server/aesdsocket.c:281 | what the holder's event sends is added to its echo and to its own client's bytes, a part of a short send included; nobody else receives anything |
| Protocol.KeepsExclusive | server/aesdsocket.c:367-406 | every event keeps exactly the holder of the mutex in the file section |
| Protocol.KeepsSerial | server/aesdsocket.c:367-406 | every event keeps the device what the sessions one at a time make of it |
| Protocol.KeepsHolder | server/aesdsocket.c:377-399 | every event keeps the holder's stage in step with its message, its writes so far and an exact echo so far |
| Protocol.KeepsInOrder | server/aesdsocket.c:234-247 | in every session the newline was written only after the line's write had returned |
| Protocol.KeepsEchoes | server/aesdsocket.c:274-285 | every session on record keeps its one exact echo |
| Protocol.KeepsEndings | server/aesdsocket.c:386-406 | every echo on record has ended; one that ended in an error is its thread's last |
| Protocol.KeepsClients | server/aesdsocket.c:281 | every client keeps having exactly its own thread's echoes |
| Protocol.KeepsInv | server/aesdsocket.c:367-406 | every event keeps all of the above together |
| Protocol.HowMessagesMove | server/aesdsocket.c:328-391 | only taking the mutex begins a session, with the message its thread waited with; only a receive makes a thread wait |
| Protocol.MessagesTraced | server/aesdsocket.c:328-391 | in any run, every session handles the message of a receive of its own thread, a thread's sessions in the order of these receives, and a message not handled yet is of a later one |
| Protocol.RunsAreSerial | server/aesdsocket.c:328-406 | after any run of any threads with any failures, the device is exactly as if sessions had been handled one at a time in mutex order, each in order within itself; every session handles a message its own thread received, in the order of the receives; exactly the holder is in the file section |
| Protocol.ClientsReceiveTheirEchoes | server/aesdsocket.c:257-293 | in every run each session that left the section has one echo, the content as it left it from where its ioctl put it; each client has received exactly its own thread's echoes in order; an echo is partial only if a read could copy nothing or an error ended it, and then that thread is gone and it was its last |
| Isolation.StepsAsIfAlone | server/aesdsocket.c:299-421 | in any run every event, except a lock that has to wait, does for its thread, its client, its session and the device what it would do if there had never been another thread |
| Isolation.NothingReceivedIsLost | server/aesdsocket.c:327-417 | in any run in which a thread receives only when it is back at its receive and its lock does not fail, the messages it received are those of its sessions, in order, and then the one it waits with, if it does |
| Promises.FullCopiesFinish | server/aesdsocket.c:274-285 | in any run with full copies every echo is whole, except at most the last of a thread that an error ended |
| Promises.IdleDevice | server/aesdsocket.c:367-406 | in any run, whenever the mutex is free and the sessions so far were clean, the history is the lines in mutex order and nothing is pending |
| Promises.ClientsSeeTheNewestLines | server/aesdsocket.c:383-399 | in any run, an ordinary message's finished echo is the whole content as of its own commit; when the sessions up to it are clean, the newest n lines, its own last |
| Promises.SeekEcho | server/aesdsocket.c:377-399 | in any run a seek message leaves the device untouched, and its finished echo is the content from the pair on, or all of it when there is no such byte or the ioctl was interrupted |
| Promises.SerializedIffClean | server/aesdsocket.c:383-391 | in any run the device held one command per ordinary message, in order, with nothing pending, between all sessions, if and only if every session was clean |
| Promises.UncleanSessionShows | server/aesdsocket.c:232-247 | a session that is not clean leaves the device other than clean sessions do |
| Promises.SmoothRuns | server/aesdsocket.c:328-406 | in any run in which nothing fails or falls short and no line is empty, every session handles a message its own thread received, in order, was clean and has a finished echo; each client has received exactly what its messages are due, in order; the idle device holds exactly the lines in mutex order; nobody is killed |
| Promises.FailedNewlineJoinsLines | server/aesdsocket.c:243-247 | the run in which a refused newline write joins a line to the next thread's |
| Progress.KilledForGood | server/aesdsocket.c:367-372 | after a thread is killed nobody takes the mutex, writes, sends or finishes a session again |
| Progress.WhoIsKilled | server/aesdsocket.c:234 | in any run a thread is killed exactly by writing an empty line with nothing pending and no signal first |
| Progress.EmptyLineStopsTheServer | server/aesdsocket.c:361-387 | one message with an empty line to a new device, and no message is ever handled |
| Progress.HolderGoesOn | server/aesdsocket.c:377-406 | the holder's next event, whatever its calls meet, changes the state and brings it nearer to unlocking |
| Progress.NobodyIsStuck | server/aesdsocket.c:367-406 | in any run a holder that was not killed has such an event, and when the mutex is free any thread waiting for it can take it |
| Progress.OthersDoNotDelay | server/aesdsocket.c:367-372 | while the mutex is held, other threads' events leave device, holder and the holder's distance to unlocking alone |
| Progress.ErrorsDoNotDelay | server/aesdsocket.c:386-398 | an I/O error does not take the holder further from unlocking |
| Progress.SectionIsBounded | server/aesdsocket.c:367-406 | in any run the holder takes a bounded number of steps before it gives the mutex back |
| Connections.Connection.Recv | server/aesdsocket.c:328 | a receive stores what came at the place given, within the buffer, and reports error, end or count |
| Connections.Connection.Send | server/aesdsocket.c:281 | a send adds a beginning of the buffer to what the client has |
| Connections.FullThenShort | server/aesdsocket.c:342-359 | full receives and then a short one are one message: all their bytes in order |
| Connections.ReceiveMessage | server/aesdsocket.c:321-359 | gathers the connection's next message, terminated, in a buffer at most 1000 bytes longer than it, every store in bounds; fails only if a receive does |
| FileSection.ReadStep | server/aesdsocket.c:274-285 | one turn of the send loop in the protocol: what is read and sent, how far the file moves, and when and how the loop ends |
| FileSection.ReadAndSend | server/aesdsocket.c:274-285 | one turn of the send loop is one event of the protocol: it sends the next stretch of the content, a part of it when the send is short; with full copies it stops only at the end |
| FileSection.SendToEnd | server/aesdsocket.c:274-285 | the send loop ends, with an exact echo: whole when it succeeds with full copies; it succeeds when no call fails |
| FileSection.SendDataFileToClient | server/aesdsocket.c:257-293 | the client gets an exact echo from the position the seek ioctl leaves, errors of the ioctl ignored, the device unchanged; a close that fails is an error after the echo |
| FileSection.WriteOnce | server/aesdsocket.c:234 | one write's result and the device after it, with when it fails and when it does not return |
| FileSection.WriteDataToFile | server/aesdsocket.c:222-255 | the device is what the two writes, line then newline, make of it, with whatever they met; success means both were accepted; it does not return exactly when an empty line is written with nothing pending |
| Server.Strchrnul | server/aesdsocket.c:363 | stops at the end of the line, within the terminated string |
| Server.TerminatedPrefix | server/aesdsocket.c:377-378 | comparing the terminated buffer with the seek command is comparing the message with it |
| Server.DoFileIo | server/aesdsocket.c:374-399 | under the mutex one message is one session on the device and one exact echo to its client; with no failure the session of a message with a line is clean |
| Server.OneHandled | server/aesdsocket.c:386-406 | unlocking puts one session and its echo on record, the thread going on or, after an error, out |
| Server.HandleMessage | server/aesdsocket.c:361-406 | one message is at most one session with one exact echo, the file mutex free on every path that returns; with no failure a message with a line is handled, its session clean |
| Server.ServeMessage | server/aesdsocket.c:327-417 | receives and handles the connection's next message: its session and exact echo, and what is left to receive, with a buffer of 1000 bytes for the next |
| Server.ServerThread | server/aesdsocket.c:299-421 | over a whole connection the messages handled are the connection's in order, all of them when the client closes, as it does when nothing fails and every message has a line; the client has received exactly one exact echo for each; the device is what their sessions make of it; the mutex is free unless the thread was killed; all of it is a run of the protocol |
| Registry.ThreadRegistry.Interfere | server/aesdsocket.c:334-341 | what server threads may do between two steps of the main thread: set their flags and end |
| Registry.ThreadRegistry.FindDone | server/aesdsocket.c:611-614 | the scan stops at a record that is done, and passes none that was done when it began |
| Registry.ThreadRegistry.AcceptAndReap | server/aesdsocket.c:577-629 | one accept adds one record and reaps at most one, that is done, joined, closed and freed once, in this order; some thread done at the start guarantees one is reaped; a thread that ended without its flag never gets it |
| Registry.ThreadRegistry.Serve | server/aesdsocket.c:577-630 | over any number of accepts each record is listed or freed, never both nor twice; as many are freed as there are accepts or, if that is less, records done at the start; the list never gets shorter; a record whose thread ended on an error is never freed and its connection stays open |

## Left out

- Kernel registration, open and release, ioctl number decoding, socket setup, daemonising, signals and logging: no log behaviour.
- Two calls on one open file at the same time: each call is one atomic step under the device lock.
- Integer widths: sizes and positions are natural numbers. The ring's eight-bit offsets are covered by the bound of 255 on its capacity.
- Address reuse is covered for heap blocks (any address without a live block may be given), not for thread records, which are named by the number of their accept.
- The values of write_cmd and write_cmd_offset after sscanf are arbitrary, which also covers a parse that fails.
- realloc and the first malloc of a server thread always succeed; pthread_mutex_unlock always succeeds; open files leaked on error paths are not tracked.
- What the kernel does after it has killed a thread, beyond that its locks stay held.
- Server.ServerThread: runs one thread with nobody else about; interleaved threads are in Protocol, whose events the thread's methods are proved to amount to.
- Registry.ThreadRegistry.AcceptAndReap: thread creation and join always succeed, so the error exits of main are not modelled.
- Registry.ThreadRegistry.Serve: does not say that a given done record is reaped in the end; newer ones at the head of the list can be done first each time.
- The timestamp thread, compiled out when the character device is used.
