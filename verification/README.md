# Verified model of the xcore RTOS drivers

This project models the protocols and algorithms of the xcore RTOS driver repository that are hard to get
right, and proves what they promise.  `dafny verify dfyconfig.toml` checks all of it.

There are two kinds of model.

* **Protocols between tasks, interrupts, cores and I/O threads** are transition systems: a state, an event
  for each atomic step of the code, a guard, and the step.  Their theorems hold for every run, that is for
  every interleaving.  RTOS objects (mutex, semaphore, event group), streaming channels and interrupt
  triggers are atomic primitives of these systems; what is not protected by one of them is split into its
  loads and stores.
  Besides what every run keeps, progress is proved: from every state that can be reached, steps of the system
  itself lead to where what is in progress has been done, so that nothing is held, owed or on its way for good.
* **Sequential code** is methods over arrays, linked objects and class fields, with the loops of the source.
  Each is proved against a specification function, and what the source promises is proved about that function.

| Files | Part of the repository |
|---|---|
| `Intertile`, `IntertileSplit`, `IntertileProgress` | the framed link between tiles, shared by many tasks and ports |
| `Rpc`, `RpcCalls`, `RpcRemote` | RPC messages and whole remote calls |
| `AudioRing`, `AudioSide`, `AudioWakeups`, `AudioBuffer` | the I2S and mic-array ring buffers and their blocking handshake |
| `Permute`, `LongOptions`, `Getopt`, `GetoptLines`, `MergeSort`, `HashTable` | the algorithms of argtable3 |
| `Irq`, `IrqFaults`, `IrqProgress`, `IrqSources` | inter-core interrupts and the recursive lock under them |
| `I2cSlave` | the I2C slave's three-party protocol |
| `FlashLock`, `FlashProgress`, `FlashOps` | the QSPI flash lock, and programming and erasing |
| `MkImage`, `MkImageTool` | the data-partition image tool |
| `Clock` | the RTOS clock |
| `Arith`, `Seqs`, `Wrappers` | arithmetic and sequence facts and the option type they share |

## Findings

Some things one would expect of the code are not so.  Each has a concrete run or input, and the condition
under which the property does hold is proved.

* A call of `getopt_internal` that returns -1 leaves the stable partition of the whole vector, with `optind` at its
  first non-option, if and only if it does not come from a lone dash at the end of a cluster of option letters, where
  the dash is no option and there are no long options (`Getopt.NextKeeps`, `Getopt.ScanRun`).  From such a dash the
  vector stays as it is with `optind` at an option, which is never the partition (`Getopt.NeverPartitioned`): in
  `prog x -a-` the option is left behind a non-option (`Getopt.DashTailExample`), in `prog -a- x -b` the options
  are left unread although nothing was skipped before (`Getopt.DashTailFirst`).
* An audio call that retries after a time-out may ask for more words than the call that timed out, but no more than
  that call or one hardware block, whichever is more.  Every run is sound if and only if all retries a caller allows
  itself keep this rule (`AudioSide.RetriesExact`); any other retry has a run, for every block that fits into the
  buffer, in which it reads words that are not there (`AudioSide.RetryForMoreUnderflows`) or overwrites words that
  have not been sent (`AudioSide.RetryForMoreOverwrites`).
* Any core that takes interrupts and does not mask them while it uses the lock can lose a wake-up by posting to
  itself, and for good, since every later poster finds bits pending and sends none
  (`IrqFaults.UnmaskedSelfPostIsLost`); and it can end up in the critical section together with any other core
  (`IrqFaults.UnmaskedAcquireBreaksTheLock`).  On every run the wake-ups are sound, and with two cores or more the
  lock is, if and only if every such core masks them (`IrqFaults.WakeupsExact`, `IrqFaults.LockExact`).
* The same hazard exists on any core where a low-level flash read can interrupt a task in the middle of taking the
  spinlock (`FlashLock.UnmaskedReadBreaksTheLock`); tasks and low-level readers exclude one another on every run if
  and only if every core that has both masks interrupts there (`FlashLock.ExclusionExact`).
* The clock's lock does not keep the own core's interrupt from incrementing the clock in the middle of the copy that
  `rtos_time_get` makes.  Where a tick that lands there carries into the seconds the copy is a whole second out, in
  either direction (`Clock.TornCopy`).  A copy that takes less than a second is the clock as it was at some moment in between if and
  only if no carry comes between the load of a word of the seconds that it changes and that of the microseconds
  (`Clock.ShortCopyWasSo`).  Whatever the clock shows, that is certain if and only if no tick lands between the loads,
  which masking the interrupts ensures (`Clock.ShortCopyAlwaysWasSo`; `Clock.CopyIsWhole` is the condition, for a copy
  of any length, to be the clock at the last load).  `rtos_time_set` has the same gap (`Clock.SetIsWhole`).
* A remote call does to the client's memory what a local one would, whatever the arguments and whatever the host's
  fresh memory holds, if and only if the outputs of the function do not depend on what its output buffers held
  before (`RpcRemote.RemoteIsLocal`).  One that gives up before it has written its buffer leaves the local caller's
  bytes alone, and overwrites the remote caller's with the host's (`RpcRemote.UnwrittenOutputIsLost`).
* A length call on the intertile link that times out returns the length shared with other ports; it is zero exactly
  if no task is part way through a split message (`IntertileSplit.TimeoutLength`,
  `IntertileSplit.TimeoutReturnsAnotherLength`).
* `erase_op` erases a sector on an empty request that starts inside it, and too little when the length plus the offset
  in the first sector reaches 2^32 (`FlashOps.EraseExact` is the exact condition).
* `rtos_time_set` keeps any microseconds below 2^20, more than the one second it is meant for, and above that it loses
  bits (`Clock.SetThenGet`).
* The response marshaller asserts on the size of every scalar parameter, also of those that are inputs only
  (`RpcCalls.ResponseMarshall`).

## Model

| member | source | states |
|---|---|---|
| Intertile.DecodeWord | modules/drivers/intertile/src/rtos_intertile.c:45-46 | the length word a sender puts into the channel is the length a receiver gets |
| Intertile.HeadFrame | modules/drivers/intertile/src/rtos_intertile.c:66-124 | a whole frame taken from the head of the byte stream is the next frame that was sent, and what follows is the rest of the stream |
| Intertile.SendKeeps | modules/drivers/intertile/src/rtos_intertile.c:28-38 | taking the mutex for a frame, with one call or with a length call, keeps the link's invariant |
| Intertile.SendDataKeeps | modules/drivers/intertile/src/rtos_intertile.c:40-53 | a data call of any size, cut to what is missing, keeps it |
| Intertile.SendDoneKeeps | modules/drivers/intertile/src/rtos_intertile.c:40-64 | the mutex is given back only when the frame is complete, and then nothing of it is missing |
| Intertile.FireKeeps | modules/drivers/intertile/src/rtos_intertile.c:11-16 | the interrupt can only come at a frame boundary with no other receive activity |
| Intertile.IsrInKeeps | modules/drivers/intertile/src/rtos_intertile.c:18-18 | the byte the interrupt reads is the port byte of the next frame, never another byte |
| Intertile.WakeKeeps | modules/drivers/intertile/src/rtos_intertile.c:99-112 | the task that gets the event bit is the one whose frame is at the head of the channel |
| Intertile.GotLenKeeps | modules/drivers/intertile/src/rtos_intertile.c:76-78 | the length read is the frame's, and the shared length is zero when a split receive starts |
| Intertile.RecvDoneKeeps | modules/drivers/intertile/src/rtos_intertile.c:84-124 | the trigger is turned on again exactly when the whole frame has been read, which leaves the link at a frame boundary |
| Intertile.StepKeeps | modules/drivers/intertile/src/rtos_intertile.c:11-124 | every step of every sender, of the interrupt and of every receiver keeps the invariant and meets the driver's assertions |
| Intertile.DeliveredInOrder | modules/drivers/intertile/src/rtos_intertile.c:11-124 | over every run, the messages received on a port are a prefix of those sent to it in mutex order, each whole, once and on no other port; one mutex release and one trigger re-arm per frame |
| Intertile.OnePlace | modules/drivers/intertile/src/rtos_intertile.c:11-124 | over every run the receive side is in exactly one place (armed at a frame boundary, in the interrupt, one event bit set with the length next, one task inside the frame), and no assertion fires |
| Intertile.AssertsHold | modules/drivers/intertile/src/rtos_intertile.c:32-32 | the assertions on the transmit and receive lengths hold in every reachable state |
| IntertileProgress.AllCanBeDelivered | modules/drivers/intertile/src/rtos_intertile.c:11-124 | from every reachable state there is a run with no new frame after which each port has got every message sent to it, whole and in order, the mutex is free, the trigger is on and every task idle |
| IntertileSplit.SplitSend | modules/drivers/intertile/src/rtos_intertile.c:28-64 | sending in any pieces leaves the same bytes in the channel, the same frame and one mutex release as sending with one call |
| IntertileSplit.CallsRun | modules/drivers/intertile/src/rtos_intertile.c:28-64 | a sequence of whole sender calls is a run of the link byte by byte |
| IntertileSplit.SplitReceive | modules/drivers/intertile/src/rtos_intertile.c:66-124 | reading in any pieces returns the same message, turns the trigger on once, and leaves the same link as reading with one call |
| IntertileSplit.TookAllRun | modules/drivers/intertile/src/rtos_intertile.c:84-97 | a sequence of data calls of any sizes is a run of the link byte by byte |
| IntertileSplit.OpenRun | modules/drivers/intertile/src/rtos_intertile.c:66-82 | so are the steps of a receive up to the length word |
| IntertileSplit.TimeoutLength | modules/drivers/intertile/src/rtos_intertile.c:66-82 | a timed-out length call returns zero if and only if no task is part way through a split message |
| IntertileSplit.TimeoutReturnsAnotherLength | modules/drivers/intertile/src/rtos_intertile.c:72-81 | a run in which a length call on one port times out and returns the length of another port's message |
| Rpc.IntRoundTrip | modules/drivers/rpc/src/rtos_rpc.c:37-40 | a function code or count survives being copied into a message and out of it |
| Rpc.DescRoundTrip | modules/drivers/rpc/api/rtos_rpc.h:62-80 | so does a descriptor with its 24-bit length and its three flags |
| Rpc.Params | modules/drivers/rpc/src/rtos_rpc.c:21-27 | the parameters are those before the first descriptor that goes neither way |
| Rpc.PackAt | modules/drivers/rpc/src/rtos_rpc.c:44-51 | every value in a parameter area is found whole at its offset |
| Rpc.PackUpdate | modules/drivers/rpc/src/rtos_rpc.c:90-96 | overwriting one value in place changes that value and no other |
| Rpc.HeaderReads | modules/drivers/rpc/src/rtos_rpc.c:68-79 | the function code, the count and each descriptor of a request read back as they were written |
| RpcCalls.RequestMarshall | modules/drivers/rpc/src/rtos_rpc.c:13-54 | the buffer, sized before it is filled, is filled exactly by the header and the inputs in order |
| RpcCalls.ListSize | modules/drivers/rpc/src/rtos_rpc.c:21-27 | the list is scanned up to its end, and the size computed is what the inputs take up |
| RpcCalls.RequestParse | modules/drivers/rpc/src/rtos_rpc.c:68-79 | parsing finds the code and count that were sent, and where descriptors and parameters start |
| RpcCalls.RequestUnmarshall | modules/drivers/rpc/src/rtos_rpc.c:81-113 | each parameter gets its own input: a pointer to it in the message, its value, null for an empty buffer, or a placeholder for an output buffer |
| RpcCalls.InputAt | modules/drivers/rpc/src/rtos_rpc.c:81-113 | the bytes behind such a pointer are the client's input |
| RpcCalls.Widen | modules/drivers/rpc/src/rtos_rpc.c:153-176 | a scalar passed widened to 4 or 8 bytes is narrowed back to what it was |
| RpcCalls.ResponseMarshall | modules/drivers/rpc/src/rtos_rpc.c:124-184 | it succeeds if and only if every scalar is 1, 2, 4 or 8 bytes wide, and then the buffer is filled exactly by the code and the outputs in order |
| RpcRemote.StoreInPlace | modules/drivers/rpc/src/rtos_rpc.c:90-96 | a host that writes to an in-out buffer, which lies in the request, changes neither another parameter nor a descriptor |
| RpcRemote.AnswersHold | modules/drivers/rpc/src/rtos_rpc.c:146-181 | what the host passes back stands for the function's outputs, in-out buffers through the request |
| RpcRemote.Host | modules/drivers/i2c/src/rtos_i2c_master_rpc.c:166-216 | a host stub calls the function with exactly the client's inputs, and fresh memory for what is only an output, and answers with exactly its outputs |
| RpcRemote.ResponseParse | modules/drivers/rpc/src/rtos_rpc.c:198-205 | the function code of the answer is the one that was sent |
| RpcRemote.ResponseUnmarshall | modules/drivers/rpc/src/rtos_rpc.c:207-220 | every output lands at the start of its argument and nothing else changes |
| RpcRemote.CallGeneric | modules/drivers/rpc/src/rtos_rpc.c:231-271 | a remote call stores into the client's arguments what the function gives for its inputs and whatever the host's memory holds, for any descriptor list; it fails exactly on a scalar of another width; its two assertions hold |
| RpcRemote.RemoteIsLocal | modules/drivers/i2c/src/rtos_i2c_master_rpc.c:190-217 | that is what a local call would do, for all arguments and all host memory, if and only if the function's outputs do not depend on what its output buffers held |
| RpcRemote.UnwrittenOutputIsLost | modules/drivers/i2c/src/rtos_i2c_master_rpc.c:206-212 | a function that does not write its output, for which a local and a remote call differ |
| AudioRing.FillLevel | modules/drivers/mic_array/src/rtos_mic_array.c:40-41 | the difference of the free-running totals modulo 2^32 is the true fill level however often they have wrapped |
| AudioRing.PutKeeps | modules/drivers/mic_array/src/rtos_mic_array.c:53-64 | putting a word into a free slot overwrites no unread word |
| AudioRing.TakeKeeps | modules/drivers/mic_array/src/rtos_mic_array.c:117-128 | taking a published word yields the next word of the history |
| AudioRing.PublishKeeps | modules/drivers/mic_array/src/rtos_mic_array.c:66-67 | publishing keeps the buffer's invariant and leaves nothing unpublished |
| AudioRing.ReleaseKeeps | modules/drivers/mic_array/src/rtos_mic_array.c:130-131 | so does releasing the words read |
| AudioRing.PutAllKeeps | modules/drivers/i2s/src/rtos_i2s.c:299-314 | a block that fits is appended to the history as a whole |
| AudioRing.TakeAllKeeps | modules/drivers/i2s/src/rtos_i2s.c:247-262 | n published words are the next n words of the history in order |
| AudioSide.DoKeeps | modules/drivers/i2s/src/rtos_i2s.c:51-142 | every step of the hardware side and of a caller that keeps the retry rule, no more than the timed-out call or one block, keeps the ring, the required count and the wake-ups consistent |
| AudioSide.AudioRun | modules/drivers/i2s/src/rtos_i2s.c:218-320 | over every run of either direction whose retries keep the rule: words leave in order of arrival, whole blocks at a time; the fill level is true; whoever copies has room for all of it; a blocked caller has exactly one wake-up coming |
| AudioSide.RetriesExact | modules/drivers/i2s/src/rtos_i2s.c:232-262 | all that holds on every run if and only if every retry the caller allows itself keeps the rule, for any relation of allowed retries and any block size |
| AudioSide.OverrunDropsBlock | modules/drivers/i2s/src/rtos_i2s.c:58-64 | a block that does not fit, or is not there, leaves the ring untouched |
| AudioSide.RetryForMoreUnderflows | modules/drivers/i2s/src/rtos_i2s.c:232-262 | for every block size that fits and any retry against the rule, a run in which it copies with only the words of the timed-out call or of one block there |
| AudioSide.RetryForMoreOverwrites | modules/drivers/i2s/src/rtos_i2s.c:284-311 | the same in the send direction, with only that many slots free |
| AudioWakeups.StepKeeps | modules/drivers/i2s/src/rtos_i2s.c:20-36 | every step keeps the wake-ups of a direction equal to its bits in the command byte, the channel and the interrupt |
| AudioWakeups.I2sRun | modules/drivers/i2s/src/rtos_i2s.c:20-142 | over every run of the I/O thread, the interrupt and both callers whose retries keep the rule: in each direction exactly one of required count, resume bit and semaphore count while blocked, none otherwise |
| AudioWakeups.WakeupsArrive | modules/drivers/i2s/src/rtos_i2s.c:20-36 | from every such state, by flushes and interrupt steps alone, a resume bit in the command byte, the channel or the interrupt reaches the semaphore of its direction, and a waiting caller can go on |
| AudioWakeups.MicDelivers | modules/drivers/mic_array/src/rtos_mic_array.c:72-79 | a wake-up that the interrupt has decided on is in the semaphore after its next step |
| AudioWakeups.MicRun | modules/drivers/mic_array/src/rtos_mic_array.c:36-137 | the same for the mic array, whose interrupt posts the semaphore itself |
| AudioBuffer.PutChunk | modules/drivers/mic_array/src/rtos_mic_array.c:54-63 | one memcpy up to the wrap-around point equals moving its words one by one |
| AudioBuffer.TakeChunk | modules/drivers/mic_array/src/rtos_mic_array.c:118-127 | so does one memcpy out of the buffer |
| AudioBuffer.Buffer.constructor | modules/drivers/mic_array/src/rtos_mic_array.c:147-149 | a new buffer is empty and consistent |
| AudioBuffer.Buffer.WordsAvailable | modules/drivers/i2s/src/rtos_i2s.c:54-54 | the 32-bit difference is the number of words put and not yet taken |
| AudioBuffer.Buffer.WriteBlock | modules/drivers/mic_array/src/rtos_mic_array.c:53-67 | the copy loop with its wrap-around puts the whole block and publishes it |
| AudioBuffer.Buffer.ReceiveOrDrop | modules/drivers/mic_array/src/rtos_mic_array.c:39-70 | a block is kept whole exactly if it fits, and dropped whole otherwise |
| AudioBuffer.Buffer.ReadWords | modules/drivers/i2s/src/rtos_i2s.c:247-262 | the caller's memory gets the next n words of the history and keeps the rest of its contents |
| AudioBuffer.Buffer.I2sReceive | modules/drivers/i2s/src/rtos_i2s.c:51-81 | without a filter a frame goes in whole exactly if it fits, with one copy that stays inside the buffer |
| AudioBuffer.Buffer.I2sSend | modules/drivers/i2s/src/rtos_i2s.c:98-127 | without a filter a frame goes out exactly if all of it is there, and is the next words of the history |
| AudioBuffer.AlignedFits | modules/drivers/i2s/src/rtos_i2s.c:74-78 | in a buffer of whole frames a frame at a frame boundary does not cross the end, and the next index is a boundary again |
| Permute.Gcd | tools/fatfs_mkimage/argtable/argtable3.c:1473-1487 | the result divides both numbers and every common divisor is at most it |
| Permute.WalkCycle | tools/fatfs_mkimage/argtable/argtable3.c:1506-1522 | walking one cycle moves each of its slots to its place and touches no other slot |
| Permute.CycleDisjoint | tools/fatfs_mkimage/argtable/argtable3.c:1500-1522 | the cycles are disjoint, and after i of them exactly their slots have their final content |
| Permute.ExchangedAt | tools/fatfs_mkimage/argtable/argtable3.c:1500-1522 | gcd-many cycles together cover every slot of the two blocks |
| Permute.PermuteArgs | tools/fatfs_mkimage/argtable/argtable3.c:1493-1523 | the array ends up with the second block before the first, order kept inside each, all else untouched |
| LongOptions.FindRow | tools/fatfs_mkimage/argtable/argtable3.c:1565-1598 | the matching loop finds what the typed name means in the table of long options: the first exact match, else the one row it abbreviates, else that it is ambiguous or unknown |
| LongOptions.FindMeans | tools/fatfs_mkimage/argtable/argtable3.c:1573-1598 | so does the loop's specification, whose meaning is given without reference to the order of the search |
| Getopt.Scanner.GetoptInternal | tools/fatfs_mkimage/argtable/argtable3.c:1695-1912 | one call, with its in-place permutations, its return value, `optarg` and `optopt`, is one step of the scanner's specification |
| Getopt.Scanner.Skip | tools/fatfs_mkimage/argtable/argtable3.c:1758-1793 | skipping a non-option moves an earlier block of non-options up to it |
| Getopt.Scanner.ReadOption | tools/fatfs_mkimage/argtable/argtable3.c:1817-1911 | one option letter or long option moves the scanner as specified |
| Getopt.Scanner.TakeArgument | tools/fatfs_mkimage/argtable/argtable3.c:1893-1908 | a letter's argument is the rest of its element or, unless optional, the next element, and is in `optarg` |
| Getopt.Scanner.ParseLong | tools/fatfs_mkimage/argtable/argtable3.c:1530-1689 | a long option is matched by name up to an equals sign; its argument is what follows the sign, or the next element if it needs one and there is one |
| Getopt.Update | tools/fatfs_mkimage/argtable/argtable3.c:1737-1815 | the scan stays well formed: the skipped block is never empty when it is permuted, nor is the block of options |
| Getopt.Classify | tools/fatfs_mkimage/argtable/argtable3.c:1817-1911 | reading an option moves on by at most its element and one argument, which is then in `optarg`, and returns -1 only for a lone trailing dash |
| Getopt.NextKeeps | tools/fatfs_mkimage/argtable/argtable3.c:1695-1912 | one call keeps the vector a partly permuted original, passing any number of non-options and then at most one option with at most one argument, which is in `optarg`; a call that returns -1 passes no option and leaves the stable partition of the whole vector unless a lone dash was left, and then the vector is as it was and no partition |
| Getopt.ScanRun | tools/fatfs_mkimage/argtable/argtable3.c:1695-1912 | over a whole run, a final -1 means that all of the vector, or all up to `--`, has been scanned and is options with their arguments first, then non-options, both in original order, with optind at the first non-option; it means that if and only if no lone dash was left |
| Getopt.PartitionPlace | tools/fatfs_mkimage/argtable/argtable3.c:1737-1756 | in the partition optind is at a non-option, or behind all that was scanned |
| Getopt.NeverPartitioned | tools/fatfs_mkimage/argtable/argtable3.c:1855-1856 | a vector with optind at an option is not the partition, however it is read |
| Getopt.DashTailExample | tools/fatfs_mkimage/argtable/argtable3.c:1855-1856 | a command line on which a lone dash leaves an option behind a skipped non-option |
| Getopt.DashTailFirst | tools/fatfs_mkimage/argtable/argtable3.c:1855-1856 | one on which it leaves options unread although no non-option was skipped |
| GetoptLines.LineReadBack | tools/fatfs_mkimage/argtable/argtable3.c:1695-1912 | a table of letters with their needs printed as the option string, and a line of operands, clusters, arguments attached or separate, and long options in full or abbreviated printed as arguments, are read back: successive calls return exactly those options and arguments in order, complain of unknown letters and names and of a missing argument with the right code and `optopt`, and end with optind at the operands |
| GetoptLines.ReadsLongOnly | tools/fatfs_mkimage/argtable/argtable3.c:1825-1845 | where one dash is enough, a long option that the typed name reaches gives its value and argument |
| GetoptLines.FallsBackToLetters | tools/fatfs_mkimage/argtable/argtable3.c:1825-1845 | there an element that names no long option and starts with an option letter is read as without long options of one dash |
| GetoptLines.ReadsAfterW | tools/fatfs_mkimage/argtable/argtable3.c:1870-1888 | a long option behind a W, attached or in the next element, gives its value and argument |
| MergeSort.Merge | tools/fatfs_mkimage/argtable/argtable3.c:387-437 | merging two adjacent runs in place gives their merge with ties from the right, and leaves the rest of the array |
| MergeSort.ArgMgsort | tools/fatfs_mkimage/argtable/argtable3.c:439-452 | the range becomes the stable sort of its reversal, and the rest of the array is untouched |
| MergeSort.TieOrderReversed | tools/fatfs_mkimage/argtable/argtable3.c:387-452 | that is sorted, a permutation, and has each class of equal elements in exactly reversed order |
| MergeSort.StableSortFacts | tools/fatfs_mkimage/argtable/argtable3.c:439-452 | the reference sort sorts, permutes and keeps equal elements in order |
| MergeSort.SortConcat | tools/fatfs_mkimage/argtable/argtable3.c:398-417 | merging the sorts of two halves with ties from the right sorts the halves in exchanged order |
| HashTable.HashTable.constructor | tools/fatfs_mkimage/argtable/argtable3.c:558-589 | a new table is the empty map, with the least listed prime above the requested size |
| HashTable.HashTable.Expand | tools/fatfs_mkimage/argtable/argtable3.c:591-624 | growing to the next prime relinks every entry and keeps the map; at the last prime nothing happens |
| HashTable.HashTable.TransferAll | tools/fatfs_mkimage/argtable/argtable3.c:606-617 | all entries end up in the new slots, each in the bucket of its hash |
| HashTable.HashTable.Insert | tools/fatfs_mkimage/argtable/argtable3.c:630-651 | a key that is not there is added to the map, the count is its size, and the table grows exactly if the load limit would be passed and there is a next prime, which keeps the load within the limit |
| HashTable.LoadLimitIsLeast | tools/fatfs_mkimage/argtable/argtable3.c:587-587 | the load limit is the least whole number that is at least the load factor, the 32-bit float nearest 0.65, times the length |
| HashTable.HashTable.Search | tools/fatfs_mkimage/argtable/argtable3.c:653-668 | the value found is the map's, or nothing exactly if the key is not there |
| HashTable.HashTable.Remove | tools/fatfs_mkimage/argtable/argtable3.c:670-698 | the key leaves the map and the count follows; a missing key changes nothing |
| HashTable.HashTable.RemoveAt | tools/fatfs_mkimage/argtable/argtable3.c:686-695 | unlinking through the slot or through the predecessor takes exactly that entry out of its bucket |
| HashTable.HashTable.Register | tools/fatfs_mkimage/argtable/argtable3.c:4780-4821 | registering a command replaces what was registered under its name |
| HashTable.HashTable.Unregister | tools/fatfs_mkimage/argtable/argtable3.c:4823-4825 | unregistering removes it and nothing else |
| HashTable.RepresentsSize | tools/fatfs_mkimage/argtable/argtable3.c:626-628 | the number of entries is the number of keys of the map |
| HashTable.MoveEntry | tools/fatfs_mkimage/argtable/argtable3.c:609-616 | moving one entry between tables keeps both well formed |
| HashTable.FlatOnce | tools/fatfs_mkimage/argtable/argtable3.c:730-800 | the buckets in iteration order hold every entry exactly once |
| HashTable.Iterator.constructor | tools/fatfs_mkimage/argtable/argtable3.c:730-751 | an iterator starts with all entries still to be visited |
| HashTable.Iterator.Advance | tools/fatfs_mkimage/argtable/argtable3.c:765-800 | advancing moves exactly the current entry from the unvisited to the visited ones, and says whether one is left |
| HashTable.Iterator.Remove | tools/fatfs_mkimage/argtable/argtable3.c:802-829 | removing the current entry takes its key out of the map and goes on with exactly the remaining entries in their order |
| Irq.StepKeeps | modules/rtos_support/src/rtos_irq.c:52-157 | every step of every sender and handler keeps the lock, the pending bits and the tokens consistent, interrupts being masked while a core that takes them uses the lock |
| Irq.OneWakeup | modules/rtos_support/src/rtos_irq.c:52-157 | over every such run: token plus handler plus sender is one exactly if the core has pending bits; the handler's assertion holds and its token is there |
| Irq.EveryPostIsSeen | modules/rtos_support/src/rtos_irq.c:71-76 | over every such run: a posted source is in the first snapshot after the post, or still pending with no snapshot since |
| Irq.LockIsExclusive | modules/rtos_support/api/rtos_locks.h:31-72 | over every such run: the counter is the nesting depth of the one core that is inside, and the hardware lock is given back only at depth zero |
| IrqFaults.UnmaskedSelfPostIsLost | modules/rtos_support/src/rtos_irq.c:126-156 | for any number of cores and any core that takes interrupts and does not mask them, a run that ends with a pending bit, no token and every core idle; on every run from there the bit stays pending, and no token and no snapshot come |
| IrqFaults.LostForever | modules/rtos_support/src/rtos_irq.c:52-157 | once a bit is pending with no token and every poster has seen it pending, no run of any cores brings the wake-up back |
| IrqFaults.UnmaskedAcquireBreaksTheLock | modules/rtos_support/api/rtos_locks.h:31-72 | for any such core and any other core, a run that ends with both in the critical section |
| IrqFaults.WakeupsExact | modules/rtos_support/src/rtos_irq.c:52-157 | on every run a token, handler or sender is there exactly for pending bits, if and only if every core that takes interrupts masks them while it uses the lock |
| IrqFaults.LockExact | modules/rtos_support/api/rtos_locks.h:31-72 | with two cores or more, the lock is exclusive on every run if and only if they do |
| IrqProgress.AllCanSettle | modules/rtos_support/src/rtos_irq.c:52-157 | from every reachable state under the masking rule there is a run with no new call after which every core is out of its critical sections, the lock is free and every pending source has been handled |
| IrqSources.Highest | modules/rtos_support/src/rtos_irq.c:90-90 | the source chosen is the highest pending one |
| IrqSources.RunsOnce | modules/rtos_support/src/rtos_irq.c:88-101 | each source of a snapshot that has a routine runs it, the one registered for it, exactly once, highest first, and nothing else runs |
| IrqSources.Sources.Dispatch | modules/rtos_support/src/rtos_irq.c:78-101 | one yield for all cores, then exactly the routines registered for the pending sources; the assertion on the source number holds |
| IrqSources.RegisteredRuns | modules/rtos_support/src/rtos_irq.c:96-100 | a source registered with a routine, whatever is registered later, runs that routine and no other, once, exactly if it is in the snapshot |
| IrqSources.Sources.Register | modules/rtos_support/src/rtos_irq.c:175-190 | each registration gets its own source number and leaves the others |
| I2cSlave.StepKeeps | modules/drivers/i2c/src/rtos_i2c_slave.c:22-226 | every step of the bus, the interrupt and the application keeps the one outstanding code and the counters consistent |
| I2cSlave.NoConflict | modules/drivers/i2c/src/rtos_i2c_slave.c:45-226 | over every bus sequence and interleaving: at most one code is outstanding, the two counters are never both positive, and no data byte is handled while a user callback runs |
| I2cSlave.CallbacksInOrder | modules/drivers/i2c/src/rtos_i2c_slave.c:45-226 | over every run the user callbacks are those the bus calls for, in order: one per non-empty write with its first bytes that fit, one start per read, one done per served read with the true count |
| I2cSlave.CallbacksAreMade | modules/drivers/i2c/src/rtos_i2c_slave.c:22-226 | from every reachable state the driver's own steps, with no bus event, lead to where all those callbacks have been made, the application waits for events again, and the I/O thread is ready for the bus |
| I2cSlave.ReadServesOffered | modules/drivers/i2c/src/rtos_i2c_slave.c:116-131 | byte k of a read is byte k modulo its length of what the application offered |
| I2cSlave.ServedWhenOffered | modules/drivers/i2c/src/rtos_i2c_slave.c:90-131 | a byte is served and counted exactly when something was offered, and is the next one |
| FlashLock.StepKeeps | modules/drivers/qspi_flash/src/rtos_qspi_flash.c:70-167 | every step of every task and low-level reader, also of those that interrupt a reader between two chunks, keeps mutex, hardware lock and spinlock word consistent |
| FlashLock.FlashExclusion | modules/drivers/qspi_flash/src/rtos_qspi_flash.c:612-661 | over every such run: tasks in the lock and low-level readers exclude one another at any nesting depth; the word is the owner's depth, or one for a reader |
| FlashLock.UnmaskedReadBreaksTheLock | modules/drivers/qspi_flash/src/rtos_qspi_flash.c:113-167 | for any task and low-level reader on a core that does not mask, a run in which the read interrupts the taking of the spinlock and both are inside |
| FlashLock.ExclusionExact | modules/drivers/qspi_flash/src/rtos_qspi_flash.c:70-167 | the exclusion holds on every run if and only if every core with both a task and a low-level reader masks interrupts there |
| FlashProgress.UnlockUndoesLock | modules/drivers/qspi_flash/src/rtos_qspi_flash.c:641-660 | from every reachable state an unlock by a task in the lock, and its steps, undo exactly one lock; the last one leaves mutex and spinlock free |
| FlashProgress.AllCanBeReleased | modules/drivers/qspi_flash/src/rtos_qspi_flash.c:70-167 | from every reachable state under the masking rule all calls in progress can end and all locks be undone |
| FlashProgress.AnyoneCanGetIn | modules/drivers/qspi_flash/src/rtos_qspi_flash.c:612-639 | from every such state any task has a run into the lock and any low-level reader one into its read |
| FlashOps.AndBits | modules/drivers/qspi_flash/src/rtos_qspi_flash.c:440-442 | programming leaves a bit set exactly if it was set and is set in the data |
| FlashOps.WrittenBits | modules/drivers/qspi_flash/src/rtos_qspi_flash.c:415-452 | after a write each of the eight bits of each byte is set exactly if it was set and, in the range that fits, is set in the data |
| FlashOps.Flash.WriteOp | modules/drivers/qspi_flash/src/rtos_qspi_flash.c:415-452 | exactly the bytes from the address to the end of the data or of the flash are programmed, each once, and no command crosses a page |
| FlashOps.Flash.EraseOp | modules/drivers/qspi_flash/src/rtos_qspi_flash.c:460-528 | the memory outside the computed range is untouched, inside it is all ones, with one command per sector or one for the chip |
| FlashOps.EraseExact | modules/drivers/qspi_flash/src/rtos_qspi_flash.c:460-528 | the bytes erased are those of the sectors that meet the request, if and only if a condition holds that the caller can check |
| FlashOps.ChipIsSectors | modules/drivers/qspi_flash/src/rtos_qspi_flash.c:470-482 | the whole-chip branch erases what the sector loop would |
| FlashOps.PageFits | modules/drivers/qspi_flash/src/rtos_qspi_flash.c:429-434 | what is left of a page that starts inside the flash lies inside it |
| MkImageTool.SwapEntry | tools/datapartition_mkimage/datapartition_mkimage.c:260-271 | names and offsets of two entries change places, sizes do not, and no entry is lost |
| MkImageTool.SortOffsetAscending | tools/datapartition_mkimage/datapartition_mkimage.c:273-287 | the entries are ordered by offset and are a permutation of what they were |
| MkImageTool.OutFile.FillData | tools/datapartition_mkimage/datapartition_mkimage.c:307-338 | exactly the requested number of fill bytes is written, for any short writes and block size |
| MkImageTool.OutFile.CopyData | tools/datapartition_mkimage/datapartition_mkimage.c:340-386 | the whole input is written over what was there, for any short reads and writes |
| MkImageTool.PlaceFile | tools/datapartition_mkimage/datapartition_mkimage.c:642-682 | one file is overlaid, skipped or padded as specified; an overlap leaves the output as it was |
| MkImageTool.PlaceFiles | tools/datapartition_mkimage/datapartition_mkimage.c:619-699 | the loop places all files, or stops at one that cannot be opened or overlaps, which happens only if the inputs are not acceptable |
| MkImageTool.MakeImage | tools/datapartition_mkimage/datapartition_mkimage.c:585-720 | the tool succeeds if and only if all inputs open and the non-empty ones are pairwise disjoint, in whatever order they are given; then the output is the image they make, cut at the greatest end when truncating |
| MkImage.PlaceAllCorrect | tools/datapartition_mkimage/datapartition_mkimage.c:612-699 | in offset order, placing succeeds exactly for disjoint inputs, and then every input's bytes are at its offset, other bytes are the old ones or fill, and the last write ends at the greatest end |
| MkImage.PlaceDecides | tools/datapartition_mkimage/datapartition_mkimage.c:642-653 | comparing with the last write position detects exactly the overlaps |
| MkImage.DisjointAnyOrder | tools/datapartition_mkimage/datapartition_mkimage.c:609-612 | being disjoint does not depend on the order of the inputs |
| MkImage.ImageAnyOrder | tools/datapartition_mkimage/datapartition_mkimage.c:609-612 | nor does the image |
| Clock.RtosClock.TimeIncrement | modules/rtos_support/src/rtos_time.c:12-23 | the time a clock in range shows advances by exactly the tick, up to the wrap of the seconds, and it stays in range, for every tick up to the longest |
| Clock.RtosClock.TimeSet | modules/rtos_support/src/rtos_time.c:25-34 | the clock shows exactly the new time and is in range, with less than a second of microseconds and no tick between the stores; with ticks there, what each order of the stores leaves |
| Clock.RtosClock.TimeGet | modules/rtos_support/src/rtos_time.c:36-49 | the result is the whole microseconds of what the clock shows, below one second, with no tick between the loads; with ticks there, each word is as of its own load |
| Clock.ExactTicks | modules/rtos_support/src/rtos_time.c:12-23 | every increment of a clock in range is exact and keeps it in range if and only if the tick is at most 2^32 - 4096000000 |
| Clock.TicksAdvance | modules/rtos_support/src/rtos_time.c:12-23 | n increments advance the clock by exactly n ticks |
| Clock.CopyIsWhole | modules/rtos_support/src/rtos_time.c:36-44 | a copy of the clock, its three words loaded in any order with ticks in between, is the clock at the last load for every clock in range, if and only if the time since each word's load is a multiple of all that word can count |
| Clock.ShortCopyIsWhole | modules/rtos_support/src/rtos_time.c:36-44 | for a copy that takes less than a second, if and only if no tick lands between the loads |
| Clock.ShortCopyWasSo | modules/rtos_support/src/rtos_time.c:36-44 | such a copy is the clock at some moment from the first load to the last if and only if no carry comes between the load of a word of the seconds that it changes and that of the microseconds |
| Clock.ShortCopyAlwaysWasSo | modules/rtos_support/src/rtos_time.c:36-44 | that holds for every clock in range if and only if no tick lands between the loads |
| Clock.TornCopy | modules/rtos_support/src/rtos_time.c:36-44 | one tick that carries makes the copy exactly a second late or early, by the order of the loads |
| Clock.SetIsWhole | modules/rtos_support/src/rtos_time.c:25-34 | a new time is set as it should be, whatever the clock was, if and only if the ticks between the two stores add up to nothing, or to less than a microsecond with the microseconds stored first |
| Clock.TickPeriodFits | modules/rtos_support/api/rtos_time.h:30-30 | the tick period of a rate is short enough exactly from 21 Hz on |
| Clock.Drift | modules/rtos_support/api/rtos_time.h:30-30 | after n ticks the clock is never ahead and less than n / 4096 microseconds behind |
| Clock.SetThenGet | modules/rtos_support/src/rtos_time.c:25-49 | what is set is read back if and only if the microseconds are below 2^20, and the clock is in range exactly below one second |

## Left out

- Board support, platform start-up, codec register scripts, OSAL wrappers, and the L2 cache, software memory and DFU glue: thin calls into hardware or libraries.
- The per-driver RPC stubs: one generic theorem (`RpcRemote.CallGeneric`) covers them.
- The intertile link, the audio handshake, the interrupt, I2C and flash-lock protocols are modelled on values, one record per state, since their point is interleaving; update in place and aliasing of their context structures is not captured there.
- RpcRemote.CallGeneric: the intertile link between client and host is a copy of the message, as the theorems about the link justify; memory never runs out, message sizes are unbounded where the code has 31 bits, and no two arguments share memory.
- Intertile.DeliveredInOrder: allocation of the receive buffer succeeds, ports are below 24, the width of an event group, and at most one task at a time waits on a port.
- AudioSide.AudioRun: filter callbacks are absent (null); the receive path advances by the input count whatever a filter returns.
- The hash table's change, destroy and positioned-iterator operations, which would add easy members.
- HashTable.HashTable.Insert: a key is not inserted twice.  The table's interface (argtable3.c:154-165) calls what a duplicate key gives undefined, its order changing as the table grows, and tells callers to remove it first, as `HashTable.HashTable.Register` does.
- Getopt.ScanRun: no option has the value -1, strings hold no zero character, and there is at least one argument; POSIXLY_CORRECT, the option-string prefixes that turn permuting off, and error text are not modelled.
- Fairness: the progress theorems say that the run exists from every state, not that a scheduler takes it.
- GetoptLines.LineReadBack: a dash or a colon is no option letter, and with long options a semicolon is none; one-dash long options and `-W` have lemmas of their own.
- Irq.StepKeeps: source numbers are registered ones; enabling the interrupts is done before the run starts.
- FlashLock.FlashExclusion: a task stays on its core while it is inside `lock`; the retry loops around the mutex and the spinlock may go on for ever.
- FlashOps.Flash.WriteOp: the flash is a whole number of pages and sectors and smaller than 2^32; the write-enable and busy-polling commands around each operation are not modelled.
- Flash reads: once an address past the end is capped the loop makes no progress.  The operation queue, the shared data-ready semaphore of concurrent readers, and the low-level set-up that suspends the task are not modelled.
- MkImageTool.MakeImage: inputs are seekable files, their ends are below 2^32, and there is no I/O or allocation failure; standard input and the Windows branches are not modelled.
- I2cSlave.CallbacksInOrder: the address and byte-check callbacks, which only choose an acknowledgement, and the handshake before the first bus event are not modelled.
- Clock.RtosClock.TimeGet: an increment is one step, also when it lands in the middle of a copy; `IrqFaults.LockExact` says when the lock keeps the increments of other cores apart.  `Clock.RtosClock.TimeSet` stores the 64-bit seconds at once.
- The rest of argtable3 (regular expressions, date parsing, help output), tinydir, the FAT file system glue, and the argument parsing of the tools.
