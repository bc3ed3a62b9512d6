# MoonNet: a verified model of its stateful cores

MoonNet is a Reactor network library for Linux. Its epoll and socket calls are thin; the
difficult behaviour sits in a few stateful parts, and those are modelled and proved here in
Dafny 4.11. `dafny verify dfyconfig.toml` checks the whole project.

| file | what it models |
|---|---|
| `Basics.dfy` | minimum, maximum and a few laws of multisets, shared |
| `Division.dfy`, `PowersOfTwo.dfy` | 64-bit size arithmetic of the ring: power-of-two test, the or-and-shift smear, masking |
| `RingBuffer.dfy` | the ring buffer as one thread uses it: push, pop, size, the batch drains, swap |
| `RingProtocol.dfy` | one producer and one consumer on the ring, every load, slot access and store a step of its own, loads of the other side's index possibly stale |
| `LfThread.dfy`, `LfThreadRuns.dfy` | the worker thread on top of that ring: enqueue, shutdown flag, wake-up task, run loop, final drain; the exact condition for shutdown to run every task |
| `LfThreadPool.dfy` | the pool of such workers: choosing one, removing the busiest |
| `ByteBuffer.dfy` | the compacting, growing byte buffer as a queue of bytes, and its exact memory bound |
| `BufferedEvent.dfy` | `sendout`, `handle_write`, `handle_read` under any kernel answers |
| `LoadBalance.dfy`, `LoopPool.dfy` | least-loaded and round-robin dispatch, removal of the busiest loop, the resize controller |
| `ThreadPool.dfy`, `ThreadPoolRuns.dfy` | the mutex thread pool: N workers, adjuster, callers and shutdown as interleaved steps; the exact conditions on its two bounds for what it promises |
| `LineReader.dfy` | the buffered line reader and the exact-count read and write loops |

What the kernel answers (read, readv, write, writev) is a parameter of each operation; a
contract then holds for every legal answer. Threads are state machines: a `Step` (or `Move`)
names one atomic action, `Enabled` says when it may happen, `Apply` what it does, and the
theorems quantify over every legal sequence of steps. Objects whose methods update their
fields are classes, and each method's contract gives the new state as a function of the old.

## Where the code does not do what its comments say

The model follows the code. For each of these the exact condition is proved.

- `sendout` subtracts `len` instead of the count after a direct write, and after EAGAIN its
  data pointer is one byte too low in the following writev. Over any run the byte stream is
  right if and only if every call is `Faithful` (`OutputStream.StreamIsKeptExactlyWhenFaithful`),
  which no direct write of a message is for all answers (`OutputStream.FaithfulForAllAnswers`).
- `ringbuff::swap` leaves the other ring's indices alone, so removing the busiest lock-free
  worker moves nothing and loses its queued tasks; they are kept exactly when no worker of the
  pool has any (`RemovalModel.LosesUnlessAllIdle`). With a true exchange they would be kept
  exactly when they fit into the other rings (`RemovalModel.IntendedRemovalKeepsTasks`).
- The final drain of `lfthread` names the task type instead of calling the task. Shutting
  down completes every accepted task if and only if none was left in the ring when the worker
  saw the flag (`LfThread.ShutdownCompletesTasks`); the caller can rely on it exactly if the
  ring is empty at the call, or its last task is being popped
  (`LfThreadRuns.ShutdownCompletesExactly`).
- `getallev` leaves the load counter of a loop unchanged. Removing a loop in dynamic mode keeps
  all events if and only if their number is at most the headroom of the other loops plus the
  position of the victim (`PoolModel.RemovalKeepsEvents`); in round-robin mode, if and only if
  the victim's turn does not come (`PoolModel.RemovalInTurnKeepsEvents`).
- `getscale` and `getload` divide the average by the sum in integers: the controllers can
  only shrink a pool (`LoadBalance.ScaleIsAllOrNothing`, `PoolModel.ControllerOnlyShrinks`),
  and a pool whose minimum is its initial size, as `create_pool` makes it, is never resized
  (`PoolModel.ControllerStartsFrozen`).
- Shutdown joins the workers that are in the vector when its loop begins, and the adjuster tests
  the flag only before it sleeps, so it may add workers meanwhile that nobody waits for. Every
  accepted task is executed when shutdown returns exactly if `min_thr_num` is at least 1 and
  `max_thr_num` at most twice that (`ThreadPoolRuns.ShutdownCompletesExactly`).
- The thread pool retires workers by storing a count in `exit_num`, letting them go, and
  announcing only what is left of the count when it is read back. What was carried out before
  that is not taken off `live_num`, so the next round orders again and all workers may be gone,
  below the documented minimum and with tasks queued. With a minimum of at least 1 this is
  excluded exactly if `max_thr_num` is at most three times `min_thr_num`
  (`ThreadPoolRuns.MinimumIsKeptExactly`, `ThreadPoolRuns.IdleShutdownCompletesExactly`).
- `exit_num` is set from a second read of `live_num`; if that yields 0 or less while a worker
  is woken and has not looked yet, the worker asks an empty queue for its front
  (`ThreadPool.SafeExactlyWithoutBadStore`). This needs `max_thr_num` two above three times
  `min_thr_num` or more (`ThreadPoolRuns.NeverStuckExactly`).
- The workers decrement `live_num` for each task and never give it back, so resizing stops for
  good (`ThreadPool.ResizingEnds`, `ThreadPoolRuns.ResizableExactly`).
- `my_read` has one static buffer for all descriptors: what one left there is handed to another
  (`SharedBuffer.OwnSourceExactlyIfApart`).
- `next_powtwo` returns 0 for sizes above 2^63 (`PowersOfTwo.NextPowTwoWraps`).

## Model

| member | source | states |
|---|---|---|
| PowersOfTwo.NextPowTwoIsLeast | include/moonnet/ringbuff.tpp:197-207 | for 1 <= n <= 2^63 the smear yields 2^k for the least k with n <= 2^k |
| PowersOfTwo.NextPowTwoWraps | include/moonnet/ringbuff.tpp:197-207 | on 64-bit words the result is 0 exactly for n > 2^63 |
| PowersOfTwo.SmearFillsAllDigits | include/moonnet/ringbuff.tpp:199-205 | the six or-and-shift steps set every digit below the leading one and nothing else |
| PowersOfTwo.IsPowTwoExact | include/moonnet/ringbuff.tpp:179-181 | the and-with-predecessor test holds exactly for powers of two |
| PowersOfTwo.AdjSizeSettles | include/moonnet/ringbuff.tpp:222-224 | the adjusted size is a power of two no smaller than the request exactly up to 2^63, and adjusting again changes nothing |
| PowersOfTwo.AdjSizeIsLeast | include/moonnet/ringbuff.tpp:222-224 | up to 2^63 the adjusted size is the least power of two no smaller than the request |
| PowersOfTwo.MaskIsMod | include/moonnet/ringbuff.tpp:57-59 | masking any x with 2^k - 1 is x mod 2^k |
| RingQueue.MaskedSucc | include/moonnet/ringbuff.tpp:59 | every index update of the ring is a step forward modulo the capacity |
| RingQueue.WalkIsSlices | include/moonnet/ringbuff.tpp:275-288 | stepping round the ring from tail to head reads the same items as the one or two slices the drains copy |
| RingBuffers.RingBuffer.constructor | include/moonnet/ringbuff.h:50-54 | starts empty, indices at 0, capacity the adjusted size |
| RingBuffers.RingBuffer.Push | include/moonnet/ringbuff.tpp:55-65 | appends unless capacity - 1 items are held, and fails exactly then |
| RingBuffers.RingBuffer.Pop | include/moonnet/ringbuff.tpp:110-117 | takes the oldest item, and fails exactly when empty |
| RingBuffers.RingBuffer.PopMove | include/moonnet/ringbuff.tpp:136-143 | the same although the slot moved from is left with any value |
| RingBuffers.RingBuffer.Empty | include/moonnet/ringbuff.tpp:146-149 | true exactly when nothing is queued |
| RingBuffers.RingBuffer.Full | include/moonnet/ringbuff.tpp:152-157 | true exactly when capacity - 1 items are queued |
| RingBuffers.RingBuffer.Size | include/moonnet/ringbuff.tpp:243-253 | the number of queued items, on both branches |
| RingBuffers.RingBuffer.SwapToList | include/moonnet/ringbuff.tpp:267-292 | appends all queued items in order to the list, across the wrap, and leaves the ring empty |
| RingBuffers.RingBuffer.SwapToVector | include/moonnet/ringbuff.tpp:307-330 | the same items as the list form, with room reserved for exactly that many |
| RingBuffers.RingBuffer.SwapToNewList | include/moonnet/ringbuff.tpp:345-372 | a new list of all queued items, ring left empty |
| RingBuffers.RingBuffer.SwapToNewVector | include/moonnet/ringbuff.tpp:387-412 | a new vector of all queued items, ring left empty |
| RingBuffers.RingBuffer.Swap | include/moonnet/ringbuff.tpp:160-166 | arrays change hands, only the receiver's indices change; rings stay well formed exactly at equal capacity, where the receiver gets the other's contents and the other reads the old array through its own indices |
| RingProtocol.StepKeepsInv | include/moonnet/ringbuff.tpp:55-143 | every atomic step of either thread, drains included, keeps the ring invariant |
| RingProtocol.RingIsSafe | include/moonnet/ringbuff.tpp:55-143 | in every interleaving the pushed items are those of the calls that went through, in order, the popped ones are a prefix of them, at most capacity - 1 are held, and the producer never writes a live slot or one the consumer is touching |
| RingProtocol.RefusalsAreJustified | include/moonnet/ringbuff.tpp:61 | in every reachable state push fails exactly when the tail value it loaded shows a full ring, pop exactly when the head value shows an empty one |
| RingProtocol.QueueIsWalk | include/moonnet/ringbuff.tpp:55-143 | between consumer calls the two indices delimit exactly the items pushed and not popped |
| RingProtocol.UninterruptedPush | include/moonnet/ringbuff.tpp:55-65 | a push with nothing in between and a fresh load does what the sequential contract says |
| RingProtocol.UninterruptedPop | include/moonnet/ringbuff.tpp:136-143 | a pop with nothing in between and a fresh load takes the oldest item, or fails exactly when nothing is queued |
| RingProtocol.DrainDelivers | include/moonnet/ringbuff.tpp:267-292 | a batch drain beside a running producer delivers in order the items published at its load of the head index; later pushes stay queued |
| RingProtocol.DrainIsRepeatedPop | include/moonnet/ringbuff.tpp:307-330 | that drain takes out the same items and leaves the same tail index as repeated pop_move |
| RingProtocol.SizeByOwner | include/moonnet/ringbuff.tpp:243-253 | size called by producer or consumer is the length counted with the value it loaded, exact if that is not stale |
| RingProtocol.SizeByThirdThread | include/moonnet/ringbuff.tpp:243-253 | size called by a third thread, both loads as stale as they may be, is the difference of the two counters exactly if the consumer had not gone past the loaded head, and that difference is at most capacity - 1 |
| LfThread.MoveKeepsInv | src/lfthread.cpp:48-111 | every step of enqueuing, shutting down, running and draining keeps the thread's invariant |
| LfThread.TasksAreConserved | src/lfthread.cpp:92-111 | run, then in hand, then dropped, then still queued: together the tasks whose enqueuing went through, in order, in every reachable state |
| LfThread.OnlyWakeUpIsLeft | src/lfthread.cpp:80-86 | after the worker has exited at most the wake-up task remains in the ring |
| LfThread.ShutdownCompletesTasks | src/lfthread.cpp:92-111 | the tasks run are a prefix of those accepted, and all of them exactly if none was queued when the flag was seen; the rest is dropped |
| LfThreadRuns.ShutdownCompletesExactly | src/lfthread.cpp:80-111 | whatever happens afterwards, every task accepted before the flag is set is run by the time the worker exits if and only if at that moment none is in the ring, or one that the worker is already popping |
| LfThreadRuns.AcceptedTaskDropped | src/lfthread.cpp:108-110 | a run in which the one accepted task is dropped |
| RemovalModel.LosesUnlessAllIdle | src/lfthreadpool.cpp:120-135 | taking out the busiest worker with its queue keeps all queued tasks exactly when every queue is empty |
| RemovalModel.HandOutTakesWhatFits | src/lfthreadpool.cpp:132-134 | tasks handed out one by one to the least loaded worker are all taken as long as any ring has room; only the excess is refused |
| RemovalModel.HandOutGoesRound | src/lfthreadpool.cpp:94-103 | in static mode the queue of each worker grows by the number of its turns, as far as its ring has room |
| RemovalModel.HandOutIsFair | src/lfthreadpool.cpp:94-103 | a worker whose ring does not fill up gets its share of m tasks, m/n rounded down or up |
| RemovalModel.IntendedRemovalKeepsTasks | src/lfthreadpool.cpp:115-135 | the removal as documented, with the victim's tasks in hand: in dynamic mode nothing is lost exactly when all queued tasks fit into the remaining rings |
| RemovalModel.SameWindowOrEmpty | include/moonnet/ringbuff.tpp:160-166 | reading an array through the other ring's indices gives the same items for every content exactly when the index pairs are equal or both empty |
| LfThreadPools.LfThreadPool.constructor | src/lfthreadpool.cpp:51-59 | n idle workers with rings of the requested size |
| LfThreadPools.LfThreadPool.GetMinIdx | src/lfthreadpool.cpp:173-185 | the first worker with the fewest queued tasks |
| LfThreadPools.LfThreadPool.GetMaxIdx | src/lfthreadpool.cpp:192-204 | the first worker with the most queued tasks |
| LfThreadPools.LfThreadPool.GetNext | src/lfthreadpool.cpp:94-103 | least loaded in dynamic mode, next in turn in static mode |
| LfThreadPools.LfThreadPool.AddTask | include/moonnet/lfthreadpool.tpp:56-63 | queued at the first worker with the fewest tasks, or in static mode at the next one after the last in turn; refused exactly if the pool is stopped or that ring is full |
| LfThreadPools.LfThreadPool.Redispatch | src/lfthreadpool.cpp:131-134 | empties the local ring; queues and turn are those of offering its tasks in order, and all are refused once the pool is stopped |
| LfThreadPools.LfThreadPool.DelThreadDispatch | src/lfthreadpool.cpp:120-135 | the busiest worker goes, the others keep exactly their queues, and the re-dispatch moves nothing |
| ByteQueue.FirstInFirstOut | src/buffer.cpp:25-96 | over any run the bytes taken out followed by the unread ones are the bytes put in |
| ByteQueue.SizeIsPeak | src/buffer.cpp:181-193 | over any run the array size is exactly the larger of 1024 and the most bytes ever unread |
| ByteBuffers.PerformAll | src/buffer.cpp:25-193 | any sequence of operations carried out on a new buffer ends in the state of the queue after them, with what came out followed by what is still in equal to what went in |
| ByteBuffers.ByteBuffer.constructor | include/moonnet/buffer.h:23 | empty, 1024 bytes |
| ByteBuffers.ByteBuffer.Append | src/buffer.cpp:25-29 | the bytes come last; the array grows exactly to fit |
| ByteBuffers.ByteBuffer.Remove | src/buffer.cpp:64-70 | hands out and drops the first bytes, at most those there |
| ByteBuffers.ByteBuffer.RemoveAll | src/buffer.cpp:81 | hands out everything |
| ByteBuffers.ByteBuffer.Retrieve | src/buffer.cpp:92-96 | drops the first bytes, at most those there |
| ByteBuffers.ByteBuffer.ReadIov | src/buffer.cpp:145-167 | all bytes delivered come last in order, also when they were split between tail space and stack buffer; an error changes nothing |
| ByteBuffers.ByteBuffer.AbleWrite | src/buffer.cpp:181-193 | room for len bytes behind unchanged contents; size becomes the larger of the old one and unread + len |
| OutputStream.CallAdds | src/bfevent.cpp:160-215 | each call adds to the stream at most what was accepted, and exactly that if and only if it is faithful |
| OutputStream.StreamIsKeptExactlyWhenFaithful | src/bfevent.cpp:160-215 | over any run, wire followed by buffer equals the accepted bytes in order if and only if every call was faithful |
| OutputStream.FaithfulForAllAnswers | src/bfevent.cpp:163-185 | a call is faithful whatever the kernel answers if and only if it has nothing to send or does not write directly |
| OutputStream.BytesCanBeLost | src/bfevent.cpp:164-185 | a short direct write loses the tail; after EAGAIN a stray byte goes out and the last byte is lost |
| OutputStream.OutputNeverStranded | src/bfevent.cpp:210-214 | over any run waiting bytes imply EPOLLOUT enabled |
| BufferedEvents.BufferedEvent.SendOut | src/bfevent.cpp:160-215 | for any pair of kernel answers, by cases: which bytes go onto the wire, which wait, that EPOLLOUT is on exactly if it was or bytes are kept, and when the write callback runs |
| BufferedEvents.BufferedEvent.SendGathered | src/bfevent.cpp:179-214 | the writev half with the data pointer where the code has it: the connection afterwards, and the callback |
| OutputStream.GatherFields | src/bfevent.cpp:179-214 | for each answer of the writev, the bytes that go onto the wire, the bytes that wait, and that EPOLLOUT is on exactly if it was or bytes are kept |
| BufferedEvents.BufferedEvent.HandleWrite | include/moonnet/bfevent.h:117-136 | ends if write takes nothing only finitely often; what it sends is what the answers report, up to all that waits; it goes on exactly while they take bytes and some are left, runs the callback once for each that took some, and disables EPOLLOUT exactly when the buffer is empty |
| BufferedEvents.BufferedEvent.HandleRead | include/moonnet/bfevent.h:96-115 | bytes handed to the callback followed by the unread ones are the old unread ones followed by all that arrived, however it was cut up; the callback runs once for each piece |
| ByteStream.CollectIsExact | src/wrap.cpp:560-578 | one line takes exactly the items it stores and the end or error at which it stops, has its newline last, and is cut only when its room is used up |
| ByteStream.LinesFollowSource | src/wrap.cpp:560-578 | over any run of Readline the stored lines join to a prefix of the source, newlines come last, and each return value is -1 for a line stopped by an error and otherwise the stored count, one more on truncation |
| ByteStream.TakeIsExact | src/wrap.cpp:455-477 | an exact-count read delivers exactly the next bytes of the source, all n of them unless it took an end or an error |
| LineReaders.LineReader.Refill | src/wrap.cpp:552-558 | a refill retries interruptions and moves bytes from the descriptor to the buffer without loss |
| LineReaders.LineReader.MyRead | src/wrap.cpp:526-543 | for the descriptor whose bytes are buffered, behaves like a one-byte read with no buffer in between; a buffered byte is handed to any descriptor, which is then not read |
| SharedBuffer.OwnSourceExactlyIfApart | src/wrap.cpp:526-543 | over any run on several descriptors, with exact-count reads in between, every reader gets the items of its own descriptor in order if and only if no call finds another descriptor's bytes in the static buffer or bypasses its own |
| LineReaders.LineReader.Readline | src/wrap.cpp:560-578 | for the descriptor whose bytes are buffered: destination, terminator, return value and what is left to read are those of the next line of the unbuffered stream |
| LineReaders.Readn | src/wrap.cpp:455-477 | the bytes delivered and the rest are those of taking n from the stream; -1 exactly on an error |
| LineReaders.Writen | src/wrap.cpp:493-511 | writes as much of the data as the answers take before the first that reports no progress, interruptions aside; returns n exactly if that is all of it, otherwise -1 |
| LoadBalance.LeastLoadedIsOptimal | src/looptpool.cpp:238-250 | after k least-loaded placements the largest load is no larger than under any other placement of k events |
| LoadBalance.LeastLoadedSpread | src/looptpool.cpp:238-250 | the spread never exceeds the initial one, or 1 |
| LoadBalance.RoundRobinIsFair | src/looptpool.cpp:133-134 | any m consecutive turns hit each of n positions m/n times, rounded down or up |
| LoadBalance.BusiestIsSpared | src/looptpool.cpp:146-158 | the busiest loop, its counter unchanged, gets none of k events back exactly if k is at most the others' headroom plus its position |
| LoadBalance.ScaleIsAllOrNothing | src/looptpool.cpp:180-188 | whatever the loads, the scale is 100 for a single loop with a load other than 0, and 0 otherwise |
| LoadBalance.TruncDivIsTowardsZero | src/looptpool.cpp:186-187 | the integer division of the model rounds towards zero for all signs, as that of the source does |
| PoolModel.LeastLoadedDelivers | src/looptpool.cpp:128-136 | dispatch and registration of any events in dynamic mode is optimal and even, as above |
| PoolModel.RoundRobinDelivers | src/looptpool.cpp:128-136 | dispatch and registration of m events in round-robin mode gives each loop its fair share |
| PoolModel.DeliverAllSplits | src/looptpool.cpp:128-136 | events are dispatched in the order of the list: dispatching it in two parts is dispatching it whole |
| PoolModel.RemovalKeepsEvents | src/looptpool.cpp:146-158 | removing the busiest loop keeps every event on a surviving loop if and only if the number moved is at most the headroom plus the victim's position |
| PoolModel.RemovalInTurnKeepsEvents | src/looptpool.cpp:128-158 | in round-robin mode it keeps every event if and only if the number moved is less than the number of turns until the victim's |
| PoolModel.RemovalLoses | src/looptpool.cpp:146-158 | the number of events lost is the growth of the victim's counter during re-dispatch |
| PoolModel.EqualLoadsLose | src/looptpool.cpp:146-158 | with all loads equal and an event on the first loop, events are lost |
| PoolModel.DeleteStaysAccurate | src/eventloop.cpp:103-111 | deleting an event keeps counter and list in agreement exactly if the event was listed once |
| PoolModel.WithoutParts | src/eventloop.cpp:110 | deleting an event leaves the others in their order |
| PoolModel.ControllerOnlyShrinks | src/looptpool.cpp:199-215 | strictly inside its bounds the pool loses one loop a round until the minimum, whatever the loads, and the delay stays at least 5 and grows by 30 each time |
| PoolModel.RoundExactly | src/looptpool.cpp:203-213 | one round under any loads: size and delay afterwards, in each case |
| LoopPools.EventLoop.DelEvent | src/eventloop.cpp:103-111 | one off the counter, every occurrence off the list |
| LoopPools.LoopPool.CreatePool | src/looptpool.cpp:97-102 | n loops, minimum n, maximum 2n - 1, dynamic mode |
| LoopPools.LoopPool.GetMinLoad | src/looptpool.cpp:238-250 | the first loop with the least load |
| LoopPools.LoopPool.GetMaxIdx | src/looptpool.cpp:260-272 | the first position of the largest load |
| LoopPools.LoopPool.EvDispatch | src/looptpool.cpp:128-136 | the base loop without loops, else in dynamic mode the first of the least loaded ones, in round-robin mode the next one after the last in turn |
| LoopPools.LoopPool.DelLoopDispatch | src/looptpool.cpp:146-158 | the pool afterwards is the removal whose effect on events is proved |
| LoopPools.LoopPool.AddLoop | src/looptpool.cpp:166-170 | one more loop, holding its wake-up event |
| LoopPools.LoopPool.GetScale | src/looptpool.cpp:180-188 | the integer scale of the present loads |
| LoopPools.LoopPool.AdjustRound | src/looptpool.cpp:203-213 | one controller round: size, bounds and delay, and which of removal, growth or nothing happened |
| ThreadPool.StepKeepsInv | src/threadpool.cpp:69-149 | every step of workers, adjuster, callers and shutdown keeps the pool's invariant |
| ThreadPool.TasksAreConserved | src/threadpool.cpp:69-90 | in every reachable state the accepted tasks are those of the add_task calls before the shutdown, in order; accepted = queued + in hand + executed as multisets, and tasks leave the queue in order |
| ThreadPool.CountersAreConserved | src/threadpool.cpp:120-149 | run_num + live_num + retirements announced = workers added + workers between the two counter updates; the thread vector keeps its bound and grows by at most 10 a round |
| ThreadPool.JoinCompletesTasks | src/threadpool.cpp:99-109 | all workers gone, one through the shutdown branch: the queue is empty and everything accepted was executed |
| ThreadPoolRuns.ShutdownCompletesExactly | src/threadpool.cpp:99-148 | in every run all accepted tasks have been executed when the joining loop ends, which waits for the workers in the vector as it began, if and only if min_thr_num is at least 1 and max_thr_num at most twice that |
| ThreadPoolRuns.EarlyReturn | src/threadpool.cpp:99-148 | for every minimum and every maximum above twice it, a run in which a worker added during the joins holds the only task as shutdown returns |
| ThreadPoolRuns.IdleShutdownCompletesExactly | src/threadpool.cpp:99-148 | if the adjuster is about to test the flag when it is set, the same promise is kept if and only if min_thr_num is at least 1 and max_thr_num at most three times that |
| ThreadPool.NarrowPoolCompletesTasks | src/threadpool.cpp:69-148 | with a minimum of at least 1 and a maximum of at most three times that nobody leaves by the exit_num branch, so all workers gone, added ones included, means queue empty and everything executed |
| ThreadPoolRuns.MinimumIsKeptExactly | src/threadpool.cpp:112-148 | until shutdown at least min_thr_num workers are in service in every run, if and only if max_thr_num is at most three times it, or it is 0 |
| ThreadPoolRuns.TaskLeftBehind | src/threadpool.cpp:120-148 | for every minimum and every maximum above three times it, a run in which all workers retire, before any shutdown, with a task in the queue |
| ThreadPool.ResizingEnds | src/threadpool.cpp:120-149 | once more tasks were executed than workers added and not retired, a pool whose adjuster starts a round is never resized again |
| ThreadPoolRuns.ResizableExactly | src/threadpool.cpp:120-148 | at the start of a round a later addition or retirement is reachable if and only if there is no shutdown and either the thread vector has room and live_num is not negative, or live_num is above the minimum and above twice run_num |
| ThreadPool.SafeExactlyWithoutBadStore | src/threadpool.cpp:72-83 | over any run no worker asks an empty queue for its front, or is bound to with its next steps, if and only if exit_num is never set to 0 or less just when a woken worker has not checked it and there is no task for it |
| ThreadPoolRuns.NeverStuckExactly | src/threadpool.cpp:72-83 | no run lets a worker ask an empty queue for its front, if and only if max_thr_num is at most one above three times min_thr_num |
| ThreadPoolRuns.WorkerGetsStuck | src/threadpool.cpp:136-139 | for all other bounds, a run in which exit_num is set to 0 between wake-up and check, and a worker does |

## Left out

- epoll, sockets, eventfd, timerfd, signals, `perror` and `exit`: the answers of system calls are parameters.
- `acceptor`, `udpevent`, `signalevent`, `timerevent`, `server`, `loopthread`: thin wrappers over system calls.
- Destructors, ownership of raw pointers and moved-from function objects: events and tasks are identities, and a slot moved from may hold anything.
- User callbacks: a read callback only takes bytes out, a write or event callback is counted; none calls back into the connection or changes the event mask.
- `push_move` and `enqueue_task_move`: the same steps as the copying forms.
- The Windows half of `wrap.cpp`.
- Several producers on one ring, or a drain issued by a thread other than the consumer: outside the ring's single-producer, single-consumer use.
- Memory order: an acquire load may be stale but never goes back, and a store is seen together with what preceded it. The values a producer may load cover every count of pops between two stores of the tail index, also those a drain skips.
- `shutdown_` of `lfthread` is a plain `bool`; reading it as set is taken to make earlier pushes visible, as an atomic flag would.
- Growth of the thread vector under the joining loop of `t_shutdown` may move its elements; the model takes the loop to see them in place.
- Sleeping and the fairness of the condition variable: a wake-up is a step that may happen whenever its condition holds, so the results are about safety.
- The width of `int`: load counters, thread counters and seconds are unbounded integers; the ring's sizes and masks are 64-bit.
- The comparison of the queue length with a negative `live_num` is false, as the conversion to an unsigned number makes it for any queue that fits in memory.
- `create_pool` without a count, `create_pool_noadjust`, `enable_adjust`, `stop` and the choice of a default thread count: they only set the fields the model starts from.
- The controller loop of `lfthreadpool`: its condition is inverted in the code, so while the pool runs it does nothing.
- LfThreadPools.LfThreadPool.DelThreadDispatch: the victim's own thread is not run beside it; the swap is taken as one step.
