# Verified models of the pyuv event-loop core

pyuv is a CPython extension over a bundled libuv. This project models the part of that stack where
correctness is subtle, in Dafny, and proves what its code and documentation promise. Code that works in
place is modelled in place (classes with the source's fields, loops with invariants); protocols between
threads, or between the loop and its user, are transition systems whose steps are the atomic regions of
the source, with invariants and theorems over all runs.

| file | models |
|---|---|
| `Sequences.dfy` | facts about sequences that hold nothing twice, for the queues and lists of the other files |
| `LinkedTree.dfy` | nodes with left, right and parent links; what links spell; contexts (a tree with a hole); order; rotations |
| `RbRules.dfy`, `RbTree.dfy` | the red-black tree macros: colour rules on ghost trees, then the pointer program |
| `Splay.dfy` | the top-down splay tree macros |
| `Heap.dfy` | the pointer-linked complete binary heap behind the timers |
| `Async.dfy` | the wakeup protocol of one loop: pending flags, the wakeup descriptor, the scan |
| `ThreadPool.dfy` | workers, submitters, cancellation and delivery, on top of one wakeup protocol per loop |
| `WorkOrder.dfy` | where and in what order the pool works: loops of delivery, first in first out, no deadlock |
| `Inet4.dfy`, `Inet6.dfy` | printing and parsing IP addresses |
| `HandleLifetime.dfy`, `StreamWrite.dfy` | pyuv's reference counts, PYREF, close, deallocation and resurrection; buffer views of a write |
| `FsPoll.dfy` | the contexts behind a file-polling handle |
| `LoopHandles.dfy` | counting of active handles, requests, the handle queue, the closing list, signals under way |
| `Powers.dfy`, `PowerOfTwo.dfy`, `Watchers.dfy` | the table of I/O watchers and its growth |
| `Queue.dfy`, `Walk.dfy` | the intrusive circular queue and `uv_walk` on it |

How the parts hang together:

* In the tree and heap modules a ghost tree says what the links spell. The fix-up loops of the red-black
  tree carry a ghost context: the place of the defect, the subtrees beside the path to it, and the colour
  debt there (`RbRules.dfy`). Each case of the source is first proved on ghost trees and then for the
  pointer writes. The mirrored branches of the source are one method with a side as parameter.
* In `Async.dfy`, `ThreadPool.dfy`, `FsPoll.dfy`, `HandleLifetime.dfy` and `LoopHandles.dfy` a state has
  fields of the source and history fields that no effect of a step depends on. `Apply` and `Enabled` define the steps;
  `StepInv` and `RunInv` carry the invariants to every run, and the theorems are about all runs. The last
  three also have classes. Their methods, which work on the source's own fields and links, are proved to
  make exactly these steps, so the theorems hold of the objects.
* What a step does is not left to its definition: in each of these systems lemmas say, field by field, which
  operations change it and how (`HistoryIsTrue`, `Changes`, `FlagsChange`, `CtxChanges`, `OrderStep`), and the
  theorems about effects over runs rest on these (`StartKeepsAlive`, `RequestKeepsAlive`, `KeepsLoopAlive`,
  `PollsAsAsked`, `UserHearsTheNews`, `DoneOnItsLoop`). Others say that the guards leave room for what is to
  happen (`ComesToRest`, `NoDeadlock`, `NothingIsHeldUp`).
* For the address codecs the buffer programs are proved equal to a specification of the text (`Text4`,
  `Text6`) and of the parser (`Parse4`, `Parse6`), and the parser is proved to accept exactly a grammar
  (`Text4` itself, and `IsText6`), from which the round trips follow. `PrintedExactly` says in terms of the
  bytes what the text of an IPv6 address is.

What the models found out about the code:

* `heap_remove` resets `heap->min` when the node it unlinks is the root (heap-inl.h:189-191). The slot has
  just been cleared, so `heap->min` is already NULL there and the test is never true; the proof of
  `TimerHeap.Heap.CutLast` and `Remove` relies on the slot write alone.
* In `inet_ntop6` the alternative `best.len == 7` of the embedded-address test (inet.c:131) cannot be
  reached: with seven zero words from word 0 the loop never gets past the run at word 6.
* `next_power_of_two` wraps around to 0 for 0 and for everything above 2^31, and for nothing else. The
  only descriptor the assertions of `uv__io_start` admit for which this matters is `INT_MAX - 1`
  (`Watchers.EventLoop.IoStart`).
* Python's cycle collector may clear the loop reference of an open handle (handle.c:219-226). A loop object
  outlives its registered handles except in that case (`HandleLifetime.LoopOutlivesHandle` and
  `CollectorFreesTheLoop`); a started handle is safe from it (`StartedKeepsLoop`). Two things fail then.
  The close callback of a cleared handle gives back a loop reference that is null, without a test
  (handle.c:67; `ClosedWithoutLoop`); this happens if and only if the handle had no loop when close() was
  called (`CloseNeedsLoop`). And a call, or the deallocator, may enter libuv on a loop that was part of a
  freed object (`DroppedOnAFreedLoop`); this happens if and only if neither the program nor any handle
  refers to the loop any more (`NothingTouchesTheFreed`).
* A signal handle closed while signals are under way does not keep its loop alive, so the loop may stop
  before the close callback (`LoopHandles.NothingOwedWhenDead`, `SignalOwed`).
* `uv_fs_poll_start` frees its context when the first stat request is refused, although the context's timer
  is already in the loop's handle queue (fs-poll.c:82-99; `FsPoll.Handle.StartPolling`).
* `SPLAY_REMOVE` returns its argument and not the node it takes out; they differ when the argument only
  carries the key.
* `statbuf_eq` leaves out link count, special-device number, block size, block count and access time, so
  a change of only these is not reported.

The keys of the trees and of the heap are integers, standing for any total order in the trees. Heap keys
may repeat.

## Model

| member | source | states |
|---|---|---|
| RbTree.Head.Insert | deps/libuv/include/tree.h:597-626 | the tree stays a red-black search tree; it gains exactly the new node, or returns the existing node with the same key and changes nothing |
| RbTree.Head.Remove | deps/libuv/include/tree.h:530-595 | from any valid tree and any node of it: again a valid red-black tree, on exactly the other nodes, with consistent parent links; the removed node is returned |
| RbTree.Head.InsertColor | deps/libuv/include/tree.h:407-449 | the fix-up turns a tree with one possible red-red clash into a red-black tree with a black root, same nodes in the same order, and terminates |
| RbTree.Head.ClashStep | deps/libuv/include/tree.h:411-447 | one round either removes the clash or moves it two levels up |
| RbTree.Head.InsertRecolor | deps/libuv/include/tree.h:415-421 | red uncle: after recolouring the clash is at the grandparent, one black level higher |
| RbTree.Head.InsertInner | deps/libuv/include/tree.h:422-427 | inner grandchild: after the rotation the clash is an outer one, black heights as before |
| RbTree.Head.InsertOuter | deps/libuv/include/tree.h:428-429 | outer grandchild: recolouring and rotating ends the clash |
| RbTree.Head.RemoveColor | deps/libuv/include/tree.h:451-528 | the fix-up turns a tree that lacks one black level at one place into a red-black tree with the same nodes in the same order, and terminates |
| RbTree.Head.LackStep | deps/libuv/include/tree.h:456-525 | one round on either side moves the missing level up, or ends at a red node or at the root |
| RbTree.Head.RemoveRedSib | deps/libuv/include/tree.h:460-464 | red sibling: recolour and rotate; the level is still missing, below a red parent with a black sibling |
| RbTree.Head.RemoveBlackSib | deps/libuv/include/tree.h:465-471 | black sibling with black children: painting it red moves the missing level to the parent |
| RbTree.Head.RemoveNearRed | deps/libuv/include/tree.h:473-482 | near nephew red: recolour and rotate the sibling; now the far nephew is red |
| RbTree.Head.RemoveFarRed | deps/libuv/include/tree.h:483-489 | far nephew red: recolour and rotate; the whole is a red-black tree again |
| RbRules.LackSibling | deps/libuv/include/tree.h:458-470 | a node that lacks a black level always has a sibling, and the children the fix-up looks at are there |
| RbRules.RedUncle | deps/libuv/include/tree.h:415-421 | ghost form of the red-uncle case: black heights are unchanged outside, the clash moves up |
| RbRules.InnerClash | deps/libuv/include/tree.h:422-427 | the rotated tree is the one the inner case needs |
| RbRules.OuterClash | deps/libuv/include/tree.h:428-429 | the recoloured, rotated tree has no clash |
| RbRules.RedSib | deps/libuv/include/tree.h:460-464 | colours and black heights after the red-sibling case |
| RbRules.BlackSib | deps/libuv/include/tree.h:465-471 | colours and black heights after the black-sibling case |
| RbRules.NearRed | deps/libuv/include/tree.h:473-482 | colours and black heights after the near-nephew case |
| RbRules.FarRed | deps/libuv/include/tree.h:483-489 | after the far-nephew case nothing is missing any more |
| RbRules.PayDebt | deps/libuv/include/tree.h:526-527 | stopping at the root or blackening a red node restores equal black heights |
| RbRules.ReplaceFacts | deps/libuv/include/tree.h:539-570 | putting the successor in the place of a node with two children keeps order and colours up to the level missing where the successor was |
| RbTree.Head.Rotate | deps/libuv/include/tree.h:342-380 | both rotations: the links spell the rotated tree, in its context, on the same nodes |
| RbTree.Head.Descend | deps/libuv/include/tree.h:601-615 | the search ends at the key, or at the only place where the key can be attached |
| RbTree.Head.Successor | deps/libuv/include/tree.h:541-543 | the successor is the leftmost node of the right subtree |
| RbTree.Head.Find | deps/libuv/include/tree.h:628-643 | finds a node with the key if and only if there is one |
| RbTree.Head.NFind | deps/libuv/include/tree.h:646-664 | the node with the least key that is not below the given one, if there is one |
| RbTree.Head.Next | deps/libuv/include/tree.h:667-687 | the node that follows in order, null after the last |
| RbTree.Head.Prev | deps/libuv/include/tree.h:690-710 | the node that precedes in order, null before the first |
| RbTree.Head.MinMax | deps/libuv/include/tree.h:711-724 | first and last node in order |
| RbTree.Head.Foreach | deps/libuv/include/tree.h:738-741 | from RB_MIN by RB_NEXT: exactly the nodes of the tree, in ascending order |
| RbTree.Head.Balanced | deps/libuv/include/tree.h:53-62 | the height is at most 2k for some whole k with 2^k at most n + 1: at most 2 lg(n + 1) |
| RbRules.HeightBound | deps/libuv/include/tree.h:53-62 | the same bound for any ghost tree that obeys the colour rules |
| LinkedTree.NoDeeper | deps/libuv/include/tree.h:53-62 | the height bounds the length of every path from the root; with Deepest, which gives a path of that length, it is the longest one |
| RbTree.SpellOnce | deps/libuv/include/tree.h:303-324 | what the links spell is unique: the ghost tree adds nothing to memory |
| LinkedTree.RotatedOrder | deps/libuv/include/tree.h:342-380 | a rotation keeps the in-order sequence |
| LinkedTree.NotThere | deps/libuv/include/tree.h:601-615 | a search that falls off the tree proves that the key is absent |
| SplayTree.Head.Splay | deps/libuv/include/tree.h:209-242 | the nodes and their order stay; everything left of the new root is before the target and everything right of it after, so the searched key is at the root if present; terminates. The same body with a constant comparison is SPLAY_MINMAX |
| SplayTree.Head.Turn | deps/libuv/include/tree.h:217-240 | one round: rotates and links towards the target, or stops where nothing is left on its side |
| SplayTree.Head.Rotate | deps/libuv/include/tree.h:88-98 | the rotation macros perform the rotation |
| SplayTree.Head.LinkRoot | deps/libuv/include/tree.h:100-110 | the root and its far subtree join the end of a side tree |
| SplayTree.Head.Assemble | deps/libuv/include/tree.h:112-117 | the two side trees and the subtrees of the root become one search tree |
| SplayTree.Head.Insert | deps/libuv/include/tree.h:164-186 | adds exactly the new node, or returns the node with the same key; still a search tree |
| SplayTree.Head.Remove | deps/libuv/include/tree.h:188-207 | takes out exactly the node with the key, if any, and returns its argument if there was one |
| SplayTree.Head.Find | deps/libuv/include/tree.h:128-137 | finds a node with the key if and only if there is one; the contents stay |
| SplayTree.Head.Next | deps/libuv/include/tree.h:139-151 | for a node of the tree, the node that follows in order |
| SplayTree.Head.MinMax | deps/libuv/include/tree.h:247-278 | brings the first or the last node in order to the root |
| SplayTree.LinkArranged | deps/libuv/include/tree.h:100-110 | linking keeps the order of all nodes and the side trees on their side of the target |
| SplayTree.AssembledSplit | deps/libuv/include/tree.h:112-117 | wherever the descent stops, the assembled tree is split at the target |
| SplayTree.NothingRight | deps/libuv/include/tree.h:196-203 | after the second splay of a removal the new root has no right subtree to lose |
| TimerHeap.Heap.Insert | deps/libuv/src/heap-inl.h:106-148 | the tree stays complete and heap-ordered with consistent links, and gains exactly the new node |
| TimerHeap.Heap.Remove | deps/libuv/src/heap-inl.h:150-237 | removing any node keeps the tree complete and heap-ordered and loses exactly that node |
| TimerHeap.Heap.Dequeue | deps/libuv/src/heap-inl.h:239-241 | removes exactly the minimum |
| TimerHeap.Heap.Min | deps/libuv/src/heap-inl.h:67-69 | a node whose key no other undercuts |
| TimerHeap.Heap.NodeSwap | deps/libuv/src/heap-inl.h:72-104 | swapping a node with its parent leaves every link consistent and every other node in place |
| TimerHeap.Heap.SiftUp | deps/libuv/src/heap-inl.h:146-147 | walking the node up ends with a valid heap on the same nodes |
| TimerHeap.Heap.SiftDown | deps/libuv/src/heap-inl.h:220-229 | walking the node down ends with heap order below it |
| TimerHeap.PathTo | deps/libuv/src/heap-inl.h:122-124 | the bit-reversed path leads from position 1 to the given level-order position, within unsigned arithmetic |
| TimerHeap.Heap.Place | deps/libuv/src/heap-inl.h:127-136 | following the path arrives at the slot of exactly that position |
| TimerHeap.LastPlace | deps/libuv/src/heap-inl.h:122-140 | a tree with n nodes and a new one at position n + 1 is complete, and conversely |
| TimerHeap.RootLeast | deps/libuv/src/heap-inl.h:67-69 | in heap order the root is a minimum |
| TimerHeap.Heap.CutLast | deps/libuv/src/heap-inl.h:166-185 | what is unlinked is the node at position nelts |
| TimerHeap.Heap.RemoveInner | deps/libuv/src/heap-inl.h:195-236 | the last node takes the place of the removed one and is sifted into order, down and up |
| AsyncWakeup.CallIsAnswered | deps/libuv/src/unix/async.c:59-120 | no lost wakeup, from the call on: whatever state a thread inside uv_async_send leaves the flag in, in every run that comes to rest with the handle open and not made anew a callback of the handle begins after the call |
| AsyncWakeup.SendIsAnswered | deps/libuv/src/unix/async.c:59-120 | the same from the point at which the send has taken effect |
| AsyncWakeup.StepInv | deps/libuv/src/unix/async.c:59-154 | every interleaved step keeps: an open handle with pending set has a writer, unread data, a read in progress, or is still to be examined |
| AsyncWakeup.RunInv | deps/libuv/src/unix/async.c:59-154 | the same over every run |
| AsyncWakeup.CallsAtMostSends | deps/libuv/src/unix/async.c:59-120 | callbacks never outnumber sends, over every run |
| AsyncWakeup.OwedUntilCalled | deps/libuv/src/unix/async.c:105-119 | a send that took effect stays owed until a callback of its handle begins |
| AsyncWakeup.SendLeavesOwed | deps/libuv/src/unix/async.c:59-68 | a thread gets past the flag only by leaving the handle owed |
| AsyncWakeup.WakeupStep | deps/libuv/src/unix/async.c:59-154 | the wakeup part of the invariant, step by step |
| AsyncWakeup.OrderStep | deps/libuv/src/unix/async.c:104-119 | only uv_async_init and uv__async_close change which handles the loop has and in which order it examines them; the pass itself loses, doubles and reorders none, at any point of it |
| AsyncWakeup.OpenExactly | deps/libuv/src/unix/async.c:41-74 | a handle is open from uv_async_init to its close, and nothing else opens or closes it |
| AsyncWakeup.ClosedIsSilent | deps/libuv/src/unix/async.c:71-119 | over every run: once closed a handle is not called back, whatever sends on it are still under way |
| AsyncWakeup.HistoryIsTrue | deps/libuv/src/unix/async.c:59-119 | the counts the theorems speak of are what happens: a callback begins exactly where an examination finds the flag set and a callback to call, and takes the flag down; a send is a call; a win takes the flag from 0 to 1 |
| AsyncWakeup.Coalesces | deps/libuv/src/unix/async.c:59-68 | a thread that finds the flag set leaves without a write; only the one that sets it writes, and one byte |
| AsyncWakeup.OneBytePerWin | deps/libuv/src/unix/async.c:59-68 | over every run no more bytes are unread or about to be written than times a flag was raised |
| AsyncWakeup.ComesToRest | deps/libuv/src/unix/async.c:59-154 | from every state the senders under way and the loop can come to rest without another send: the runs the theorems speak of exist |
| AsyncWakeup.AnswerCanCome | deps/libuv/src/unix/async.c:59-120 | so every send under way on an open handle with a callback can be answered, by a run that sends nothing more |
| ThreadPool.DoneOnce | deps/libuv/src/threadpool.c:52-92 | in every interleaving done is called at most once; status 0 means the work ran exactly once and to its end, UV_ECANCELED that it never ran |
| ThreadPool.EveryItemDelivered | deps/libuv/src/threadpool.c:52-115 | when nothing moves any more every item has been delivered, except those posted behind the exit message once all workers are gone |
| ThreadPool.NothingStranded | deps/libuv/src/threadpool.c:85-90 | whenever a loop has finished items its wq_async is pending with the wakeup on its way, or a thread is between inserting and sending, or the loop is about to collect |
| ThreadPool.SleepersMeanNoWork | deps/libuv/src/threadpool.c:58-77 | with no woken worker on its way, a sleeping worker means an empty queue |
| ThreadPool.SleepStep | deps/libuv/src/threadpool.c:58-101 | every step keeps: idle_threads counts the workers inside cond_wait; while one sleeps unwoken the queue is no longer than the woken workers; exit_message stays at the head once a worker left |
| ThreadPool.SomeoneAwake | deps/libuv/src/threadpool.c:70-77 | as long as the queue is not empty and a worker is left, some worker is awake |
| ThreadPool.ExitWaitsForEarlierWork | deps/libuv/src/threadpool.c:58-115 | shutdown, over every run: whatever was in the queue when exit_message was posted has left it, taken or cancelled, in any later state in which some worker has exited |
| ThreadPool.CancelWorks | deps/libuv/src/threadpool.c:201-224 | a cancel takes effect if and only if the work has not begun |
| ThreadPool.CancelTest | deps/libuv/src/threadpool.c:204-209 | the test under both mutexes is true exactly for queued items and items already cancelled |
| ThreadPool.ItemsStep | deps/libuv/src/threadpool.c:52-247 | every step keeps each item in exactly one place with the history its place implies, also when a cancel is repeated |
| ThreadPool.WakeStep | deps/libuv/src/threadpool.c:85-90 | every step keeps finished work announced to its loop |
| ThreadPool.RunInv | deps/libuv/src/threadpool.c:52-247 | the three invariants over every run |
| ThreadPool.WorkerGoesOn | deps/libuv/src/threadpool.c:79-90 | the guards of the model never hold a worker up |
| WorkOrder.DoneOnItsLoop | deps/libuv/src/threadpool.c:189-247 | over every run from the submission of an item on a loop: if its done callback is called, it is called on that loop |
| WorkOrder.BegunInOrder | deps/libuv/src/threadpool.c:52-101 | over every run, with any number of workers: an item submitted while another is in the queue does not begin before that one has left it |
| WorkOrder.DeliveredInOrder | deps/libuv/src/threadpool.c:85-88 | over every run a loop delivers its items in the order in which they finished, cancelled ones aside |
| WorkOrder.CancelIsFinal | deps/libuv/src/threadpool.c:201-247 | over every run from a cancel that takes effect: the work never begins, and done is called with UV_ECANCELED if at all |
| WorkOrder.HistoryIsTrue | deps/libuv/src/threadpool.c:52-247 | the counts the theorems speak of are what happens: work begins where a worker takes it from the head of the queue, ends where it returns, done is called where it is taken from the local queue; the loop of an item never changes |
| WorkOrder.DrainEnds | deps/libuv/src/threadpool.c:227-247 | from wherever the loop thread is in it, uv__work_done can come to its end by its own steps, with its local queue delivered |
| WorkOrder.ShutdownIsComplete | deps/libuv/src/threadpool.c:58-119 | when nothing moves any more after exit_message was posted, every worker has left its loop |
| WorkOrder.TurnMeans | deps/libuv/src/threadpool.c:59-80 | a worker sleeps on an empty queue, begins the first item, and leaves at exit_message after waking a sleeper if there is one |
| WorkOrder.PoolRunsWakeup | deps/libuv/src/threadpool.c:85-91 | every run of the pool is, for each of its loops, a run of the wakeup protocol of that loop, so what is proved of the protocol holds inside the pool |
| WorkOrder.WorkerGetsBack | deps/libuv/src/threadpool.c:82-91 | a worker with an item can, by its own steps, hand it to its loop, announce it and get back to the queue |
| WorkOrder.CancelEnds | deps/libuv/src/threadpool.c:211-224 | uv__work_cancel can come to its end by its own steps, with the item handed to its loop |
| WorkOrder.PostMeans | deps/libuv/src/threadpool.c:95-101 | a post puts its entry behind all others |
| WorkOrder.NoDeadlock | deps/libuv/src/threadpool.c:52-247 | in every state that satisfies the invariants, as long as anything is under way, some worker, loop or sender can go on with it |
| Inet4.ParsesExactlyText4 | deps/libuv/src/inet.c:186-222 | over all strings: the parser yields b if and only if the string is the text printed for b |
| Inet4.ParseText4 | deps/libuv/src/inet.c:53-65 | what is printed is parsed back |
| Inet4.Ntop4 | deps/libuv/src/inet.c:53-65 | the dotted text, or ENOSPC when it does not fit with its terminator |
| Inet4.Pton4 | deps/libuv/src/inet.c:186-222 | the array loop computes the specification of the parser on every string, errors included |
| Inet4.FourOctets | deps/libuv/src/inet.c:211-215 | a text that is accepted has exactly four octets |
| Inet4.RefusesAllElse | deps/libuv/src/inet.c:186-222 | everything that is not the text of an address is refused, with UV_EINVAL |
| Inet4.Alphabet | deps/libuv/src/inet.c:187-197 | the digits are the ten characters of the table, each with the value of its place |
| Inet6.ParsesExactlyText6 | deps/libuv/src/inet.c:225-309 | over all strings: the parser yields b if and only if the string is a text of b, that is groups of one to four hexadecimal digits and perhaps a dotted quad at the end, sixteen bytes in all, or fewer with exactly one double colon for the zeros that are missing |
| Inet6.PrintedIsText | deps/libuv/src/inet.c:68-154 | what is printed for an address is a text of it |
| Inet6.ParseText6 | deps/libuv/src/inet.c:225-309 | round trip: for every 16-byte address the parser returns the address from its text, for every form of compression and embedding |
| Inet6.ParseTextWithZone | deps/libuv/src/inet.c:157-183 | the same with or without a zone suffix after a percent sign |
| Inet6.Ntop6 | deps/libuv/src/inet.c:68-154 | prints the text that elides the best run, which the parser reads back as the address; never needs more than 46 bytes; ENOSPC exactly when text and terminator do not fit. IPv4-mapped and IPv4-compatible addresses, and only these, end in a dotted quad |
| Inet6.BestRun | deps/libuv/src/inet.c:89-112 | the run chosen is the leftmost longest run of zero words of length at least two |
| Inet6.BestIsUnique | deps/libuv/src/inet.c:89-112 | that run is unique |
| Inet6.PrintedExactly | deps/libuv/src/inet.c:114-145 | the text in full: an IPv4-mapped address is ::ffff: and a dotted quad, an IPv4-compatible one :: and a dotted quad, every other its words in hexadecimal with a double colon for the best run |
| Inet6.DottedWhen | deps/libuv/src/inet.c:130-139 | a dotted quad is printed if and only if the address is IPv4-mapped, or IPv4-compatible with something in the upper half of its IPv4 part |
| Inet6.EmbeddedWhen | deps/libuv/src/inet.c:130-132 | the embedded-address test at word 6 succeeds for exactly these addresses |
| Inet6.HexIsShort | deps/libuv/src/inet.c:140 | a word is printed in digits of the lower alphabet without leading zeros, and its value is the word |
| Inet6.HexAlphabets | deps/libuv/src/inet.c:226-245 | the digits read are the characters of the two tables, each with the value of its place |
| Inet6.RefusesAllElse6 | deps/libuv/src/inet.c:225-309 | everything that is no text of an address is refused, with UV_EINVAL |
| Inet6.ZoneIsCutOff | deps/libuv/src/inet.c:162-177 | a zone suffix makes no difference where the address in front of it fits into 45 characters; otherwise the whole is refused |
| Inet6.PrintWord | deps/libuv/src/inet.c:118-140 | one turn of the printing loop; the nested inet_ntop4 gets enough room and never fails |
| Inet6.TailLength | deps/libuv/src/inet.c:76-153 | no text is longer than 42 characters, so the 46-byte buffer is never filled |
| Inet6.Pton6 | deps/libuv/src/inet.c:225-309 | the array program computes the specification of the parser on every string, errors included; ParsesExactlyText6 says what that accepts |
| Inet6.ShiftRight | deps/libuv/src/inet.c:289-304 | the in-place right shift with its zero filling is the expansion of the double colon |
| Inet6.GapZeros | deps/libuv/src/inet.c:289-304 | the words in front of the run, zeros for the run and the words behind it are the address |
| Inet6.InetPton | deps/libuv/src/inet.c:157-183 | dispatch on the family, with the zone stripped for IPv6 and refused when too long |
| HandleLifetime.LifetimeSafety | src/handle.c:229-257 | over every run, the cycle collector included and up to the step, if any, at which the source dereferences a null or freed loop: an object is freed only if libuv never saw it or its close callback has run exactly once; it is resurrected at most once; while registered with the loop it is alive, and so is its loop unless the collector has cleared the handle; it is freed exactly when nobody owns a reference |
| HandleLifetime.NothingTouchesTheFreed | src/handle.c:45-94 | over every run every operation, callback and collection that can happen next finds a live handle object. It finds the loop missing in exactly two cases: at the end of the close callback of a handle that the collector has cleared (null pointer), and where a call or the deallocator enters libuv on an open handle when neither the program nor any handle refers to the loop any more (freed loop); never on a handle that still has its loop |
| HandleLifetime.LoopFreedExactly | src/loop.c:328-339 | over every run the loop object is freed if and only if the program and every handle have let go of it |
| HandleLifetime.LoopOutlivesHandle | src/handle.c:219-226 | a loop object freed under a handle that libuv still has registered means that the collector has cleared that handle |
| HandleLifetime.CollectorFreesTheLoop | src/handle.c:219-226 | and this does happen: a run of four steps after which an open handle has no loop |
| HandleLifetime.DroppedOnAFreedLoop | src/handle.c:229-234 | the promise fails: dropping that handle calls uv_close on a loop that was part of a freed object |
| HandleLifetime.ClosedWithoutLoop | src/handle.c:45-68 | the promise fails: close() on a cleared handle ends in a dereference of its null loop, while the loop object is alive |
| HandleLifetime.CloseNeedsLoop | src/handle.c:45-68 | the exact condition for it, in every run from close() to the end of its callback: the handle had no loop when close() was called |
| HandleLifetime.NoFaultWithoutCollector | src/handle.c:45-94 | no run in which the collector takes no handle has such a step |
| HandleLifetime.StartedKeepsLoop | src/timer.c:26-107 | a started handle keeps its loop object alive through every run that neither stops nor closes it |
| HandleLifetime.StartKeepsAlive | src/timer.c:73-87 | over every run from a successful start, up to a stop that libuv accepts or the end of a close: whatever the program drops, the handle holds PYREF, is not freed or resurrected, and its loop is not freed; right after the start it is active |
| HandleLifetime.RequestKeepsAlive | src/stream.c:149-192 | over every run from an accepted request, until more requests are delivered than were in flight before: the handle is not freed, closed, resurrected or cleared |
| HandleLifetime.CallbackKeepsAlive | src/timer.c:12-21 | over every run from the beginning of a callback, until more callbacks return than were running before: the handle is not freed |
| HandleLifetime.StoppedIsSilent | src/timer.c:90-125 | over every run from a successful stop, or a close, without another start: the callback of the handle is not called |
| HandleLifetime.CloseIsFinal | src/handle.c:110-136 | over every run from an accepted close(): each call reports that the handle is closed; until the close callback begins the handle is alive, and the callback can begin once no request is in flight |
| HandleLifetime.UntilInit | src/pyuv.h:92-102 | over every run an object reports that it is not initialised as long as tp_init was not called |
| HandleLifetime.ReportMeans | src/pyuv.h:84-112 | which error a call reports, if and only if: not initialised, closing or closed, the error of libuv |
| HandleLifetime.Changes | src/handle.c:45-136 | owner by owner and phase by phase, which operation changes what; with the balance this determines the reference count |
| HandleLifetime.EntersUvExactly | src/handle.c:229-257 | libuv is entered on an open handle by the calls it has to answer and by whatever closes the handle, and by nothing else |
| HandleLifetime.StepInv | src/pyuv.h:152-166 | every operation keeps the reference count equal to the references of the program, requests in flight, running callbacks, PYREF (exactly one) and the pending close |
| HandleLifetime.RunInv | src/handle.c:97-107 | over every run the loop object counts exactly the references of the program and those of the handles initialised on it, beside the balance of every handle |
| HandleLifetime.StartedStaysAlive | src/timer.c:26-107 | a started handle keeps its PYREF and loop references until stop succeeds or close finishes; the collector cannot take it |
| HandleLifetime.DroppedHandleIsFreed | src/handle.c:229-257 | a handle dropped while open is closed, comes back once, and is freed with its loop reference by the close callback |
| HandleLifetime.AllReleased | src/loop.c:328-339 | when every handle is freed and the program has dropped the loop, the loop is freed |
| HandleLifetime.Handle.TpDealloc | src/handle.c:229-257 | close and resurrect, or free and give the loop reference back |
| HandleLifetime.Handle.TpClear | src/handle.c:219-226 | gives the loop reference back, once |
| HandleLifetime.Handle.CollectCall | src/handle.c:219-226 | a collection takes the loop reference and nothing else |
| HandleLifetime.Handle.EndClose | src/handle.c:64-75 | loop reference, PYREF and the reference of close() are given back, in this order, none from a freed object; and it says when there is no loop to give back |
| HandleLifetime.Handle.DeallocCloseCallback | src/handle.c:81-94 | gives back the reference that resurrected the object |
| HandleLifetime.Handle.HandleIncref | src/pyuv.h:152-158 | takes at most one reference, and the flag says whether |
| HandleLifetime.Handle.HandleDecref | src/pyuv.h:160-166 | gives that reference back at most once |
| HandleLifetime.Handle.TpInit | src/timer.c:170-192 | initialises once, with a reference on the loop; refused the second time |
| HandleLifetime.Handle.StartCall | src/timer.c:26-87 | start: errors for uninitialised, closing and refused by libuv leave everything as it was; success leaves the handle active and holding PYREF |
| HandleLifetime.Handle.StopCall | src/timer.c:90-107 | stop: the same error cases; success leaves the handle inactive and without PYREF, and the object survives the call |
| HandleLifetime.Handle.AgainCall | src/timer.c:110-125 | again: may arm the timer but leaves PYREF alone |
| HandleLifetime.Handle.SubmitCall | src/stream.c:149-192 | a request in flight owns one reference, taken only when libuv accepted it |
| HandleLifetime.Handle.CompleteCallback | src/stream.c:20-54 | the reference of a finished request passes to its running callback |
| HandleLifetime.Handle.FireCallback | src/timer.c:2-15 | a callback holds a reference on the object while it runs |
| HandleLifetime.Handle.EndCallback | src/timer.c:21-23 | the end of a callback may drop the last reference |
| HandleLifetime.Handle.CloseCall | src/handle.c:110-136 | close: refused when closing or with a bad callback; otherwise holds a reference until the close callback |
| StreamWrite.WriteSequence | src/stream.c:335-425 | success holds one buffer view per item in order; every failure leaves no view behind |
| StreamWrite.WriteDone | src/stream.c:136-140 | the completion callback gives every view back once |
| StreamWrite.ReleaseViews | src/stream.c:417-419 | releases exactly the first n views |
| StreamWrite.TakeViews | src/stream.c:382-388 | takes views up to the first item that refuses |
| FsPoll.NoCallAfterStop | deps/libuv/src/fs-poll.c:104-125 | from a stop or close to the next start no run of pending requests and timers reaches the user callback |
| FsPoll.GivenUpForGood | deps/libuv/src/fs-poll.c:172-219 | a context given up, also from inside its own callback and with a restart, never calls the user again |
| FsPoll.GivenUpIsFreed | deps/libuv/src/fs-poll.c:172-224 | over every run a context given up is freed by exactly as many of its own callbacks as its rank says, at most two; it is freed once, then has no more of them, and until then has one to come |
| FsPoll.EachContextHasOneOwner | deps/libuv/src/fs-poll.c:56-224 | in every reachable state each context is in exactly one of: stat in flight, in poll_cb, timer armed, timer closing, freed |
| FsPoll.RearmsOnTheGrid | deps/libuv/src/fs-poll.c:213-218 | the re-arm delay is between 1 and the interval and lands on start_time plus a multiple of the interval |
| FsPoll.TellsTheNews | deps/libuv/src/fs-poll.c:185-203 | the user is called exactly when the answer differs from the one before, with the last good state and the new one; busy_polling and statbuf are the history this needs |
| FsPoll.OnlyTheCurrentSpeaks | deps/libuv/src/fs-poll.c:179-203 | each callback belongs to the current context of an active handle and reports its news |
| FsPoll.TimerFindsItsParent | deps/libuv/src/fs-poll.c:163-164 | both asserts of timer_cb hold |
| FsPoll.StepInv | deps/libuv/src/fs-poll.c:56-224 | every user call, callback and tick keeps the invariant |
| FsPoll.PollsAsAsked | deps/libuv/src/fs-poll.c:56-219 | over every run from a start that asks for an interval: whenever the timer is rearmed it is due in 1 to that many milliseconds (1 if 0 was asked for), a whole number of intervals after the last ring, or after the start |
| FsPoll.UserHearsTheNews | deps/libuv/src/fs-poll.c:172-211 | over every run from a start: the calls of the user callback are, one for one and in order, the news in the answers that reached the context before it was given up |
| FsPoll.StartMakesContext | deps/libuv/src/fs-poll.c:56-101 | a start on an inactive handle makes a context with the interval asked for, or 1 for 0, and asks for its first stat; on an active handle it does nothing |
| FsPoll.SameStatExactly | deps/libuv/src/fs-poll.c:227-242 | two buffers are the same if and only if they differ in nothing but link count, special-device number, block size, block count and access time |
| FsPoll.CtxChanges | deps/libuv/src/fs-poll.c:104-224 | which action changes what of a context: its interval never changes, its period begins anew with its timer, it hears the answers that come while it is current |
| FsPoll.NothingIsHeldUp | deps/libuv/src/fs-poll.c:104-224 | until it is freed a context always has something that can happen to it, at the latest when its timer is due |
| FsPoll.Handle.StartPolling | deps/libuv/src/fs-poll.c:56-101 | starting an inactive handle makes a fresh context and registers its timer; an active one is left alone; out of memory and a refused request are reported and leave the handle inactive. The handle queue is left without freed timers if and only if the request was not refused |
| FsPoll.Context.TimerCloseCb | deps/libuv/src/fs-poll.c:222-224 | the context is freed and its timer is in the handle queue no more |
| FsPoll.Handle.StopPolling | deps/libuv/src/fs-poll.c:104-125 | stopping detaches the context and closes its timer only if it is armed; the asserts hold |
| FsPoll.Handle.CloseHandle | deps/libuv/src/fs-poll.c:154-156 | closing a handle stops it |
| FsPoll.Context.PollHead | deps/libuv/src/fs-poll.c:172-206 | poll_cb up to the user callback, and what it calls it with |
| FsPoll.Context.PollTail | deps/libuv/src/fs-poll.c:208-218 | poll_cb after the user callback |
| FsPoll.Context.TimerCb | deps/libuv/src/fs-poll.c:159-169 | a new period with a new request |
| LoopHandles.CountIsExact | deps/libuv/src/uv-common.h:145-200 | in every reachable state active_handles is the number of handles both ACTIVE and REF, never below any of their contributions; the close callback of a handle has run once if it is closed and not at all otherwise |
| LoopHandles.CountIsKeepers | deps/libuv/src/uv-common.h:145-164 | in every reachable state the count is the number of handles that are both active and referenced |
| LoopHandles.RefAndStart | deps/libuv/src/uv-common.h:166-191 | in every reachable state: referencing an active handle, or starting a referenced one, leaves the loop alive |
| LoopHandles.UnrefAndStop | deps/libuv/src/uv-common.h:175-200 | in every reachable state: unreferencing or stopping a handle takes away exactly what it counted for, and a loop kept alive by it alone is dead |
| LoopHandles.KeepsLoopAlive | deps/libuv/src/unix/core.c:330-334 | over every run: an active, referenced handle keeps the loop alive until it is stopped or unreferenced |
| LoopHandles.RequestKeepsAlive | deps/libuv/src/unix/core.c:330-334 | over every run: a request keeps the loop alive from its registration until it is unregistered |
| LoopHandles.NothingIsHeldUp | deps/libuv/src/unix/core.c:110-297 | in every reachable state a closing handle has a next step until it is called back; a caught signal can be dispatched, a pass begun and finished, a request ended |
| LoopHandles.FlagsChange | deps/libuv/src/uv-common.h:166-200 | which operation sets and clears which flag of which handle |
| LoopHandles.NewHandle | deps/libuv/src/uv-common.h:211-219 | a new handle is referenced, not active, not closing, and the last of the handle queue |
| LoopHandles.StepInv | deps/libuv/src/unix/core.c:110-297 | every operation keeps the count, the closing lists (exactly the handles made pending and not closed, once each), the handle queue (exactly those not called back), the requests, and: a closing handle whose uv_close is over is pending unless signals are under way to it |
| LoopHandles.ReachedInv | deps/libuv/src/unix/core.c:110-297 | all of that holds in every reachable state |
| LoopHandles.PassFinishesItsSnapshot | deps/libuv/src/unix/core.c:285-297 | whatever the callbacks do, a pass calls back what it detached, in list order; what is closed meanwhile goes on the next list |
| LoopHandles.PassCalls | deps/libuv/src/unix/core.c:285-297 | and it calls nobody else, and nobody twice |
| LoopHandles.LateClosesWait | deps/libuv/src/unix/core.c:285-297 | a handle that is not in the detached list is not finished by the pass |
| LoopHandles.NothingOwedWhenDead | deps/libuv/src/unix/core.c:330-334 | a loop found not alive at rest has no active referenced handle and no request; the close callbacks it still owes are exactly those of closing signal handles with signals caught and not dispatched |
| LoopHandles.SignalOwed | deps/libuv/src/unix/signal.c:319-330 | there are such handles: a signal handle closed with a signal under way does not keep its loop alive |
| LoopHandles.LastSignalPends | deps/libuv/src/unix/signal.c:457-469 | the dispatch of the last such signal makes the handle pending, for the first time, and the loop is alive |
| LoopHandles.UvLoop.CatchSignal | deps/libuv/src/unix/signal.c:181-203 | the objects make the Catch step |
| LoopHandles.UvLoop.DispatchSignal | deps/libuv/src/unix/signal.c:457-469 | the objects make the Dispatch step; the handle is pushed if and only if it is closing and this was its last signal |
| LoopHandles.UvLoop.HandleInit | deps/libuv/src/uv-common.h:211-219 | a new handle is referenced, inactive and last in the handle queue; the objects make the Init step |
| LoopHandles.UvLoop.MakeClosePending | deps/libuv/src/unix/core.c:210-215 | the handle becomes the head of the linked list |
| LoopHandles.UvLoop.UvClose | deps/libuv/src/unix/core.c:110-180 | marks, stops and pushes the handle on the linked list, except a signal handle with signals under way; writes to no callback log |
| LoopHandles.UvLoop.FinishClose | deps/libuv/src/unix/core.c:237-282 | closed, cleaned up by its type, unreferenced, off the handle queue and called back, in this order, whatever requests and callbacks the clean-up and the close callback bring |
| LoopHandles.UvLoop.RunClosingHandles | deps/libuv/src/unix/core.c:285-297 | the loop over the linked list with callbacks that start, stop, close, reference and make requests, and signals caught meanwhile: each listed handle is closed and called back once, in list order, nobody else is; the objects make a run of the transition system with one pass, and the state it leads to is the one in which everything the callbacks and clean-ups do has been done in its place |
| LoopHandles.EffectMeans | deps/libuv/src/uv-common.h:132-200 | what a callback does has its effect: a handle started is active, one referenced has REF, one closed is closing, a request registered is among the active ones, and the opposites |
| LoopHandles.UvLoop.RegisterReq | deps/libuv/src/uv-common.h:132-136 | the request becomes active |
| LoopHandles.UvLoop.UnregisterReq | deps/libuv/src/uv-common.h:138-143 | the request is active no more |
| LoopHandles.Handle.HandleStart | deps/libuv/src/uv-common.h:166-173 | active afterwards, REF as it was, and the count up by one exactly if it was not active and is referenced; the objects make the Start step, so the count stays exact |
| LoopHandles.Handle.HandleStop | deps/libuv/src/uv-common.h:175-182 | not active afterwards, REF as it was, and the count down by one exactly if it was active and is referenced; the Stop step |
| LoopHandles.Handle.HandleRef | deps/libuv/src/uv-common.h:184-191 | referenced afterwards, ACTIVE as it was, and the count up by one exactly if it was not referenced and is active; the Ref step |
| LoopHandles.Handle.HandleUnref | deps/libuv/src/uv-common.h:193-200 | not referenced afterwards, ACTIVE as it was, and the count down by one exactly if it was referenced and is active; the Unref step |
| PowerOfTwo.NextPowerOfTwo | deps/libuv/src/unix/core.c:777-786 | on all 32-bit words: the least power of two not below the argument for 1 to 2^31, and 0 exactly for all others |
| PowerOfTwo.Smear | deps/libuv/src/unix/core.c:779-783 | or-ing a word with itself shifted by r doubles the ones at its top |
| Watchers.EventLoop.MaybeResize | deps/libuv/src/unix/core.c:788-820 | old slots and the two hidden ones are kept, new slots are empty, and the size plus two is the least adequate power of two, for every length but INT_MAX, and for that one alone the size wraps around to zero |
| Watchers.EventLoop.IoStart | deps/libuv/src/unix/core.c:840-865 | for every descriptor the asserts admit: succeeds if and only if it is not INT_MAX - 1; then the table invariant is kept, the watcher has the requested events, owns its slot, and is queued if the backend does not know; all other slots stay |
| Watchers.EventLoop.IoStop | deps/libuv/src/unix/core.c:868-897 | keeps the table invariant; the events are gone, and with the last one the slot; the asserts hold |
| Watchers.EventLoop.IoClose | deps/libuv/src/unix/core.c:900-906 | the watcher is in neither table nor queue nor pending queue, and no event of the running poll step names its descriptor any more; other events stay |
| Watchers.EventLoop.IoFeed | deps/libuv/src/unix/core.c:909-912 | the watcher is on the pending queue, once |
| Watchers.EventLoop.InvalidateFd | deps/libuv/src/unix/linux-core.c:136-150 | exactly the events of the descriptor get the descriptor -1 |
| Watchers.EventLoop.Lend | deps/libuv/src/unix/linux-core.c:342-344 | the event list goes into the hidden slots, the table stays |
| Watchers.EventLoop.TakeBack | deps/libuv/src/unix/linux-core.c:409-410 | and out of them again |
| Watchers.EventLoop.EventTarget | deps/libuv/src/unix/linux-core.c:345-366 | an event calls the watcher that has a request for its descriptor, and nobody if there is none |
| Watchers.Joins | deps/libuv/src/unix/core.c:823-837 | a watcher just initialised can join without disturbing anything |
| Watchers.EventLoop.SyncBackend | deps/libuv/src/unix/linux-core.c:223-253 | the poll step empties the queue and brings every mask up to date; its asserts hold |
| Watchers.SlotsAreRequests | deps/libuv/src/unix/core.c:840-897 | a slot is used if and only if a watcher of that descriptor has a request |
| Watchers.NoSlotsNoQueue | deps/libuv/src/unix/linux-core.c:218-221 | without used slots the queue is empty |
| Queue.InsertTail | deps/libuv/src/queue.h:92-99 | the ring of members s becomes s + [q] |
| Queue.InsertHead | deps/libuv/src/queue.h:83-90 | the ring of members s becomes [q] + s |
| Queue.Remove | deps/libuv/src/queue.h:101-106 | the member disappears from the middle of whatever ring it is in |
| Queue.Split | deps/libuv/src/queue.h:61-70 | the ring is cut in two at q |
| Queue.Move | deps/libuv/src/queue.h:72-81 | all members move, the old head is an empty ring |
| Queue.Add | deps/libuv/src/queue.h:52-59 | the members of the second ring follow those of the first |
| Queue.Empty | deps/libuv/src/queue.h:39-40 | true exactly for an empty ring |
| Queue.Head | deps/libuv/src/queue.h:42-43 | the first member |
| Queue.Init | deps/libuv/src/queue.h:45-50 | an empty ring |
| LoopWalk.UvWalk | deps/libuv/src/uv-common.c:347-363 | terminates under visitors that add and remove handles; visits what the specification says, no handle twice and only public handles of the queue; leaves the queue the specification says |
| LoopWalk.VisitedUnlessDropped | deps/libuv/src/uv-common.c:347-363 | a public handle registered at the start is visited if and only if no earlier visit took it off |
| LoopWalk.VisitsIn | deps/libuv/src/uv-common.c:347-363 | whoever is visited was registered at the start and is public |
| LoopWalk.VisitsOnce | deps/libuv/src/uv-common.c:347-363 | no handle is visited twice, none that is internal or was added during the walk |
| LoopWalk.VisitsInOrder | deps/libuv/src/uv-common.c:347-363 | visits are in queue order |
| LoopWalk.IdleWalk | deps/libuv/src/uv-common.c:347-363 | a visitor that leaves the queue alone sees every public handle, and the queue is as before |
| LoopWalk.LeftExactly | deps/libuv/src/uv-common.c:347-363 | who is in the queue when the walk is over: a handle that no visitor takes off, if and only if it was there before or a visit registered it; one that no visitor registers, if and only if it was there before and no visit took it off |
| LoopWalk.StaysAhead | deps/libuv/src/uv-common.c:347-363 | a handle that is back in the queue and that no visit takes off is there when the walk is over, in front of all that stood behind it and all that is registered later |
| LoopWalk.LoopIsBusy | deps/libuv/src/uv-common.c:623-637 | busy if and only if a request or a public handle remains |

## Left out

- Watchers.EventLoop.IoStart: for the one descriptor whose table size wraps around to zero the model stops; what the C library makes of a table of no bytes is its own choice.
- Watchers.EventLoop.IoClose: the system call that takes the descriptor from the backend is not modelled; the running of the pending queue is not part of this model.
- TimerHeap.Heap.Insert: assumes that nelts is below the largest unsigned integer, as the count itself does.
- TimerHeap.Heap.Remove: with an empty heap any argument is accepted, as in the source; otherwise the node must be in the heap, which the source demands of its callers.
- SplayTree.Head.Splay: does not state the amortised cost.
- SplayTree.Head.MinMax: only for the two ends, since the source does not terminate for a comparison of 0.
- HandleLifetime.NothingTouchesTheFreed: the loop is one the program made; the default loop is static and outlives its object.
- HandleLifetime.Handle.FireCallback: the Python callable, its arguments and its exceptions are not modelled; any operation may happen while a callback runs.
- HandleLifetime.StepInv: SignalChecker (src/util.c), which drops a reference it never took, is not covered.
- StreamWrite.WriteSequence: models buffer views only, not the reference on the sequence object; memory allocation is assumed to succeed.
- FsPoll.RearmsOnTheGrid: time is an unbounded integer; the clamping of timeouts near 2^64 is not modelled.
- FsPoll.EachContextHasOneOwner: one handle and all its contexts; handles do not share contexts.
- LoopHandles.UvLoop.UvClose: what a type does when it closes, beside stopping the handle, is other steps between marking and listing; nested runs of a loop from a close callback are left out.
- LoopHandles.UvLoop.CatchSignal: the counts of caught and dispatched signals are unbounded, and the signal numbers, the tree of signal handles and the pipe are not modelled.
- LoopHandles.UvLoop.RunClosingHandles: the callbacks are given by what they do to existing handles and to requests; that they may also initialise handles is covered by the transition system only.
- ThreadPool.EveryItemDelivered: says where a run can come to rest, not that the scheduler lets it; fairness of threads is not modelled.
- ThreadPool.ItemsStep: the loop's mutex is not held over the wakeup in the model, which allows more interleavings than the source; uv_cancel is called on the loop thread before delivery has begun, as its callers guarantee.
- AsyncWakeup.SendIsAnswered: compare-and-swap is one atomic step; weaker memory orders, forked processes and descriptors other than the wakeup descriptor are left out.
- Inet6.Pton6: NULL arguments are not modelled; the zone suffix is dropped, not interpreted.
- Queue.Add: the second head is left as the source leaves it, which is not an empty ring.
- LoopWalk.LoopIsBusy: the tearing down of the loop that follows is not modelled.
- uv_run, timers, streams, signals, processes, DNS and file-system requests: operating-system calls around the structures modelled here.
- The Python binding layer: argument parsing, type tables, interpreter lock and module set-up.
