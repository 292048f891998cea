# Serial-to-TCP relay: the two buffers and the serial-path helpers

The relay has two programs. The sender reads a serial line, packs it into
100-byte frames and sends them over TCP. The receiver takes those frames
and writes them out. Each program passes data between its threads through
one buffer:

- **The sender's byte ring** (`ByteRing`, sender_c/ring_buffer.c). It is a
  fixed-capacity circular byte array with a write cursor `head`, a read
  cursor `tail`, a byte count `size` and a permanent `closed` flag.
  `rb_push_bytes` copies its input in pieces. Each piece is bounded by the
  free space and written as at most two contiguous copies, one up to the
  physical end of the array and one from index 0. `rb_pop_exact` is the
  mirror image. After `rb_close`, a push drops whatever it has not yet
  written, and a pop drains the bytes still stored before it returns
  short.
- **The receiver's frame pool-queue** (`DoubleListPool`,
  receiver_cpp/DoubleListPool.hpp). It holds 100-byte nodes on two
  intrusive singly linked lists. The free list is reused LIFO. The ready
  list is a FIFO queue with a tail pointer. The pool also keeps a count
  for each list and a permanent `closed` flag. The listener thread takes a
  node with `getFree`, fills it and queues it with `addNode`. The writer
  thread takes it with `getNode` and gives it back with `addFree`.

The model also covers two pure helpers of the sender's serial path:
`clamp_baud` and `build_com_path` (sender_c/serial_win.c).

The Dafny modules are:

- `Common` (common.dfy): bytes, `Option`, the `Blocking` outcome of a call
  that would wait, and `Min` (`minz`).
- `RingBuffer` (ring_buffer.dfy): class `ByteRing` over an `array<byte>`.
  A ghost sequence `Contents` holds the unread bytes, oldest first. The
  class invariant `Valid` says that the `size` bytes read circularly from
  `tail` are `Contents`, that `head` lies `size` positions after `tail`,
  and that both cursors lie in `0..cap-1`. Each push or pop piece is a
  method, and each contiguous `memcpy` within a piece is a method too.
- `FramePool` (double_list_pool.dfy): class `DoubleListPool`. The heap of
  nodes is an arena, a map from node id to `Node(data, next)`. `new`
  hands out a fresh id and `delete` removes the id's entry. Ghost
  sequences `FreeList` and `ReadyList` give the ids each list's links
  visit, and a ghost set `Held` holds the live nodes that callers own.
  The invariant `Inv` says the links realise both lists, the tail pointer
  is the last ready node, and every live node is in exactly one place.
  `Valid` adds that the two counts are the two lengths. Each operation is
  proved through a pure step lemma on a `PoolState` snapshot.
- `SerialPath` (serial_path.dfy): `ClampBaud`, and `BuildComPath` with the
  `_strnicmp` it relies on.
- `Clients` (clients.dfy): short runs of both buffers as their threads use
  them, and the listener's hand-off of a filled node.

Each critical section of the source is one atomic step of the model. A
wait on a condition variable that nothing in a sequential run could end
is reported as an outcome instead of a hang. For the ring these are
`BlockedFull` and `BlockedEmpty`; for `getNode` it is `WouldBlock`.

## Model

| member | source | states |
|---|---|---|
| Common.Min | sender_c/ring_buffer.c:5 | the result is the smaller of its two arguments: at most each, and equal to one of them |
| RingBuffer.Slot | sender_c/ring_buffer.h:10-11 | the physical index of the i-th unread byte read from `tail` is `(tail + i) % cap` and lies in `0..cap-1` |
| RingBuffer.Advance | sender_c/ring_buffer.c:55 | advancing a cursor over a copy that does not pass the physical end keeps it in `0..cap-1`; it wraps to 0 exactly when the copy reaches the end |
| RingBuffer.ModBelowTwice | sender_c/ring_buffer.c:88 | a cursor sum below `2 * cap` taken modulo `cap` is one conditional subtraction |
| RingBuffer.SlotAfterAdvance | sender_c/ring_buffer.c:88-89 | after the read cursor advances by n, the i-th unread byte is the one that was (n + i)-th |
| RingBuffer.Split | sender_c/ring_buffer.c:52-63 | a piece splits into a first copy that never passes the physical end and a rest; the rest is non-empty only when the first copy reached the end, so the second copy starts at index 0, and it fits below the cursor |
| RingBuffer.ByteRing.constructor | sender_c/ring_buffer.h:7-17 | a zeroed ring: no storage, cursors and size 0, open, empty contents |
| RingBuffer.ByteRing.Init | sender_c/ring_buffer.c:7-18 | succeeds exactly when the capacity is positive; on failure nothing changes; on success the ring is empty, open, and `cap` is the requested capacity |
| RingBuffer.ByteRing.Free | sender_c/ring_buffer.c:20-29 | storage released; `cap`, `head`, `tail` and `size` are 0 and the contents empty; `closed` unchanged |
| RingBuffer.ByteRing.Close | sender_c/ring_buffer.c:31-37 | sets `closed` and leaves storage, cursors, size and contents unchanged |
| RingBuffer.ByteRing.WriteRun | sender_c/ring_buffer.c:52-57 | one contiguous copy into the array: appends exactly `src[off..off+n)` to the contents, grows `size` by n and advances `head` modulo `cap`; `tail` unchanged |
| RingBuffer.ByteRing.ReadRun | sender_c/ring_buffer.c:85-90 | one contiguous copy out of the array: delivers the oldest n bytes in order to `dst[out..out+n)`, removes them from the contents, and advances `tail` modulo `cap`; the rest of `dst` is untouched |
| RingBuffer.ByteRing.PushPiece | sender_c/ring_buffer.c:48-66 | one locked piece of a push: writes `min(len - off, cap - size)` bytes, at least one, appending exactly `src[off..off+chunk)`, so unread bytes are never overwritten |
| RingBuffer.ByteRing.PushBytes | sender_c/ring_buffer.c:39-71 | the contents become the old contents plus the first `off` input bytes. `AllWritten` if and only if all input was written. `Dropped` if and only if the ring is closed and the input non-empty, and then nothing was written. `BlockedFull` only when open and full. On an open ring `off` is `min(len, cap - size)` |
| RingBuffer.ByteRing.PopPiece | sender_c/ring_buffer.c:82-98 | one locked piece of a pop: removes the oldest `min(len - out, size)` bytes, at least one, and delivers them in order to `dst[out..out+chunk)`; the rest of `dst` is untouched |
| RingBuffer.ByteRing.PopExact | sender_c/ring_buffer.c:73-103 | copies out `min(len, size)` bytes, the oldest in FIFO order, and removes them. `Filled` if and only if exactly `len` were copied. `Drained` (an early return) if and only if short and closed. `BlockedEmpty` if and only if short and open. A short pop leaves the ring empty; the rest of `dst` is untouched |
| FramePool.ElemsIn | receiver_cpp/DoubleListPool.hpp:114-117 | an id is among a list's ids exactly when it occurs in the list |
| FramePool.ElemsSnoc | receiver_cpp/DoubleListPool.hpp:46-47 | appending an id adds exactly that id to the list's ids |
| FramePool.ElemsCons | receiver_cpp/DoubleListPool.hpp:72-73 | prepending an id adds exactly that id to the list's ids |
| FramePool.ElemsLast | receiver_cpp/DoubleListPool.hpp:43-47 | the last id of a non-empty list is among its ids |
| FramePool.ChainUpdateOutside | receiver_cpp/DoubleListPool.hpp:42 | rewriting a node that is not on a list leaves that list's links intact |
| FramePool.ChainRemoveOutside | receiver_cpp/DoubleListPool.hpp:41 | deleting a node that is not on a list leaves that list's links intact |
| FramePool.ChainCons | receiver_cpp/DoubleListPool.hpp:72-73 | `n->next = head; head = n` puts n in front of the list |
| FramePool.ChainSnoc | receiver_cpp/DoubleListPool.hpp:42-47 | linking a node with null `next` after the last node makes it the new last element of the list |
| FramePool.Range | receiver_cpp/DoubleListPool.hpp:18-19 | the ids lo, lo+1, ..., hi-1 in order |
| FramePool.RangeHas | receiver_cpp/DoubleListPool.hpp:18-19 | every id in lo..hi-1 occurs in `Range(lo, hi)` |
| FramePool.ElemsRange | receiver_cpp/DoubleListPool.hpp:18-19 | every id of `Range(lo, hi)` lies in lo..hi-1 |
| FramePool.ChainRange | receiver_cpp/DoubleListPool.hpp:18-19 | nodes lo..hi-1, each linked to its successor and the last to null, form a list from lo |
| FramePool.InitialNodes | receiver_cpp/DoubleListPool.hpp:18-19 | n preallocated zeroed nodes, each linked to its successor |
| FramePool.InitialInv | receiver_cpp/DoubleListPool.hpp:18-19 | the preallocated pool satisfies the invariant |
| FramePool.TakeFreeStep | receiver_cpp/DoubleListPool.hpp:98-102 | popping the free head into a caller's hands keeps the invariant |
| FramePool.AllocateStep | receiver_cpp/DoubleListPool.hpp:30 | a fresh node has an id not in use, and handing it to a caller keeps the invariant |
| FramePool.SubmitStep | receiver_cpp/DoubleListPool.hpp:42-49 | queuing a held node keeps the invariant and keeps its payload, with `next` null |
| FramePool.DeleteStep | receiver_cpp/DoubleListPool.hpp:41 | deleting a held node keeps the invariant |
| FramePool.TakeReadyStep | receiver_cpp/DoubleListPool.hpp:103-110 | taking the oldest ready node with `next` cleared, and nulling the tail when the list empties, keeps the invariant |
| FramePool.ReturnFreeStep | receiver_cpp/DoubleListPool.hpp:69-74 | pushing a held node onto the free list keeps the invariant |
| FramePool.FillStep | receiver_cpp/ListenerThread.cpp:110 | writing a held node's 100-byte payload keeps the invariant |
| FramePool.DoubleListPool.constructor | receiver_cpp/DoubleListPool.hpp:18-19 | `capacity_hint` fresh zeroed nodes on the free list, `free_count_` equal to its length; ready list empty; nothing held; open |
| FramePool.DoubleListPool.TryPopFree | receiver_cpp/DoubleListPool.hpp:98-102 | null on an empty free list; otherwise the head of the free list, which leaves the list and is held by the caller; counts unchanged |
| FramePool.DoubleListPool.GetFree | receiver_cpp/DoubleListPool.hpp:25-35 | null if and only if closed, and then no change. Otherwise the head of the free list, with `free_count_` one less, or, on an empty free list, a fresh zeroed node with `free_count_` unchanged. The caller then holds the node |
| FramePool.DoubleListPool.Allocate | receiver_cpp/DoubleListPool.hpp:30 | `new Node()`: a fresh id not in use, with a zeroed payload and null `next`, held by the caller; lists and counts unchanged |
| FramePool.DoubleListPool.DeleteNode | receiver_cpp/DoubleListPool.hpp:41 | `delete n`: the held node leaves the arena and is no longer held; lists and counts unchanged |
| FramePool.DoubleListPool.PushReady | receiver_cpp/DoubleListPool.hpp:42-49 | a held node is appended to the ready list as the new tail, with its payload kept and `next` null; `ready_count_` one more; the caller no longer holds it |
| FramePool.DoubleListPool.LinkOnly | receiver_cpp/DoubleListPool.hpp:42-44 | on an empty ready list, the node becomes head and tail with `next` null |
| FramePool.DoubleListPool.LinkAfterTail | receiver_cpp/DoubleListPool.hpp:42-47 | on a non-empty ready list, the old tail links to the node and the node becomes the tail with `next` null |
| FramePool.DoubleListPool.AddNode | receiver_cpp/DoubleListPool.hpp:38-52 | true if and only if the node is non-null and the pool open. Null changes nothing. When closed, the node is deleted and the caller's ownership ends. Otherwise the node is at the tail of the ready list with `next` null, and `ready_count_` is one more |
| FramePool.DoubleListPool.TryPopReady | receiver_cpp/DoubleListPool.hpp:103-110 | null on an empty ready list; otherwise the oldest ready node, with `next` cleared, now held by the caller; the tail is null once the list empties (by the invariant) |
| FramePool.DoubleListPool.GetNode | receiver_cpp/DoubleListPool.hpp:57-66 | null if and only if closed and drained; would wait if and only if open and drained. Otherwise the oldest ready node (FIFO), with `ready_count_` one less and the node held by the caller |
| FramePool.DoubleListPool.AddFree | receiver_cpp/DoubleListPool.hpp:69-76 | null is a no-op; otherwise the node is the new free head (LIFO), linked to the old head, `free_count_` one more, whether or not the pool is closed |
| FramePool.DoubleListPool.ReadySize | receiver_cpp/DoubleListPool.hpp:79-82 | returns the ready-list length; nothing changes |
| FramePool.DoubleListPool.FreeSize | receiver_cpp/DoubleListPool.hpp:83-86 | returns the free-list length; nothing changes |
| FramePool.DoubleListPool.Close | receiver_cpp/DoubleListPool.hpp:89-94 | sets `closed` and leaves both lists, the counts and the nodes unchanged |
| FramePool.DoubleListPool.Fill | receiver_cpp/ListenerThread.cpp:110 | a holder writes 100 bytes into its node's payload; lists and ownership unchanged |
| SerialPath.ClampBaud | sender_c/serial_win.c:20-29 | 0 becomes 28800; every result is at least 28800; a request of 28800 or more is returned unchanged; the result is the request or 28800 |
| SerialPath.ClampBaudIdempotent | sender_c/serial_win.c:20-29 | clamping twice is clamping once |
| SerialPath.CharAt | sender_c/serial_win.c:10 | a C string reads NUL exactly at and past its end |
| SerialPath.ToLower | sender_c/serial_win.c:10 | ASCII case folding: the result is never an upper-case letter, is a letter exactly when the input is one, and keeps every non-letter, NUL included |
| SerialPath.ToLowerFolds | sender_c/serial_win.c:10 | folding twice is folding once, and an upper-case letter folds to the same character as its lower-case partner while itself changing |
| SerialPath.StrNICmp | sender_c/serial_win.c:10 | `_strnicmp(a, b, n)` is 0 if and only if the strings agree, ignoring case, on their first n positions, the terminating NUL included |
| SerialPath.EqualIgnoringCaseTail | sender_c/serial_win.c:10 | when the first characters agree, agreement on n positions is agreement of the tails on n - 1 |
| SerialPath.HasDevicePrefixExactly | sender_c/serial_win.c:10 | the case-insensitive prefix test is the same as an exact match of the first four characters with `\\.\` |
| SerialPath.BuildComPath | sender_c/serial_win.c:6-18 | no result if and only if the name is null; the result has at most 63 characters; a name with the device prefix (the `_strnicmp` test `HasDevicePrefix` at line 10) is kept, cut to 63 characters; any other name gets the prefix put in front, cut to 63 characters |
| SerialPath.BuildComPathHasPrefix | sender_c/serial_win.c:10-16 | every built path starts with `\\.\` |
| SerialPath.BuildComPathIdempotent | sender_c/serial_win.c:10-16 | building a path from a built path returns it unchanged |
| Clients.ResumeAfterFull | sender_c/ring_buffer.c:39-103 | a writer that parks on a full ring of 10 and resumes with its remaining bytes, interleaved with two reads, delivers 0..13 in order, with none lost or repeated |
| Clients.RecycleOrder | receiver_cpp/DoubleListPool.hpp:69-76 | of two nodes given back, the one given back last is handed out next |
| Clients.ShutdownDrain | receiver_cpp/DoubleListPool.hpp:57-66 | after `close`, a late `getFree` gets null and a late `addNode` is refused, yet both queued frames are taken in order before the null |
| Clients.HandOffAsWritten | receiver_cpp/ListenerThread.cpp:116-119 | the listener passes a node to `addFree` exactly when the pool was closed, and that node is by then no longer live |
| Clients.CloseDuringHandOff | receiver_cpp/ListenerThread.cpp:116-119 | a concrete run: the pool closes while the listener holds node 0, and the node handed to `addFree` is not live |
| Clients.HandOff | receiver_cpp/ListenerThread.cpp:116-119 | the corrected hand-off: queued if and only if the pool was open; the listener no longer holds the node either way; it is at the tail of the ready list or gone, never dangling |

## Left out

- Mutexes, critical sections, condition variables and the wake/notify calls are left out. They are concurrency: each locked region is one atomic step, and a wait that could not end is an outcome (`BlockedFull`, `BlockedEmpty`, `WouldBlock`). The model does not interleave threads inside a call.
- RingBuffer.ByteRing.PushBytes and RingBuffer.ByteRing.PopExact: each call runs until it would wait. A caller that resumes passes on the rest itself, as `Clients.ResumeAfterFull` does, instead of the same call continuing after the wait.
- RingBuffer.ByteRing.PopExact returns the number of bytes copied and an outcome. The source's `rb_pop_exact` returns nothing, so its caller cannot tell a short pop from a full one.
- RingBuffer.ByteRing.PushBytes returns the number of bytes written and an outcome. The source's `rb_push_bytes` returns nothing (sender_c/ring_buffer.c:39), so its caller cannot tell a dropped or unfinished push from a complete one.
- RingBuffer.ByteRing.PopExact always fills `dst` from index 0. A caller that resumes after `BlockedEmpty` passes a new array for the remaining `len - out` bytes and joins the two, where the source's call carries on at `dst + out` in the same buffer.
- The comment at sender_c/ring_buffer.h:23-27 says pop waits for all `len` bytes at once. The code copies whatever is there, piece by piece (sender_c/ring_buffer.c:82-98), and the model follows the code.
- A null `ByteRing*` (sender_c/ring_buffer.c:8, 21) is not modelled, because the receiver of the method is never null.
- A failing `malloc` (sender_c/ring_buffer.c:9-10) is not modelled, because allocation always succeeds in Dafny. The `capacity == 0` failure is modelled. A NULL `buf` is an empty array.
- `free(p)` and `DeleteCriticalSection` in `rb_free` are left out, because memory release and the lock are not modelled.
- `size_t` wrap-around is not modelled. Counts and cursors are unbounded naturals, and no reachable state of the source comes near the limit.
- The constructor and destructor of `DoubleListPool` are only declared (receiver_cpp/DoubleListPool.hpp:19-21). The constructor is modelled abstractly as preallocating ids 0..n-1 onto the free list. The destructor is left out.
- A `new Node()` that throws is not modelled.
- The `next` pointer a node keeps after `try_pop_free_unsafe` is stale. The source never reads it, and the model keeps it as it was.
- `tolower` is the "C" locale's ASCII folding. Other locales are not modelled.
- `_snprintf_s` and `strncpy` are modelled by their result: the characters before the terminating NUL of the 64-character buffer. The buffer contents after the NUL are not modelled.
- `serial_open`, `serial_read_some` and `serial_close` in sender_c/serial_win.c are Win32 device I/O and are not part of this model.
- The other files of the repository are not part of this model: the reader, packer, TCP, listener, writer and main programs. Only the listener's hand-off (receiver_cpp/ListenerThread.cpp:105-124) is modelled, in `Clients`. `recvAll` becomes `FramePool.DoubleListPool.Fill`.

## Findings

| source | as written | input that shows it | evidently intended | confidence | as-written member | corrected member |
|---|---|---|---|---|---|---|
| receiver_cpp/ListenerThread.cpp:116-119 with receiver_cpp/DoubleListPool.hpp:41 | when `addNode` returns false, the listener passes the same node to `addFree`; but `addNode` returns false on a closed pool only after it has deleted the node, so `addFree` links freed memory onto the free list | another thread closes the pool while the listener holds a node, after its `getFree` and before its `addNode`; the pool's interface allows this (receiver_cpp/DoubleListPool.hpp:88), but no code in receiver_cpp/ (receiver.cpp, ListenerThread.cpp, WriterThread.cpp) does it: the writer never closes the pool, `ListenerThread::stop` closes it only after joining the listener (receiver_cpp/ListenerThread.cpp:61, 64), and the listener's own closes come after its loop (receiver_cpp/ListenerThread.cpp:99, 124), so the fault is latent | a node refused by `addNode` has been consumed by the pool and is not recycled; the listener only stops | not executed | Clients.HandOffAsWritten, Clients.CloseDuringHandOff | Clients.HandOff |
