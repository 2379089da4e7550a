# An io_uring chat server, modelled and proved in Dafny

The program is a chat server driven by io_uring completions. One step of it is one completion: any
submission in flight, with any result its kind allows. Each step takes operations from a pool, buffers from
two slabs and entries from a client table, arms them again or gives them back, and may drop a client in the
middle of it. Every property below is proved for all inputs, and for the server over all runs: every order and
every result of completions.

Two layers:

* **The server.** `ServerState` is the event loop of server.c as a state machine over values. Beside a live state a
  step has three outcomes: `Exited`; `OverRead`, the memmove of server.c:422 reading past the end of the receive
  buffer; and `Broken` for everything else that C leaves undefined or checks with an assert. `ServerInvariant` says who
  owns what. `ServerSteps`, `Boundaries` and `ServerRuns` prove that every step of every run keeps the invariant, is
  never `Broken`, and exits or over-reads exactly for causes that can be read off the bytes received, while the
  submission queue has room. `Queue` gives the queue its size and says exactly when it fills up. `ServerTheorems`,
  `Answers`, `Framing`, `FramingRuns`, `SplitFrames`, `Splices`, `SplitRuns` and `Peaks` draw the consequences:
  ownership, sockets, sending, answers, framing, memory. `Server`, on `Memory`, `ParseLoop` and `ServerCalls`, is the same event loop over
  the heap structures of the program, handler by handler, proved to do exactly what the state machine does.
* **The structures.** `Slab`, `OpPool`, `ClientMap`, `Groups` and `CidSet` are classes that update arrays and
  linked nodes in place, each proved to behave as a simple value. `Recycling` proves that none of them allocates
  more than it needs. `Wire` and `Protocol` are the byte order and the codec, `Primes` the prime search, `Bits`
  and `Buckets` what the hash tables share.

`dafny verify dfyconfig.toml` checks everything.

Lemmas on which Dafny would try induction by itself carry `{:induction false}`: each proof is the one written.

## What the proofs say about points where the code is delicate

* The memmove of an incomplete frame copies `buf_cap - bytes_read` bytes (server.c:422). It reads past the receive
  buffer exactly when the whole frames before the cut one have more bytes than are there of it; a request and the
  first 11 bytes of another are enough, two completions after start-up (`ServerRuns.StepSafe`, `SplitFrames.LongTail`,
  `SplitFrames.OverReadHappens`, `SplitRuns.OverReadRun`). Where it stays inside, it brings the whole remainder to the
  front exactly when that is at most half of the buffer, or the bytes left behind happen to be the right ones
  (`SplitFrames.LongTailMoved`).
* The completion after a cut frame counts only its own bytes (server.c:507). The frame is dispatched exactly when at
  least as many bytes follow it in the same receive as had arrived before the cut; a second part that arrives alone
  is never enough (`SplitFrames.SplitFrameDispatch`, `SplitRuns.SplitRun`).
* A tail of less than a header is not moved (server.c:407), so the next receive is parsed behind the start of an older
  frame: what is dispatched is a splice of the two, with the older one's length, and it is the frame that was sent
  exactly when both frames start with the same bytes. Two well-formed requests can splice into a declared length of
  zero (`Splices.SpliceDispatch`, `Splices.SpliceMeaning`).
* A SET_USERNAME header that declares length 0 makes the loop queue replies until the submission queue is full, whatever
  its size, where the program exits (`FramingRuns.ZeroFrameExits`, `Queue.TurnsFillQueue`, `Queue.SpinFills`). While the
  queue has room, that and a failed accept, whose `must_close(-1)` is fatal (utils.c:32-34), are the only ways out
  (`ServerRuns.StepSafe`).
* The submission queue has 4096 entries (main.c:19), and `server_start` submits after one completion and a batch of up
  to 32 (server.c:536-564). A receive takes one entry for each frame and one to arm the READ again. The program exits
  exactly when the completions between two submits ask for more entries than there are; otherwise the size of the
  queue changes nothing (`Queue.StepExact`, `Queue.EveryBoundedRun`). A dispatched frame may have three bytes, so a
  receive may ask for 681 entries: seven such receives between two submits make the program exit, and six full ones,
  with three other completions, never do (`Queue.FramesBound`, `Queue.SevenBurstsFill`, `Queue.SixBurstsFit`,
  `Queue.LightNeverFills`).
* A WRITE of a dropped client keeps the descriptor that was closed, and a later accept may return the same number: then
  the WRITE in flight names another client's socket (`ServerTheorems.NewlyAliased`, `ServerTheorems.AliasArises`).
* `is_prime` multiplies in 64 bits, and for candidates from (2^32 - 1)^2 on `i * i` wraps around; the answer is right
  for every 64-bit value all the same (`Primes.IsPrime`). `closest_prime` wraps to 2 when no prime is left
  (`Primes.ClosestPrime`).
* The lengths given in the comment at protocol.c:46 and protocol.c:78-79 do not count the 8-byte seqid; the model
  follows the packed structs (protocol.c:145-173).

## Model

| member | source | states |
|---|---|---|
| `ServerRuns.StepSafe` | server.c:459-522 | From any state that meets the invariant, a step on any completion the kernel may report never fails an assert or uses a bad id, pointer or entry. While the submission queue has room, it exits if and only if an accept failed, or a zero-length SET_USERNAME header stands at a frame boundary of the bytes received. It reads past the receive buffer if and only if those bytes end in a cut frame, header complete, that is shorter than the whole frames before it. Otherwise it restores the invariant and does one of five fully described things. |
| `ServerRuns.RunSafe` | server.c:524-565 | While the submission queue has room: the invariant holds over every run from start-up, whatever the order and results of completions, up to the first completion that is a cause to exit or to over-read; there is one if and only if the run ends so. |
| `ServerRuns.RunEndings` | server.c:459-522 | The same from any state that meets the invariant: with room in the submission queue, a run exits, or over-reads, if and only if one of its completions is a cause to, in the state where it arrives. |
| `Boundaries.SpinIff` | server.c:407-437 | The parse loop meets a zero-length frame if and only if, going from frame length to frame length through the bytes, there is one. |
| `Boundaries.OverReadIff` | server.c:417-425 | The loop ends in an over-reading memmove if and only if, going from frame length to frame length, it comes to a cut frame with fewer bytes than lie before it. |
| `Boundaries.TurnBytes` | server.c:407-437 | One turn of the parse loop, by the bytes at its position: with a length over 2048, or all bytes there and a type other than 1, the client is refused; with too few bytes it stops; with length 0 and type 1 it never ends; else it hands over the bytes of that length with the eight bytes at 3 as seqid, and goes on behind them. |
| `ServerRuns.StartInv` | server.c:524-534 | The state before the first completion meets the invariant. |
| `ServerTheorems.EveryRun` | server.c:459-522 | While the submission queue has room, a run ends only by exiting or over-reading, exactly when one of its completions is a cause. In every live state of every run: operations out of the pool are exactly those with one pending submission; each slab is the disjoint union of its free list and the buffers in flight, each with one reference and one holder of its capacity; one ACCEPT is in flight and the next id is unused; each client has one READ on its own socket, with a window of at least one byte inside the buffer; open sockets are exactly the connected clients'; each WRITE covers exactly the unsent suffix of its message; the buffer of a WRITE has 64 bytes, that of a READ or ACCEPT 2048. |
| `Queue.StepExact` | server.c:105-327 | With any number of free entries in the submission queue, a step exits if it asks for more than that, and otherwise does what it does with room, leaving that many fewer; what it asks for - two for an accept, one for a short write, one for each frame of a receive and one to arm the READ - is what it adds to the ring. |
| `Queue.EveryBoundedRun` | server.c:524-565 | Over every run with a queue of any size, emptied at each submit: the program exits if and only if the completions since some submit ask for more than the size, or one of them is a cause to exit; it over-reads if and only if one is a cause to and the queue has not filled; else all the guarantees below hold and the free entries are those not asked for. |
| `Queue.RunExact` | server.c:536-564 | From any state that meets the invariant, the run with the queue is the run without, unless the queue fills; then it has exited. |
| `Queue.FramesBound` | server.c:407-437 | A receive of n bytes hands over at most (n - 6) / 3 frames, whatever lengths they declare. |
| `Queue.LightNeverFills` | server.c:536-564 | Whatever the run, the queue never fills if the completions between two submits come to at most three times its size, each counted as the bytes it brings less three, or as six if that is more. |
| `Queue.SevenBurstsFill` | main.c:19 | From any state, seven receives that fill their buffers with three-byte frames, between two submits, fill the queue of 4096 entries and make the program exit where a larger queue would not. |
| `Queue.SixBurstsFit` | main.c:19 | Six of them never do, from any state. |
| `Queue.SpinFills` | server.c:407-437 | On a zero-length frame the loop takes every free entry and exits at the next, however many there are. |
| `Queue.TurnsFillQueue` | server.c:407-437 | For every m, m turns on such a header queue m replies and leave m more submissions in the ring, so a queue of any size fills up. |
| `ServerTheorems.SocketClosedWithClient` | server.c:84-105 | A socket is closed exactly in the step that removes its client from the table; other clients' entries and sockets do not change; the only new socket is the accepted one. |
| `ServerTheorems.DroppedForever` | server.c:93-97 | A client id that has left the table never comes back in any continuation. |
| `ServerTheorems.LateCompletionHarmless` | server.c:471-497 | A completion for a dropped client, successful or not, only returns its operation and buffer. |
| `ServerTheorems.OthersUndisturbed` | server.c:459-522 | A completion leaves every other operation in flight as it was: fields, submission, buffer, bytes acknowledged. |
| `ServerTheorems.SendProgress` | op.c:16-19 | A send completion acknowledges exactly the next bytes of the message, and the short-write test frees the operation exactly when all of it is acknowledged. |
| `ServerTheorems.AliasedIff` | server.c:489-497 | An operation in flight names a descriptor that is open for another client if and only if its own client has been dropped and the descriptor is open. |
| `ServerTheorems.NewlyAliased` | server.c:386-398 | It comes to do so if and only if an accept returns the descriptor of a dropped client's operation. |
| `ServerTheorems.AliasArises` | server.c:484-487 | From any state with a WRITE in flight for a client, a failing READ and an accept that returns the same number lead to it. |
| `ServerSteps.DisconnectMid` | server.c:84-105 | The first failure of a connected client closes an open socket that is its own and deletes it; every later one only frees; the invariant is restored. |
| `ServerSteps.FreeOpMid` | server.c:70-82 | `free_op` on the operation in hand releases one buffer to the slab it came from and returns one id; the invariant is restored. |
| `ServerRuns.StepConnects` | server.c:386-398 | After an accept the entry has its socket, its operation is a READ armed for the whole buffer, a new ACCEPT is in flight for the next id, nothing else has changed, and the invariant holds. |
| `FramingRuns.ServedInOrder` | server.c:400-439 | Over every run in which a client stays connected, whatever others do, it is sent one reply per frame handed to `handle`, in order, and its stored name is the last good one. |
| `FramingRuns.WholeRun` | server.c:400-439 | If all its receives are made of whole SET_USERNAME frames of 11 to 2048 bytes, all the bytes a client sent are answered request by request, once each and in order, with the bytes that request calls for; its stored name is that of its last request with a good name, or the one before if there is none; and its READ is back at offset 0. |
| `FramingRuns.WholeStep` | server.c:407-438 | A receive of whole frames dispatches exactly those, keeps the connection and arms the READ at offset 0. |
| `FramingRuns.BadFrameDrops` | server.c:413-433 | The first frame of an unsupported type or excessive length stops dispatch: requests before it are answered, the client is removed and its socket closed. |
| `FramingRuns.ZeroFrameExits` | server.c:407-437 | A zero-length SET_USERNAME header behind whole frames makes the process exit. |
| `SplitFrames.FirstPart` | server.c:417-425 | A cut frame with nothing before it: nothing is dispatched, and its first part is at the front with the READ armed behind it. |
| `SplitFrames.ShortTail` | server.c:407-438 | Whole frames and less than a header of one more: the frames are dispatched, and the READ is armed as if the first bytes of the first frame were the tail. |
| `SplitFrames.LongTail` | server.c:417-425 | Whole frames and a longer tail: the memmove over-reads if and only if the whole frames have more bytes than the tail. |
| `SplitFrames.OverReadHappens` | server.c:417-425 | One request and the first 11 bytes of a second make the memmove over-read. |
| `SplitFrames.LongTailMoved` | server.c:417-425 | Where it does not, the cut frame is at the front if and only if its part is at most half of the buffer or the bytes not copied are the right ones already. |
| `SplitFrames.SplitFrameDispatch` | server.c:406-438 | The second part of a frame, with any bytes behind it: the frame is dispatched if and only if these are at least as many as the first part; otherwise nothing happens but storing. |
| `SplitFrames.SplitFrameLost` | server.c:415-438 | In particular a second part that arrives alone leaves the whole frame in the buffer, queues no reply and stores no name. |
| `SplitRuns.SplitRun` | server.c:400-439 | Over every run: first part, any other completions, second part with bytes behind it; dispatched if and only if those are enough, and if not the client has been told nothing and keeps its name. |
| `SplitRuns.MovedRun` | server.c:400-439 | The same where whole frames came before the cut one and the memmove brought its part to the front. |
| `SplitRuns.SpliceRun` | server.c:400-439 | Over every run: whole frames and less than a header of one more, any other completions, the rest; what is dispatched next is the splice with the first of those frames, or nothing, or the process exits. |
| `SplitRuns.OverReadRun` | server.c:417-425 | Two completions after start-up, for any socket and any two requests with a name that fit: an accept, and a receive of one request and 11 bytes of the other, whose memmove over-reads. |
| `Splices.SpliceDispatch` | server.c:406-438 | After a tail of less than a header the next receive dispatches the splice of the first frame before it with the cut frame, at the length the spliced header declares, if and only if that many bytes were counted; with declared length zero it exits. |
| `Splices.SpliceMeaning` | server.c:406-438 | The splice is the cut frame if and only if lengths, and as far as the tail reaches the leading bytes of the sequence ids, agree; it is the older frame if and only if the bytes that follow are its rest. |
| `Framing.WholeFrameOrNothing` | server.c:417-425 | A buffer that starts with one frame: the frame is dispatched if and only if the receive counts it whole, whatever is behind it. |
| `Framing.ReplyMeaning` | server.c:350-376 | Every reply to a dispatched frame, whatever length it declares, carries its seqid and says success if and only if the name has 3 to 15 alphanumeric characters; otherwise the code says whether length or characters are wrong. |
| `Framing.ReplyOnWire` | server.c:350-376 | The bytes of every reply: length 12, type 0, the seqid and code 2 if the frame does not have 14 to 26 bytes; the same with code 3 if a character of the name is not an ASCII letter or digit; else length 11, type 2 and the seqid. |
| `Framing.EncodeBytes` | protocol.c:227-244 | A request is its length, type 1, its seqid, and its name. |
| `Answers.ReceiveAnswered` | server.c:297-376 | After a receive that does not end the run there is, for each frame it handed over, a new WRITE of its own in flight on the socket of the client, its buffer filled with the reply to that frame and nothing of it sent; also where a later frame made the server drop the client. |
| `Framing.MoveKeepsTail` | server.c:420-423 | A memmove that stays inside keeps every remainder of a given length if and only if that is at most half the buffer. |
| `Framing.MovedAt` | server.c:420-423 | Byte by byte: the first `buf_cap - bytes_read` come from the position on, the others stay. |
| `Server.Server.HandleCqe` | server.c:459-522 | On the heap structures, one completion does exactly what the state machine does, stops or over-reads exactly for its causes, keeps all structures and the invariant valid, and leaves every table entry that remains in the node it was in, where the kernel may hold a pointer. |
| `Server.Server.HandleCqeBatch` | server.c:459-522 | Any list of completions takes the heap server along the run of the state machine, or both exit, or both over-read; a table entry that is there before and after has been in the same node all along, where the kernel holds a pointer while its ACCEPT is in flight. |
| `Server.Server.Start` | server.c:524-529 | The first ACCEPT leads to the start state of the state machine, which meets the invariant. |
| `Server.SetUp` | main.c:63-78 | The structures `main` creates, with their initial capacities, make a server in that start state; the table has 1024 buckets. |
| `Server.Server.FreeOp` | server.c:70-82 | Refines `FreeOp` of the state machine: same new values of pool and slabs, structures valid. |
| `Server.Server.DisconnectAndFreeOp` | server.c:84-105 | Refines the state machine, including the exit where the socket is not open. |
| `Server.Server.AddAccept` | server.c:120-156 | Refines the state machine for an id not in the table; one new operation, large buffer, entry and submission. |
| `Server.Server.AddRecv` | server.c:208-229 | The operation becomes a READ on the socket, armed for the whole buffer. |
| `Server.Server.ResumeRecv` | server.c:231-253 | The READ is armed for the buffer behind the bytes already there. |
| `Server.Server.ResumeSend` | server.c:273-295 | The WRITE is armed for the bytes behind those acknowledged. |
| `Server.Server.Reply` | server.c:297-327 | A new operation with its own small buffer, filled in place by the serializer for an error code or for success, its submission, and the message in the outbox. |
| `Server.Server.HandleSetUsername` | server.c:350-376 | Refines the state machine: the name stored if acceptable, and one reply. |
| `Server.Server.Handle` | server.c:337-384 | 0 and the request served if the type is 1; -1 and no change for every other type. |
| `ParseLoop.UsernameValid` | server.c:14-20 | True if and only if every character is between '0' and '9', 'A' and 'Z' or 'a' and 'z'. |
| `ParseLoop.CheckUsername` | server.c:352-374 | Code 2 for a frame of fewer than 14 or more than 26 bytes, also one shorter than a header, whose name length wraps around; else code 3 if a character is not a letter or digit; else none; and that is the reply of the state machine. |
| `Server.Server.HandleAccept` | server.c:386-398 | Refines the state machine: socket recorded, READ armed, next ACCEPT armed, id counted. |
| `Server.Server.ParseRequests` | server.c:406-437 | The loop hands over exactly the frames of the specification, in order, and ends as it says, at the position it says; on a zero-length frame it queues replies for as long as there is room. |
| `Server.Server.MoveDown` | server.c:420-423 | The buffer after the memmove, where that stays inside. |
| `Server.Server.Rearm` | server.c:420-438 | Over-reads exactly when the state machine does; otherwise moves what is left if something was consumed, and arms the READ behind it. |
| `Server.Server.HandleRecv` | server.c:400-439 | Refines the state machine: parse, serve, then drop or arm again. |
| `Server.Server.HandleSend` | server.c:446-457 | Refines the state machine: resumed or freed. |
| `Server.Server.Dispatch` | server.c:471-520 | Refines the body of the completion loop. |
| `Memory.FreeOp` | server.c:70-82 | Buffer and operation go back to slab and pool; all pointers of other operations stay good. |
| `Memory.CheckOutLarge` | server.c:127-142 | A new operation that owns a large buffer nobody else holds. |
| `Memory.CheckOutSmall` | server.c:304-310 | A new operation that owns a small buffer nobody else holds, starting with the serialized answer. |
| `Memory.Serialize` | server.c:308-309 | The serializer's bytes in the buffer are those of the message, and the rest of the buffer is unchanged. |
| `OpPool.OpPool.NewEntry` | op_pool.c:50-95 | The last id of the free list, which loses it, or a new entry with the next id; other entries keep their identity; the pool contract holds. |
| `OpPool.OpPool.Return` | op_pool.c:97-125 | The id goes to the end of the free list, whose order growth preserves; no entry changes. |
| `OpPool.OpPool.Get` | op_pool.c:45-48 | The entry with this id. |
| `PoolModel.CheckOutFrame` | op_pool.c:50-95 | A checkout hands out an id nobody holds and disturbs no holder. |
| `PoolModel.ReturnFrame` | op_pool.c:97-125 | A return frees exactly that id. |
| `PoolModel.LastReturnedFirst` | op_pool.c:53-54 | A checkout right after a return hands out the entry just returned, and leaves the pool as it was before both. |
| `PoolModel.ReturnedInReverse` | op_pool.c:50-125 | Any list of entries returned one after the other comes back from as many checkouts in reverse order, and the pool is then as it was. |
| `Slab.Slab.constructor` | slab.c:13-22 | All buffers free, distinct, of the slab's capacity. |
| `Slab.Slab.Acquire` | slab.c:39-52 | The most recently released buffer, or a new one, with the given count, zero included; every other buffer unchanged. |
| `Slab.Slab.Release` | slab.c:58-73 | One reference less, wrapping around at zero; when none is left, the buffer goes to the end of the free list, whose order growth preserves. |
| `SlabModel.LastReleasedFirst` | slab.c:39-73 | An acquire right after the last release of a buffer hands that buffer out, and free list and buffers are as they were but for the count. |
| `Recycling.ReferencesCount` | slab.c:58-60 | Over any uses, a buffer has lost one reference per release, zero counting as 2^64, and until none is left is neither free nor next to be handed out. |
| `Recycling.ReturnsOnLastRelease` | slab.c:58-73 | A buffer acquired with k references returns exactly on its k-th release, or its 2^64-th for k zero, and is the next handed out. |
| `Recycling.PoolAllocatesPeak` | op_pool.c:50-95 | Over every legal list of uses, operations allocated equal the peak number in use. |
| `Recycling.SlabAllocatesPeak` | slab.c:39-52 | Over every legal list of uses, buffers allocated equal the larger of the initial capacity and the peak in use. |
| `Recycling.TotalIsPeak` | client_map.c:41-54 | For any structure that follows the recycling discipline, the total equals the larger of the initial total and the peak. |
| `Peaks.ServerAllocatesPeak` | server.c:70-156 | Over every run of the server: operations allocated are as many as were ever in flight at once, and buffers of each slab as many as were ever in use at once or the initial 64, counting every moment inside a step. |
| `ClientMap.ClientMap.NodesArePeak` | client_map.c:41-54 | Over the whole history of a client table, whatever was inserted and deleted, nodes allocated equal the peak number of keys. |
| `ClientMap.ClientMap.NewEntry` | client_map.c:31-66 | Fails exactly if the key is there; else adds a node for it at the head of its bucket, recycled if one is, and changes no other key's node; every node allocated is in one chain or once among the recycled; follows the recycling discipline. |
| `ClientMap.ClientMap.Get` | client_map.c:68-76 | The node of the key, or NULL. |
| `ClientMap.ClientMap.Delete` | client_map.c:97-121 | Removes exactly this key, at the head of a chain or further down, and recycles its node; all other keys keep their nodes. |
| `ClientMap.ClientMap.AddFree` | client_map.c:82-95 | The node, zeroed, joins the recycled ones, once. |
| `ClientMap.ClientMap.NodeCount` | client_map.c:41-54 | Nodes allocated are one per key plus the recycled ones. |
| `ClientMap.ClientMap.BucketNotEmpty` | client_map.c:97-102 | The unchecked head that deletion reads is there whenever the key is. |
| `Buckets.KeysAdd` | client_map.c:8-10 | Adding at the head of the bucket of a key keeps every key in its own bucket, once. |
| `Buckets.KeysRemove` | client_map.c:101-118 | Removing from the middle of a bucket keeps every other key in its own bucket, once. |
| `Buckets.Hash` | client_map.c:8-10 | The bucket of a key is the key modulo the number of buckets. |
| `Groups.Groups.Insert` | groups.c:17-48 | Adds one member to the named group, created if need be, and changes no other group, whichever bucket it is in; refuses 2^64 - 1 where the program exits. |
| `Groups.Groups.Get` | groups.c:50-67 | Succeeds if and only if the group exists; what the iterator lists is exactly its members, once each. |
| `Groups.AfterMeaning` | groups.c:17-67 | After any insertions a group exists if and only if something was inserted into it, and holds exactly that. |
| `CidSet.Set.Exists` | cid_set.c:29-40 | True if and only if the id is a member; the probe ends. |
| `CidSet.Set.InsertSlot` | cid_set.c:42-53 | Adds exactly the id, never twice; the probe ends at a free slot. |
| `CidSet.Set.Grow` | cid_set.c:55-79 | Twice the slots, the same members and length, and room for one more below the load factor. |
| `CidSet.Set.Insert` | cid_set.c:81-92 | Adds the id, or refuses 2^64 - 1 where the program exits; doubles the slots first exactly if three quarters of them are filled; at most three quarters full. |
| `CidSet.Hash` | cid_set.c:10-12 | The product with 11400714819323198485 in 64 bits, modulo the number of slots. |
| `CidSet.FreeSlot` | cid_set.c:32-37 | A table with fewer members than slots has a free slot, so every probe loop ends. |
| `CidSet.ProbeMiss` | cid_set.c:31-39 | Reaching a free slot on the probe path proves absence. |
| `CidSet.ProbeInsert` | cid_set.c:43-52 | Filling that slot adds exactly the id and breaks no other probe path. |
| `CidSet.Iter.NextBatch` | cid_set.c:100-111 | The next members in slot order, as many as asked for or all that are left. |
| `CidSet.ListedAt` | cid_set.c:100-111 | In slot order: before a stored id the iteration lists as many ids as there are filled slots before its own. |
| `CidSet.DrainYieldsMembers` | cid_set.c:94-111 | Draining with any batch sizes yields every member exactly once. |
| `CidSet.ShortBatchEnds` | cid_set.c:100-111 | After a batch shorter than asked for, all batches are empty. |
| `CidSet.CeilingCallsSuffice` | cid_set.c:100-111 | With batches of b, the ceiling of len / b calls yield every member exactly once. |
| `Wire.HtonllInverse` | utils.c:51-61 | `htonll` and `ntohll` undo each other on all 64-bit values. |
| `Wire.HtonllLayout` | utils.c:51-57 | Stored on a little-endian host, the result has the value's bytes most significant first. |
| `Protocol.HeaderRoundTrip` | protocol.c:176-188 | The header fields of an encoded header, whatever follows, are the ones written. |
| `Protocol.HeaderReencode` | protocol.c:145-151 | Encoding the decoded fields reproduces the header's bytes. |
| `Protocol.CreateGroupRoundTrip` | protocol.c:258-322 | Every encoded list of up to 200 ids is accepted and decodes to itself, with its raw payload. |
| `Protocol.CreateGroupReencode` | protocol.c:258-322 | For an accepted message, re-encoding reproduces its bytes if and only if its type and length fields match. |
| `Protocol.DeserHeader` | protocol.c:176-188 | Length, type and seqid are the two bytes, the byte and the eight bytes at the front, most significant first. |
| `Protocol.SerServerError` | protocol.c:196-207 | The message is length 12, type 0, the seqid and the code, each byte where the packed struct has it; the rest of the buffer is unchanged. |
| `Protocol.DeserServerError` | protocol.c:190-194 | Accepts exactly 12 bytes and returns the last of them, which is the code of every encoded error. |
| `Protocol.SerSetUsername` | protocol.c:227-244 | Length, type 1, the seqid, and from byte 11 on the bytes of the name in order; the 16-bit length wraps around for long names; the rest of the buffer is unchanged. |
| `Ops.Sub64Wraps` | protocol.c:223 | `size_t` subtraction, as in the name length of a frame shorter than a header, wraps around at 2^64. |
| `Protocol.SerSetUsernameResponse` | protocol.c:246-256 | Length 11, type 2 and the seqid; the rest of the buffer is unchanged. |
| `Protocol.SerCreateGroup` | protocol.c:296-322 | Length, type 3, the seqid, the count at byte 11 and from byte 12 on the ids in order, most significant byte first; the rest of the buffer is unchanged. |
| `Protocol.DeserCreateGroup` | protocol.c:258-294 | Accepts if and only if the length is 12 + 8 * count with count at most 200; fills exactly the ids whose bytes stand behind the count, in order, and returns the raw payload. |
| `Primes.IsPrime` | utils.c:63-73 | True if and only if the number is prime, for every 64-bit value, with wrapping arithmetic; the loop ends. |
| `Primes.TrialDivision` | utils.c:67-72 | No odd factor up to the square root means prime. |
| `Primes.PrimeAbove` | utils.c:75-80 | There is a prime above every number, so the search over unbounded integers would end. |
| `Primes.ClosestPrime` | utils.c:75-80 | The least prime from n on if it fits 64 bits, and otherwise 2; the search ends. |

## Left out

- io_uring, sockets, `setup_server` and `set_nonblocking`: the kernel is a map of pending submissions and a table of open sockets; a completion is chosen freely among what the kernel may report, one per submission, with its user_data unchanged.
- ServerRuns.StepSafe: stated for a submission queue with room, as are `ServerRuns.RunSafe`, `ServerRuns.RunEndings` and `ServerTheorems.EveryRun`; `Queue.StepExact` and `Queue.EveryBoundedRun` are the statements with its size.
- Server.Server.HandleCqe: the offset at which the kernel stores received bytes is a parameter, equal to that of the submission; the ring itself is a ghost field, because the server never reads it. The submission queue has room: `Queue` adds its size to the state machine, not to the heap structures.
- Server.Server.HandleCqeBatch: the kernel's effect of a completion takes place when its turn comes, not when the batch was fetched.
- The waiting calls and error exits of `server_start` around its batches (server.c:531-564), and a submit that takes only part of the queue.
- Logging, the peer address kept for it (`log_with_client_info`, `client_addr`), `op_type_str`.
- Allocation failure and the `must_` wrappers: memory does not run out, and capacities do not overflow `size_t`.
- Memory fresh from malloc counts as zeroed, and a fresh operation as a blank ACCEPT.
- The `_deinit` functions, `groups_size`, `acquire_send_buf` (unused), the timeout read in a comment (server.c:158-201), `ROUND_UP_POW_2` (utils.h:7-17).
- client.c and test_protocol.c.
- Group messages described in the comment of protocol.c: no code handles them; CREATE_GROUP falls through to the default case (server.c:377-382), and so does the model.
- Client ids and `next_client_id` do not wrap around at 2^64.
- `isalnum` is that of ASCII, whatever the locale.
- CidSet.Set.constructor: exactly `cap` slots are filled, where cid_set.c:24 runs one past them; the load factor is compared exactly, not in floating point.
- Groups.Groups.constructor: the buckets, which groups.c:9-12 does not clear, count as NULL, and their number as a power of two; `groups_insert` returns false even on success, so its result is not modelled.
- ClientMap.ClientMap.Delete: requires a bucket that is not empty, which client_map.c:102 reads unchecked; the server looks the key up first.
- OpPool.OpPool.constructor: capacities are positive, since doubling zero makes no room; the same holds for `Slab.Slab.constructor`.
- A variant of `handle_recv` that reassembles split frames: the code has none, and none is modelled. After an over-read the model stops: what C does then is undefined.
