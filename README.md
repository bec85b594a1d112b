# lab0-c string queue

A model of `queue.c` from lab0-c, the queue of strings used in a C-skills
course. The queue is a circular doubly-linked ring of `list_ele_t` nodes.
Each node owns a copy of one string. A `queue_t` record points at the `head`
and `tail` of the ring and keeps an element counter `q_size`.

The model has three modules:

- `Sequences` (sequences.dfy) holds facts about distinct sequences and reversal.
- `StringQueue` (queue.dfy) holds the data structure and the operations.
  - `Node` and `Queue` are classes whose fields the operations update in place.
  - Ghost state records the ring as a sequence of nodes (`Nodes`) and the
    strings it holds (`Contents`). `Queue.Valid()` states the ring invariant:
    - `size` is the number of distinct nodes;
    - an empty queue has null `head` and `tail`;
    - otherwise `next` runs from `head` to `tail` and back to `head`, and
      `prev` runs the other way.
  - `q_new` is the method `New`, and `q_size` is the function `Size`. The other
    C functions are module-level methods. `Size` and those methods take a
    possibly-null `Queue?`, so the NULL checks of the C code are modelled as
    branches.
  - What `malloc` returns is a parameter: a `bool` for `q_new`, and an
    `Allocation` for the two insertions, which allocate twice.
  - `q_free` is modelled as a walk over the ring that returns the sequence
    of `free` calls it makes.
- `QueueClients` (scenarios.dfy) holds short client programs. Their results
  follow from the operations' contracts alone.

## Model

| member | source | states |
|---|---|---|
| StringQueue.Queue.constructor | queue.c:39-41 | the new record is a valid empty queue: null `head` and `tail`, counter 0, no contents |
| StringQueue.New | queue.c:32-43 | returns null exactly when the allocation fails; otherwise a fresh, valid, empty queue with null ends and counter 0 |
| StringQueue.LinksInverse | queue.c:101-111 | on a valid ring, every node's `next` and `prev` are non-null nodes of the ring, and they are mutual inverses |
| StringQueue.RingLength | queue.c:201-209 | following `next` from `head` returns to `head` after exactly `q_size` steps and not before, so the counter is the length of the ring |
| StringQueue.Size | queue.c:201-209 | 0 for a null queue; otherwise the number of stored strings, and 0 exactly when `head` is null |
| StringQueue.InsertHead | queue.c:78-112 | succeeds exactly when the queue is non-null and both allocations succeed; then the contents are `[s] + old`, the counter grows by 1, and the new `head` is a fresh node holding `s` (and is also `tail` when the queue was empty); on failure nothing owned by the queue changes; the ring invariant holds after every call |
| StringQueue.LinkHead | queue.c:100-111 | splicing a node outside the ring in front of `head` keeps the invariant, prepends the node and its string, and makes it `head` (and `tail` in an empty ring) |
| StringQueue.ConsKeepsValid | queue.c:101-110 | re-linking only the old ends and the new node, as the splice does, turns a valid ring into a valid ring with the node in front |
| StringQueue.InsertTail | queue.c:123-157 | succeeds exactly when the queue is non-null and both allocations succeed; then the contents are `old + [s]`, the counter grows by 1, and the new `tail` is a fresh node holding `s` (and is also `head` when the queue was empty); on failure nothing owned by the queue changes; the ring invariant holds after every call |
| StringQueue.LinkTail | queue.c:145-156 | splicing a node outside the ring in after `tail` keeps the invariant, appends the node and its string, and makes it `tail` (and `head` in an empty ring) |
| StringQueue.SnocKeepsValid | queue.c:146-155 | re-linking only the old ends and the new node, as the splice does, turns a valid ring into a valid ring with the node at the end |
| StringQueue.Truncated | queue.c:164-165 | the copied string is a prefix of the removed one and shorter than the buffer; it is the whole string when that fits, and exactly `bufsize - 1` characters otherwise |
| StringQueue.StrNCopy | queue.c:175 | the first `n` characters of the destination become those of the source, and nothing after them changes |
| StringQueue.CopyOut | queue.c:173-181 | the buffer holds the truncated string followed by a terminator, and nothing after the terminator changes |
| StringQueue.ReadCString | queue.c:164-165 | the C string a buffer holds is a NUL-free prefix of it, followed by a NUL when shorter than the buffer |
| StringQueue.ReadBackTerminated | queue.c:164-165 | a buffer holding a NUL-free string followed by a terminator reads back as that string |
| StringQueue.RemoveHead | queue.c:168-195 | succeeds exactly when the queue is non-null and non-empty; then the contents are `old[1..]`, the counter drops by 1, the removed node leaves the queue, both ends are null once it is empty, and a given buffer holds the truncated removed string and a terminator with nothing written past it; on failure neither the queue nor the buffer changes |
| StringQueue.Unlink | queue.c:182-194 | bypassing the head node in both directions keeps the invariant on the rest of the ring, drops the first node and string, and nulls both ends when the ring becomes empty |
| StringQueue.TailKeepsValid | queue.c:185-193 | re-linking only the neighbours of the removed head, as the unlink does, leaves a valid ring of the remaining nodes |
| StringQueue.Reverse | queue.c:218-238 | on a non-null queue the node sequence and the contents become their reverses, the set of owned nodes and the counter stay the same, `head` and `tail` trade places, and the ring invariant holds; no effect on a null or empty queue |
| StringQueue.ReverseKeepsValid | queue.c:226-235 | swapping `next` and `prev` on every node of a valid ring, then swapping `head` and `tail`, gives a valid ring of the reversed nodes and contents |
| StringQueue.ReversedLinks | queue.c:226-231 | after the swap, the links of the old ring read backwards are the forward and backward links of the reversed node sequence |
| StringQueue.FreeAsWritten | queue.c:46-69 | the releases of `q_free` as written: nothing for a null queue; every node's string and node once, then the record, for any size other than 1; for a ring of one node, its string and node twice, then the record |
| StringQueue.SingleNodeReleasedTwice | queue.c:57-66 | for a ring of one node, the releases made by `q_free` as written free that node, and its string, twice |
| StringQueue.Free | queue.c:45-69 | the releases `q_free` is meant to make: every node's string and node in ring order, then the record |
| StringQueue.FreeReleasesEachOnce | queue.c:45 | on a valid ring, the releases of `Free` free every node of the ring and its string exactly once, no other node or string, and the record once: `2 * size + 1` calls in all |
| StringQueue.ReleaseAllCounts | queue.c:57-66 | the walk's releases free each node, and its string, as often as the node occurs in the walked sequence |
| QueueClients.InsertThenRemove | queue.c:78-195 | inserting at the head and removing the head gives back the queue's contents and counter |
| QueueClients.ReverseTwice | queue.c:218-238 | reversing twice gives back the queue's contents |
| QueueClients.BuildAndReverse | queue.c:78-238 | inserting `a` and `b` at the tail and `c` at the head of a new queue, then reversing, holds `b, a, c` |
| QueueClients.BuildReverseRemove | queue.c:168-209 | removing the head of `b, a, c` into an eight-character buffer reads back `b`, and the size is then 2 |
| QueueClients.RemoveFromEmpty | queue.c:171-172 | removing from a new queue fails and leaves the caller's buffer as it was |

## Left out

- `malloc` is a parameter of the operations, and `free` has no counterpart in Dafny. Only `q_free` is modelled as a log of the `free` calls it makes.
- On a failed string allocation the insertions release the half-built node (queue.c:91-94). The model drops the node without recording a release.
- Strings are Dafny `string` values. `strlen`, `strcpy` and the terminator written at queue.c:97-98 become a copy of the value. The model does not require stored strings to be free of NUL characters.
- StringQueue.RemoveHead: requires `1 <= bufsize <= sp.Length` when `sp` is given. The comment at queue.c:164-165 treats `bufsize` as the size of the buffer `sp`, so the model takes that as the caller's obligation. With `bufsize == 0` the C expression `bufsize - 1` wraps around as a `size_t`, and the copy is unbounded. When `bufsize` exceeds the real size of `sp`, the C code writes `min(strlen, bufsize - 1)` characters and a terminator, which overruns `sp` only when the removed string has at least as many characters as `sp` holds; the model does not cover such calls.
- StringQueue.Size: returns an unbounded `nat`. The C function returns an `int`, which cannot hold more than 2^31 - 1 elements.
- The "O(1)" remarks (queue.c:126, 204) are about running time, which is not a verification goal here.
- harness.h and queue.h are not part of this model. The record and node layouts are taken from their uses in queue.c, and the harness's allocation instrumentation is left out.
- StringQueue.FreeAsWritten: for a ring of one node, the C code also reads the string field of a node it has already freed (queue.c:65). The model records the releases only, not this use after free.
- The header comment of queue.c (lines 7-12) speaks of a singly-linked list. The code keeps a circular doubly-linked ring, and the model follows the code.

## Findings

| source | as written | input that shows it | evidently intended | confidence | as-written member | corrected member |
|---|---|---|---|---|---|---|
| queue.c:57-66 | the do-while frees the node behind `current_ptr` until `current_ptr` reaches `tail`, then frees `tail`; on a ring of one node `head->next` is the node itself, so the loop body frees that node and the code after the loop frees its string and the node a second time | `q_new()`, `q_insert_head(q, "a")`, `q_free(q)` | every string and every node of the ring released exactly once, then the record | not executed | StringQueue.FreeAsWritten | StringQueue.Free |
