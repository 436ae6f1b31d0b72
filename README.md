# lab0-c queue, modelled in Dafny

This project models `queue.c` of lab0-c. That file is a string queue built on the Linux kernel's intrusive circular
doubly-linked list, which has a sentinel node. The model covers every operation the file implements:

- `q_new`, `q_free`
- insertion at either end
- removal at either end, with its bounded copy-out
- `q_size`, `q_delete_mid`, `q_delete_dup`, `q_swap`, `q_reverse`, `q_reverseK`
- the bottom-up merge sort `q_sort`, with its helpers `merge` and `build_prev_link`

The project has these modules:

- `ListCore` (`list_core.dfy`): the list as an arena.
  - Every node has an integer id. The sentinel is `Head` (0) and NULL is `Nil` (-1).
  - The `next` and `prev` pointers are the maps `nxt` and `prv` of class `Queue`. The strings are `val`.
  - A ghost sequence `order` lists the element ids from front to back.
  - `Queue.Valid()` is the circular dual-link invariant that ties `order` to the pointers. Every operation keeps it.
  - The list.h primitives the queue code calls are methods of the class, specified by what they do to `order`:
    `list_add`, `list_add_tail`, `list_del`, `list_move` and `list_empty`.
- `QueueOps` (`queue.dfy`) and `QueueWalks` (`queue_walks.dfy`): the queue operations, written as the loops of the
  source. Each operation is proved against a specification function of `SeqSpec`:
  - `q_reverse` against `Rev`;
  - `q_swap` against `SwapPairs`;
  - `q_reverseK` against `RevK`;
  - `q_delete_dup` against `Lone`.

  Each result is stated both for the node order and for the strings.
- `SeqSpec` (`seq_spec.dfy`): those specification functions, with their properties proved:
  - `Rev` and `SwapPairs` are involutions;
  - reversing in groups of one changes nothing;
  - reversing in groups of k twice gives the sequence back;
  - each element lands at a stated position;
  - `Lone` keeps exactly the elements that have no equal neighbour.
- `CStrings` (`cstrings.dfy`): `strncpy` and the NUL-terminated bounded copy that removal writes into the caller's
  buffer.
- `MergeSpec` (`merge_spec.dfy`): the stable merge of two runs and its properties:
  - it is a permutation;
  - it is sorted;
  - ties are taken from the first run;
  - two runs already in order are merged as their concatenation.

  The module also holds the binary-counter arithmetic behind the pending slots of the sort.
- `QueueSort` (`queue_sort.dfy`): `q_sort`.
  - The circle is cut open.
  - `merge` runs on NULL-terminated chains, with a `tail` pointer.
  - The carry loop merges each node into the 32 `pending` slots like a binary increment.
  - The slots are merged into one list, and the prev links and the circle are rebuilt.
  - The result is a sorted permutation of the queue, kept in the same arena.

Allocation can fail in the source. `q_new` and the insertions take two flags, `mallocOk` and `strdupOk`, that
say whether `malloc` and `strdup` succeed. A failed insertion leaves the queue unchanged.

The comparator is a parameter, `cmp`. The sort requires only that any two nodes are ordered one way or the other.

Removal returns the removed element and its ownership goes to the caller, so the node leaves the arena.

## Model

| member | source | states |
|---|---|---|
| QueueOps.New | queue.c:15-22 | the queue exists exactly when `malloc` succeeds, and it is then a valid empty circular list |
| QueueOps.Free | queue.c:25-33 | the sentinel and every element node, with its string, are released from the arena, and nothing else is |
| ListCore.Queue.constructor | queue.c:20 | INIT_LIST_HEAD gives a valid circle with no elements |
| ListCore.Queue.IsEmpty | queue.c:76 | list_empty is true exactly when the queue has no elements |
| ListCore.Queue.Alloc | queue.c:41-44 | a fresh element id not yet in any map, holding a copy of the string; the list order is unchanged |
| ListCore.Queue.Drop | queue.c:31 | releasing a node removes exactly that node from the arena, and the list stays valid when the node was not linked |
| ListCore.Queue.ListAdd | queue.c:50 | list_add links the node right after the given node; the order gains it at that position and stays circular |
| ListCore.Queue.ListAddTail | queue.c:69 | list_add_tail links the node right before the given node; the order gains it at that position |
| ListCore.Queue.ListDel | queue.c:80 | list_del unlinks the node at position k; the order loses exactly that position and stays circular |
| ListCore.Queue.ListMove | queue.c:168 | list_move unlinks a node and relinks it after another; the order and the strings move that one element |
| QueueOps.InsertHead | queue.c:36-52 | success exactly when the queue exists and both allocations succeed; then the strings gain s at the front, else nothing changes |
| QueueOps.InsertTail | queue.c:55-71 | the same as InsertHead, with s added at the back |
| QueueOps.Unlink | queue.c:80 | unlinking and handing over the node at position k removes exactly that element, with its string, from order, strings and arena |
| QueueOps.CopyOut | queue.c:81-84 | the first bufsize bytes of the buffer become the bounded NUL-terminated copy of the value; the rest of the buffer is untouched |
| CStrings.StrNCopy | queue.c:82 | strncpy writes the source's first n bytes, padded with NULs to n bytes, and nothing past n |
| CStrings.BoundedCopyReadsBack | queue.c:82-83 | the buffer reads back as the value cut to bufsize - 1 bytes, followed by a NUL |
| QueueOps.RemoveHead | queue.c:74-87 | nothing when the queue is NULL or empty (buffer untouched); otherwise the first element with its string is returned and removed from the list and the arena (ownership goes to the caller), and the buffer holds its bounded copy |
| QueueOps.RemoveTail | queue.c:90-103 | the same as RemoveHead, for the last element |
| QueueOps.Size | queue.c:106-117 | 0 for a NULL queue, otherwise the number of elements |
| QueueOps.MiddleWalk | queue.c:126-130 | the fast/slow walk stops with slow at index n / 2 |
| QueueOps.Middle | queue.c:126-130 | on a valid non-empty queue, the fast/slow walk over the queue's pointers returns the element at index n / 2 |
| QueueOps.DeleteMid | queue.c:120-135 | true exactly when the queue exists and is non-empty; then exactly the element at index n / 2 is removed from the list and released from the arena, and no other string changes |
| QueueOps.DeleteDup | queue.c:138-157 | true exactly when the queue exists and is non-empty; then the queue keeps, in order, exactly the elements whose string differs from both neighbours' strings, and exactly the removed elements are released from the arena |
| QueueOps.DupWalk | queue.c:144-155 | the whole walk leaves exactly the elements without an equal neighbour, in order, and releases exactly the others |
| QueueOps.DropIfDuplicate | queue.c:146-155 | one turn of the walk, with the step to the next entry and its successor, keeps the walk state: prefix filtered, rest untouched, dup_last equal to the first test |
| QueueOps.ReleaseIfDuplicate | queue.c:147-155 | one turn of the dedup walk: the visited prefix is filtered as far as the current element, the rest is untouched, and the flag tells whether the element's string equals its successor's; every element that left the list has left the arena |
| QueueOps.UnlinkReleased | queue.c:148-149 | list_del then q_release_element on the element at position k: it leaves the list and the arena, and the released set grows by exactly that element |
| SeqSpec.LoneMembers | queue.c:146-155 | an element survives the dedup exactly when no neighbour holds an equal string |
| SeqSpec.LoneExample | queue.c:138-157 | [1, 1, 2, 2, 3] deduplicates to [3] |
| QueueOps.Swap | queue.c:160-172 | the queue's order and strings become SwapPairs of the old ones: adjacent pairs swapped, an odd last element kept |
| QueueOps.SwapTurn | queue.c:166-170 | one turn on a pair: list_move(node, safe) swaps the two nodes, so the swapped prefix grows by the pair and the rest is untouched; the strings in the arena stay the same |
| SeqSpec.SwapPairsAt | queue.c:166-170 | position i of the swapped sequence holds the element at i's partner |
| SeqSpec.SwapPairsTwice | queue.c:160-172 | swapping pairs twice gives the sequence back |
| QueueOps.Reverse | queue.c:175-183 | the order and the strings become their reverses; the arena's strings are unchanged |
| QueueOps.MoveToFront | queue.c:181-182 | one turn: list_move(node, head) moves the j-th node to the front, so the reversed prefix grows by one and the rest is untouched |
| SeqSpec.RevAt | queue.c:181-182 | position i of the reversal holds the element at n - 1 - i |
| SeqSpec.RevRev | queue.c:175-183 | reversing twice gives the sequence back |
| QueueOps.ReverseK | queue.c:186-207 | the order and the strings become RevK of the old ones: each complete group of k reversed, a short last group left as it is |
| QueueOps.TurnCount | queue.c:193 | the number of complete k-groups: turn groups fit in the size and turn + 1 do not |
| QueueOps.ReverseKNodes | queue.c:191-205 | on a non-empty queue, the node order becomes RevK of the old one |
| QueueOps.ReverseKTurn | queue.c:195-204 | one turn of the k-group walk: either the walk stops with the order already RevK of the start, or the next step of the group state machine is taken |
| QueueOps.KMove | queue.c:196-203 | list_move(node, start) followed by the count update: at the last turn the order is RevK; otherwise the state moves to the next step of the group state machine, and start moves to the node just moved after a full group |
| QueueWalks.RevKValues | queue.c:186-207 | reversing the nodes in k-groups reverses their strings in the same k-groups |
| SeqSpec.RevKWalkStep | queue.c:196-204 | a step of the state machine (count_k, count_turn, start) keeps the list equal to the groups reversed so far, the group being reversed, then the untouched rest; at the last turn it is RevK |
| SeqSpec.RevKBlock | queue.c:186-207 | within complete group b, position j holds the group's element k - 1 - j |
| SeqSpec.RevKTail | queue.c:197-198 | the elements past the last complete group keep their positions |
| SeqSpec.RevKOne | queue.c:186-207 | groups of one leave the sequence as it is |
| SeqSpec.RevKTwice | queue.c:186-207 | reversing in k-groups twice gives the sequence back |
| SeqSpec.RevKExample | queue.c:186-207 | [1, 2, 3, 4, 5] in groups of 2 becomes [2, 1, 4, 3, 5] |
| QueueSort.MergeRuns | queue.c:230-255 | merge of two non-empty NULL-terminated runs returns the chain of their stable merge; nodes outside both runs keep their next |
| QueueSort.Attach | queue.c:237-239 | `*tail = x; tail = &x->next`: x becomes the next node of the merge built so far, and the tail moves to it |
| QueueSort.AttachRest | queue.c:240-250 | `*tail = y` with y the rest of the other run: the built prefix and that rest form the whole merge as a chain |
| MergeSpec.MergePerm | queue.c:230-255 | the merge holds exactly the nodes of both runs |
| MergeSpec.MergeSorted | queue.c:230-255 | the merge of two sorted runs is sorted |
| MergeSpec.MergeHead | queue.c:236-251 | the merge starts with the head of a when a's head compares at most equal to b's head, so ties go to a |
| MergeSpec.MergeInOrder | queue.c:230-255 | runs already in order (every element of a at most every element of b) merge into their concatenation, so merging is stable |
| MergeSpec.BitIncrement | queue.c:274-281 | the carry is a binary increment: bits below the first clear bit are cleared, that bit is set, higher bits stay |
| QueueSort.Visit | queue.c:271-281 | one turn of the main loop cuts the node off, carries it into the slots and moves on; the slots now count one node more |
| QueueSort.Carry | queue.c:274-281 | the carried node lands so that the slots hold sorted runs that count m + 1 nodes in binary, with the unvisited list and the same nodes |
| QueueSort.CarryMerge | queue.c:275-276 | one carry step: the full slot i is merged in front of the carried run and emptied; the carry now counts slot i in |
| QueueSort.CarryStore | queue.c:279-281 | the carried run is stored in the first empty slot, or in the last slot when all 32 are full |
| QueueSort.BuildRuns | queue.c:271-282 | after the walk every node is in a slot, the slots count the list's length in binary and each holds a sorted run |
| QueueSort.PendingBits | queue.c:271-282 | after m < 2^32 nodes, slot l is non-NULL exactly when bit l of m is set, and it then starts a sorted run of 2^l nodes |
| QueueSort.Assemble | queue.c:284-287 | merging the slots from 0 up into the result gives one sorted chain holding exactly the list's nodes |
| QueueSort.AssembleSlot | queue.c:286 | one turn of the final loop on a full slot: its run is merged in front of the result, or becomes the result, and the slots plus the result still hold every node in sorted runs |
| QueueSort.BuildPrevLink | queue.c:218-228 | the sentinel's next and every node's prev are set from the chain, closing the circle with the chain's nodes in order |
| QueueSort.ShortList | queue.c:262 | when the sentinel's next and prev are the same node, the queue has at most one element |
| QueueSort.CutOpen | queue.c:269 | setting the last node's next to NULL turns the circle into a NULL-terminated chain of the queue's nodes |
| QueueSort.SortChain | queue.c:265-287 | the chain is turned into a chain of the same nodes, sorted |
| QueueSort.Relink | queue.c:288 | the sorted chain becomes the queue's valid circle in that order, with the same strings |
| QueueSort.Sort | queue.c:260-289 | a NULL queue is left alone; otherwise the queue stays valid, keeps the same nodes and strings, and its order is sorted under compare |

## Left out

- Allocation and release are not modelled in detail. `malloc` and `strdup` are reduced to the success flags of
  `New`, `InsertHead` and `InsertTail`, and `free` is reduced to dropping a node's id from the arena.
- list.h is not part of this model. Its primitives are modelled by their effect on the list, not by their code.
- `compare` (queue.c:209-216) is not modelled. It subtracts the addresses of the two value strings, not their
  contents, and narrows the difference to `int`. The sort takes the comparator as the parameter `cmp` instead,
  and requires only that any two nodes are ordered one way or the other.
- `q_ascend`, `q_descend` and `q_merge` are not modelled. In queue.c they are stubs that return 0 and do nothing.
- QueueSort.Sort: the flag `descend` is not read, as in the source, so the sort is always ascending under `cmp`.
- QueueSort.Sort: sortedness and permutation are stated, but not stability. Stability is stated per merge
  (MergeSpec.MergeHead, MergeSpec.MergeInOrder).
- QueueSort.Sort, QueueSort.SortChain, QueueSort.BuildRuns, QueueSort.Assemble, QueueSort.AssembleSlot,
  QueueSort.Relink and QueueSort.BuildPrevLink model the sort as evidently intended, because the source as written dereferences NULL:
  - The main loop (queue.c:271) walks with list_for_each_safe after the last node's next was set to NULL, so after
    the last node it reads NULL's next. The model stops the walk at NULL.
  - The final loop (queue.c:285-286) calls merge with a NULL argument, first with the NULL result and then for every
    empty slot, and merge dereferences both arguments. The model skips empty slots, and the first full slot becomes
    the result as it is.
  - build_prev_link (queue.c:218-228) is passed the first node rather than the sentinel. It never sets the
    sentinel's next, and its walk writes `safe->prev` when `safe` is NULL. The model walks from the sentinel and
    closes the circle at the last node.
- QueueOps.DeleteMid removes the element at index n / 2, which is what the fast/slow walk of queue.c:126-130 does.
  On four elements it removes the third element. A reading that wants index (n - 1) / 2 does not match the code.
- QueueOps.ReverseK requires k >= 1 when the queue is non-empty; k <= 0 is not modelled. With k = 0 the division
  at queue.c:193 is undefined. With k < 0 the truncating division gives turn <= 0 and `++count_k == k` never
  holds. So the walk reverses the whole list when |k| <= n, and returns after a move that changes nothing when
  |k| > n.
- QueueOps.RemoveHead and QueueOps.RemoveTail require 1 <= bufsize when a buffer is given and an element is
  removed. With bufsize 0, the write `sp[bufsize - 1]` is out of bounds.
- QueueOps.Size does not model the 32-bit `int` counter. The integers are unbounded, so lists of 2^31 or more
  elements are not treated specially.
- QueueSort.PendingBits and MergeSpec.BitIncrement describe the counter only below 2^32 nodes. Above that, the
  model proves only that the slots hold sorted runs of the same nodes.
