# Linked containers: a Dafny model

This project models the hand-written linked containers of a small C++
data-structures repository:

- the singly linked list `LinkedList<T>` (LL/linked_list.h) and its two
  `int` copies (ll/ll.cpp, LL/ll.cpp);
- the doubly linked list `sjd::DoublyLinkedList<T>` (LL/doubly_linked_list.h);
- the shared-pointer list `sjd::SmartLinkedList<T>` (LL/smart_linked_list.h);
- the stack `sjd::Stack<T>` (LL/stack.h).

It also proves the properties these operations promise.

## How the heap is modelled

Raw pointers are modelled with an explicit heap (module `Chains`, chains.dfy):

- The heap is a sequence of nodes.
- A pointer is `Null` or `At(address)`.
- `new` appends a node at address `|heap|`. Nothing is ever freed; a deleted node is simply unreachable.
- Every C++ member function becomes a pure function from the container's state to its new state.
  - A `bool` result becomes an `Ack(ok, state)`.
  - A returned node becomes a `Detached(node, state)`.
- Where the source would dereference a null pointer, the model returns `NullDeref` (the `Outcome` datatype) instead of a state.

A container is `Valid` when three things hold:

- Following `next` from the head for `m_length` steps visits `m_length` distinct nodes: the *spine*.
- The head and tail are the first and last nodes of the spine.
- The last node's `next` is null.

For the doubly linked list, the `prev` links must also mirror the `next` links.

Each container's `Contents` is the sequence of values along its spine. Every operation is specified by what it does to `Contents`, and by which node it returns.

Loops are modelled as recursive functions:

- The three-pointer reversal and the tortoise-and-hare `middle` are tail-recursive functions whose preconditions are the loop invariants.
- The traversals in `get` use the step functions `Advance` (along `next`) and `Retreat` (along `prev`). These have no preconditions; lemmas about them (`AdvanceChain`, `RetreatChain`) state where the walk lands on a valid list.

The test drivers' checks are methods with loops.

Notes on following the code:

- `middle()` returns the node at position `m_length / 2`: the second of the two middle nodes when the length is even. The model follows the code.
- `getLength()` of `LinkedList<T>` returns `m_length` converted to `T` (LL/linked_list.h:31). The model returns the integer.

## Model

| member | source | states |
|---|---|---|
| LinkedList.ValidShape | LL/linked_list.h:28-29 | On a valid list, head and tail are null exactly when the list is empty; otherwise they hold the first and last values, and the tail's next is null |
| LinkedList.Create | LL/linked_list.h:72-78 | The constructor builds a valid one-node list whose head and tail are the same node |
| LinkedList.Append | LL/linked_list.h:110-123 | append always returns true; it adds the value at the end, raises the length by one, makes the new node the tail and keeps the head of a non-empty list |
| LinkedList.Prepend | LL/linked_list.h:173-180 | prepend puts the value in front as the new head; on an empty list it is also the tail, otherwise the tail is kept |
| LinkedList.DeleteFirst | LL/linked_list.h:154-166 | deleteFirst drops the first value, or changes nothing on an empty list; deleting the only node leaves head and tail null |
| LinkedList.SeekPenultimate | LL/linked_list.h:138-141 | The walk in deleteLast stops at the second-to-last node of the spine |
| LinkedList.DeleteLast | LL/linked_list.h:130-147 | deleteLast drops the last value, or changes nothing on an empty list, and keeps the head when more than one value remains |
| LinkedList.Get | LL/linked_list.h:186-196 | get is null exactly for an index outside 0..length-1; otherwise it is the node at that position, holding that position's value |
| LinkedList.Set | LL/linked_list.h:202-210 | set succeeds exactly for an in-range index and then replaces only that value, keeping every node in place; otherwise nothing changes |
| LinkedList.Insert | LL/linked_list.h:216-235 | insert succeeds exactly for 0 <= index <= length and puts the value at that position; otherwise nothing changes |
| LinkedList.SpliceAfter | LL/linked_list.h:228-234 | Linking a new node after the predecessor places the value at the index and shifts the rest back |
| LinkedList.DeleteNode | LL/linked_list.h:241-253 | The intended deleteNode removes exactly the value at an in-range index and lowers the length by one; otherwise nothing changes |
| LinkedList.Unlink | LL/linked_list.h:247-251 | Bypassing the node at an interior index removes exactly its value |
| LinkedList.DeleteNodeAsWritten | LL/linked_list.h:241-253 | deleteNode as the source writes it, with the length step of either copy: it ignores an out-of-range index, dereferences null exactly when the index is the first or last position, and otherwise records the length plus or minus one |
| LinkedList.DeleteNodeAsWrittenEndsFail | LL/linked_list.h:241-253 | As written, deleteNode(0) and deleteNode(length-1) fall through to the general path and dereference null, for every length |
| LinkedList.DeleteNodeAsWrittenDecrementInterior | ll/ll.cpp:196-207 | The copy that decrements the length removes an interior value exactly as the intended deleteNode does |
| LinkedList.DeleteNodeAsWrittenIncrementBreaks | LL/linked_list.h:246-252 | The copy that increments the length records length+1 while only length-1 nodes stay reachable, so the list is no longer valid |
| LinkedList.ReverseSteps | LL/linked_list.h:260-269 | The reversal loop ends with every spine node pointing at its former predecessor, and with the old tail |
| LinkedList.Reverse | LL/linked_list.h:259-272 | reverse yields a valid list holding the values in reverse order, swaps head and tail, points every spine node at its former predecessor and leaves every other node alone |
| LinkedList.ReverseInvolution | LL/linked_list.h:259-272 | Reversing twice gives back exactly the original list, heap included |
| LinkedList.MiddleSteps | LL/linked_list.h:277-283 | The tortoise-and-hare loop stops with the tortoise at position length/2 |
| LinkedList.Middle | LL/linked_list.h:275-284 | middle is null exactly on an empty list; otherwise it is the node at position length/2, holding that value |
| LinkedList.AppendThenDeleteLast | LL/linked_list.h:110-147 | deleteLast undoes append: the contents and length are as before |
| LinkedList.PrependThenDeleteFirst | LL/linked_list.h:154-180 | deleteFirst undoes prepend |
| LinkedList.InsertThenDeleteNode | LL/linked_list.h:216-253 | The intended deleteNode at the same index undoes insert |
| LinkedList.SetThenGet | LL/linked_list.h:186-210 | After set at any in-range index, a one-element list included, get at that index reads the new value |
| LinkedList.SetLeavesOthers | LL/linked_list.h:186-210 | After set, get at any other in-range index reads the old value |
| IntLinkedList.GetHead | LL/ll.cpp:56-58 | getHead returns the first value, and dereferences null exactly on an empty list |
| IntLinkedList.GetTail | LL/ll.cpp:61-63 | getTail returns the last value, and dereferences null exactly on an empty list |
| IntLinkedList.GetLength | LL/ll.cpp:66-68 | getLength is the number of values held |
| IntLinkedList.AppendAll | ll/ll.cpp:79-91 | Appending a sequence of values one at a time extends the contents by that sequence |
| IntLinkedList.MainList | ll/ll.cpp:241-249 | The drivers' list is 4 followed by appends of 5 to 12: the values 4..12 |
| IntLinkedList.MainMiddle | LL/ll.cpp:243-261 | On 4..12, middle holds 8, the head holds 4, the tail holds 12 and the length is 9 |
| IntLinkedList.MainDeleteNodeDecrement | ll/ll.cpp:196-207 | In the decrementing copy, deleteNode(4) on 4..12 removes the 8 |
| IntLinkedList.MainDeleteNodeIncrement | LL/ll.cpp:199-210 | In the incrementing copy, deleteNode(4) on 4..12 records length 10 and breaks the invariant |
| DoublyLinkedList.ValidShape | LL/doubly_linked_list.h:51-52 | Head and tail are null exactly when the list is empty; the head's prev and the tail's next are null |
| DoublyLinkedList.PrevMirrorsNext | LL/doubly_linked_list.h:121-260 | Along the list, each node's successor points back at it through prev |
| DoublyLinkedList.GetLength | LL/doubly_linked_list.h:53 | The length accessor is the number of values held (see Left out) |
| DoublyLinkedList.Create | LL/doubly_linked_list.h:91-97 | The constructor builds a valid one-node list whose head and tail are the same node |
| DoublyLinkedList.Append | LL/doubly_linked_list.h:121-133 | append always succeeds; it adds the value at the end as the new tail and keeps the head of a non-empty list |
| DoublyLinkedList.PrependAsWritten | LL/doubly_linked_list.h:138-150 | As written, prepend always reports success and makes the new node the head, but on an empty list it leaves the tail unchanged |
| DoublyLinkedList.PrependAsWrittenEmptyLosesTail | LL/doubly_linked_list.h:141-142 | On an emptied list, prepend as written leaves a one-node list with a null tail, which is not valid |
| DoublyLinkedList.PrependAsWrittenNonEmpty | LL/doubly_linked_list.h:143-149 | On a non-empty list, prepend as written is the intended prepend |
| DoublyLinkedList.Prepend | LL/doubly_linked_list.h:138-150 | The intended prepend puts the value in front as the new head, and sets the tail too on an empty list |
| DoublyLinkedList.PrependFront | LL/doubly_linked_list.h:143-149 | Linking a new head in front of a non-empty list keeps the prev links mirrored |
| DoublyLinkedList.Pop | LL/doubly_linked_list.h:152-171 | pop returns null and changes nothing on an empty list; otherwise it detaches the tail node, with both links null, and drops the last value |
| DoublyLinkedList.PopTail | LL/doubly_linked_list.h:158-170 | Detaching the tail of a non-empty list leaves the remaining values valid and the node holding the last value |
| DoublyLinkedList.PopFirst | LL/doubly_linked_list.h:173-190 | popFirst returns null and changes nothing on an empty list; otherwise it detaches the head node, with both links null, and drops the first value |
| DoublyLinkedList.Get | LL/doubly_linked_list.h:192-212 | get is null exactly for an out-of-range index; otherwise it is the node at that position, whichever end the walk starts from |
| DoublyLinkedList.GetReaches | LL/doubly_linked_list.h:198-211 | Walking forward from the head or backward from the tail reaches the same node at each index |
| DoublyLinkedList.BothDirections | LL/doubly_linked_list.h:198-211 | The forward walk and the backward walk that get chooses between agree at every index |
| DoublyLinkedList.SetValue | LL/doubly_linked_list.h:214-225 | setValue succeeds exactly for an in-range index and then replaces only that value; otherwise nothing changes |
| DoublyLinkedList.SpliceBefore | LL/doubly_linked_list.h:238-244 | Linking a new node in front of the node at an interior index places the value there and keeps the prev links mirrored |
| DoublyLinkedList.InsertAsWritten | LL/doubly_linked_list.h:227-247 | As written, insert succeeds exactly for 0 <= index < length, so appending at index length is refused |
| DoublyLinkedList.InsertAsWrittenRejectsEnd | LL/doubly_linked_list.h:229-236 | insert(length, v) as written fails although the intended insert accepts it |
| DoublyLinkedList.InsertAsWrittenAgrees | LL/doubly_linked_list.h:227-247 | At every index other than length, insert as written agrees with the intended insert |
| DoublyLinkedList.Insert | LL/doubly_linked_list.h:227-247 | The intended insert succeeds exactly for 0 <= index <= length and puts the value at that position |
| DoublyLinkedList.Bypass | LL/doubly_linked_list.h:254-257 | The last relinks of remove: the successor points back at the predecessor, the removed node loses both links and the length drops by one, with head and tail untouched |
| DoublyLinkedList.Unlink | LL/doubly_linked_list.h:249-260 | Removing an interior node detaches it with null links and removes exactly its value |
| DoublyLinkedList.RemoveAt | LL/doubly_linked_list.h:249-260 | Removing the node at any in-range position (an end or the interior) detaches it and removes exactly its value |
| DoublyLinkedList.Remove | LL/doubly_linked_list.h:249-260 | The intended remove returns null and changes nothing exactly for an out-of-range index; otherwise it detaches that node and removes its value |
| DoublyLinkedList.RemoveAsWritten | LL/doubly_linked_list.h:249-260 | remove as the source writes it returns null and changes nothing for an out-of-range index, dereferences null exactly at the first or last position, and otherwise detaches the node at the index and lowers the length by one |
| DoublyLinkedList.RemoveAsWrittenEndsFail | LL/doubly_linked_list.h:253-254 | As written, remove at the first or last position dereferences a null prev or next |
| DoublyLinkedList.RemoveAsWrittenAgrees | LL/doubly_linked_list.h:249-260 | For an out-of-range or interior index, remove as written agrees with the intended remove |
| DoublyLinkedList.AppendThenPop | LL/doubly_linked_list.h:121-171 | pop after append returns the appended node, holding the value, and restores the contents |
| DoublyLinkedList.PrependThenPopFirst | LL/doubly_linked_list.h:138-190 | popFirst after prepend returns the prepended node, holding the value, and restores the contents |
| DoublyLinkedList.InsertThenRemove | LL/doubly_linked_list.h:227-260 | remove at the same index after insert returns the inserted value and restores the contents |
| DoublyLinkedList.SetValueThenGet | LL/doubly_linked_list.h:192-225 | After setValue, get at that index reads the new value |
| DoublyLinkedList.DriverExample | test/test_doubly_linked_list.cpp:40-43 | The driver's integer list ({12}, append 13 and 14, then prepend 11) holds 11,12,13,14. The lemma extends the example with the pop and popFirst the driver applies only to its string list (lines 20-24): they return 14 and 11 and leave 12,13 |
| SmartLinkedList.SmartCreate | LL/smart_linked_list.h:56-61 | The constructor builds a valid one-node list whose begin and end are the same node |
| SmartLinkedList.Begin | LL/smart_linked_list.h:64 | begin is null exactly on an empty list; otherwise it holds the first value |
| SmartLinkedList.End | LL/smart_linked_list.h:65 | end is null exactly on an empty list; otherwise it holds the last value and its next is null |
| SmartLinkedList.Length | LL/smart_linked_list.h:66 | length is the number of values held |
| SmartLinkedList.SmartAppend | LL/smart_linked_list.h:68-79 | append always succeeds, adds the value at the end and keeps begin |
| SmartLinkedList.SmartPrepend | LL/smart_linked_list.h:81-90 | prepend always succeeds, puts the value in front and keeps end on a non-empty list |
| SmartLinkedList.SmartPrependEmpty | LL/smart_linked_list.h:82-84 | On an empty list, delegating to append builds the same one-node list as prepending, with length 1 |
| SmartLinkedList.IsValidLL | test/test_smart_linked_list.cpp:13-33 | The tortoise-and-hare check accepts every valid list, and never dereferences null on one |
| SmartLinkedList.TestAppend | test/test_smart_linked_list.cpp:35-50 | The append test passes for every positive count, leaving the values 0..reps |
| SmartLinkedList.TestPrepend | test/test_smart_linked_list.cpp:52-67 | The prepend test passes for every positive count, leaving the values reps down to 0 |
| Stack.Create | LL/stack.h:67-72 | The constructor builds a valid one-value stack |
| Stack.Peek | LL/stack.h:53 | peek is null exactly on an empty stack; otherwise it holds the top value |
| Stack.GetHeight | LL/stack.h:54 | getHeight is the number of values on the stack |
| Stack.Push | LL/stack.h:93-99 | push always succeeds and puts the value on top as a new node |
| Stack.Pop | LL/stack.h:101-108 | pop dereferences null exactly on an empty stack; otherwise it detaches the top node, with a null next, and the rest stays in order |
| Stack.PushThenPop | LL/stack.h:93-108 | Last in, first out: pop after push returns the pushed node and restores the contents |
| Stack.HeaderExample | LL/stack.h:28-30 | {3}, then push 4, holds 4 over 3; pop returns 4 and leaves 3 |

## Left out

- Not part of this model:
  - the binary search tree (BST/binary_search_tree.h);
  - the queue (LL/queue.h);
  - LL/lldouble.cpp;
  - the test drivers other than the examples above.
- The doubly list's `swapFirstLast`, `reverse` and `isPalindrome` (LL/doubly_linked_list.h:262-275) print "Not implemented" and then reach the end of a `bool` function without a return statement. Reaching the end that way is undefined behaviour for the whole call, so the model leaves these members out.
- Output is not modelled: `printList`, `printStack`, the drivers' printing, and the `getHead`, `getTail` and `getLength` of ll/ll.cpp (lines 61-73), which print the head value, tail value and length instead of returning them.
- Memory reclamation is not modelled: destructors, `delete` and `shared_ptr` reference counts. A deleted node stays in the heap, unreachable.
- Copy construction and assignment are not modelled; the source leaves them implicit.
- Integer overflow of the `int` length and indices is not modelled: lengths are unbounded integers.
- The pointer accessors `getHead()` and `getTail()` of the generic lists return the head and tail fields. Their meaning is stated by the two `ValidShape` lemmas.
- DoublyLinkedList.GetLength: returns the length. The source returns `m_tail`, a pointer, as `int` (LL/doubly_linked_list.h:53). That conversion does not compile once the member is instantiated, so it has no behaviour to model.
- LinkedList `getLength()` is declared to return `T` (LL/linked_list.h:31). The model returns the integer length.
- SmartLinkedList.IsValidLL: proved only for valid lists. It is not proved to detect cycles in malformed ones, since a valid list never has one.

## Findings

| source | as written | input that shows it | evidently intended | confidence | as-written member | corrected member |
|---|---|---|---|---|---|---|
| LL/linked_list.h:244-245 | index 0 and index length-1 call deleteFirst/deleteLast without returning, then continue into the general path | [1,2], deleteNode(0): after deleteFirst the path dereferences a null predecessor | return after the fast path | not executed | LinkedList.DeleteNodeAsWrittenEndsFail | LinkedList.DeleteNode |
| LL/linked_list.h:252 (also LL/ll.cpp:209) | the general path of deleteNode does ++m_length | [1,2,3], deleteNode(1): length 4 with two reachable nodes | --m_length, as in ll/ll.cpp:206 | not executed | LinkedList.DeleteNodeAsWrittenIncrementBreaks | LinkedList.DeleteNode |
| LL/doubly_linked_list.h:141-142 | prepend on an empty list sets only m_head | {1}, pop, then prepend(2): tail stays null | set m_tail as well | not executed | DoublyLinkedList.PrependAsWrittenEmptyLosesTail | DoublyLinkedList.Prepend |
| LL/doubly_linked_list.h:229 | insert rejects index >= m_length, so its index == m_length branch (235) is dead | [1], insert(1, 2) returns false | reject only index > m_length | not executed | DoublyLinkedList.InsertAsWrittenRejectsEnd | DoublyLinkedList.Insert |
| LL/doubly_linked_list.h:253-254 | remove dereferences temp->prev and temp->next without checking for the ends | [1,2], remove(0): the head's prev is null | delegate the ends to popFirst/pop | not executed | DoublyLinkedList.RemoveAsWrittenEndsFail | DoublyLinkedList.Remove |
