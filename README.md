# Linked list demo, modelled in Dafny

The program keeps one singly-linked list of integers. Its head pointer is `root`, and every node holds a value and a link to the next node. The list changes in place:

- nodes are appended or prepended;
- the last or the first node is removed;
- the list is searched for the 1-based index of the first node holding a value;
- a node is inserted before or after the first node holding a value;
- the first node holding a value is removed.

The list is also walked from head to tail, and recursively from tail to head.

The model has two modules.

- `ListSpec` (`list_spec.dfy`) is the value level, written as functions and lemmas:
  - `FirstIndex` and `IndexOf` give the result a search reports;
  - `Spliced` and `Without` describe how an insertion or a removal reshapes the sequence of values;
  - `Reversed` gives the order of the reverse walk.
- `LinkedList` (`linked_list.dfy`) is the heap level.
  - `Node` is a class with a fixed `data` and a mutable `next`.
  - `List` is a class whose `root` field is the head pointer.
  - A ghost sequence `nodes` lists the chain's nodes head first. `Valid()` ties `root` and every `next` field to it. Its nodes are pairwise distinct, so the chain is acyclic and ends in null.
  - `Contents()` is the values of `nodes`, and `Repr()` is the list object plus its nodes.
  - Each C function is a method with the same branches and the same loops, stepping `curr` and `prv` and counting `index` or `i`.
  - Each method's contract gives the new contents and the new node sequence in terms of the old ones and of `IndexOf`. The lemmas of `ListSpec` then state what those sequences mean.

A C function that returns `void` and prints its outcome returns that outcome here. `remove_last` and `remove_begin` report `EmptyList` or the removed value. `insert_after`, `insert_before` and `find_and_remove` report the search result they acted on: `-1`, `-2` or the index. The two walks return the values they would print.

`find_index` returns `-2` when the value is missing from a one-node list, exactly as it does for a longer list (`linked_list_demo.c` lines 247 and 260). So there is one "not found" result, and the model has only that one.

## Model

| member | source | states |
|---|---|---|
| `ListSpec.FirstIndex` | linked-list-demo/linked_list_demo.c:250-259 | The 0-based position where the scan stops is at most the length of the list. |
| `ListSpec.FirstIndexSpec` | linked-list-demo/linked_list_demo.c:250-259 | The scan stops inside the list exactly when the value occurs. The node where it stops holds the value, and no earlier node does. |
| `ListSpec.FirstIndexUnique` | linked-list-demo/linked_list_demo.c:250-260 | A position with no earlier occurrence, holding the value or lying at the end, is where the scan stops. |
| `ListSpec.IndexOfCases` | linked-list-demo/linked_list_demo.c:237-263 | The search has three outcomes, each in both directions: -1 exactly for the empty list; -2 exactly for a non-empty list without the value; otherwise an index in 1..length whose node holds the value with no earlier match. |
| `ListSpec.SplicedShape` | linked-list-demo/linked_list_demo.c:353-354 | Linking a value in at position k keeps the earlier values and puts the value at k. Later values move one place right. The length grows by one, and exactly one copy of the value is added. |
| `ListSpec.SplicedBefore` | linked-list-demo/linked_list_demo.c:367-399 | Inserting before the first match puts the new value at the match's old index, with the match right after it. The length grows by one and the values gain the new value only. A later search finds the new node if it holds the searched value, and otherwise the old match one index further on. |
| `ListSpec.SplicedAfter` | linked-list-demo/linked_list_demo.c:319-356 | Inserting after the first match leaves the match at its index and puts the new value right after it. The length grows by one, the values gain the new value only, and a later search gives the same index. |
| `ListSpec.WithoutShape` | linked-list-demo/linked_list_demo.c:304 | Linking past position k keeps the earlier values and moves the later ones one place left. The length shrinks by one, and exactly one copy of the value at k is removed. |
| `ListSpec.WithoutFirst` | linked-list-demo/linked_list_demo.c:273-308 | Removing the first match takes out exactly one copy of the value and keeps every value before it. Any copy still present is found at the removed index or later. |
| `ListSpec.Reversed` | linked-list-demo/linked_list_demo.c:106-117 | The reverse walk yields as many values as there are nodes. |
| `ListSpec.ReversedIndex` | linked-list-demo/linked_list_demo.c:106-117 | Position k of the reverse walk holds the value k places from the tail. |
| `ListSpec.ReversedConcat` | linked-list-demo/linked_list_demo.c:111-112 | Walking a list made of two parts in reverse yields the second part reversed, then the first part reversed. |
| `ListSpec.ReversedTwice` | linked-list-demo/linked_list_demo.c:76-117 | Reversing the reverse walk's output gives the forward order back. |
| `LinkedList.Node.constructor` | linked-list-demo/linked_list_demo.c:56-59 | A new node holds the given value and link. |
| `LinkedList.LinkedIn` | linked-list-demo/linked_list_demo.c:353-354 | Suppose every other link is as before, the predecessor links to the new node, and the new node links to the old occupant of the position. Then the longer node sequence is a chain ending in null. |
| `LinkedList.LinkedPast` | linked-list-demo/linked_list_demo.c:304 | Suppose every other link is as before and the predecessor links to the removed node's successor. Then the shorter node sequence is a chain ending in null. |
| `LinkedList.SplicedIn` | linked-list-demo/linked_list_demo.c:396-397 | Placing a node that is not yet in the chain keeps the nodes distinct. The values become the old values with the new value spliced in, and the footprint grows by exactly that node. |
| `LinkedList.SplicedOut` | linked-list-demo/linked_list_demo.c:283-305 | Taking a node out keeps the rest distinct. The values lose the value at that position, and the footprint loses exactly that node. |
| `LinkedList.List.constructor` | linked-list-demo/linked_list_demo.c:67 | A new list has a null head and no values. |
| `LinkedList.List.AddLast` | linked-list-demo/linked_list_demo.c:128-147 | The contents become the old contents followed by d. Only the new node is appended, and the existing nodes keep their order. An empty list gets a head holding d with a null link; otherwise the head is unchanged. |
| `LinkedList.List.RemoveLast` | linked-list-demo/linked_list_demo.c:156-180 | An empty list reports empty and nothing changes. Otherwise it reports the last value, the contents lose their last element, and only the tail node leaves the footprint. A one-node list gets a null head. |
| `LinkedList.List.AddBegin` | linked-list-demo/linked_list_demo.c:190-202 | The contents become d followed by the old contents. The new head holds d and links to the old head, which is null for an empty list. |
| `LinkedList.List.RemoveBegin` | linked-list-demo/linked_list_demo.c:211-226 | An empty list reports empty and nothing changes. Otherwise it reports the first value and the contents lose their first element. The head becomes the old head's successor, which is null for one node, and only the old head leaves the footprint. No node's link changes. |
| `LinkedList.List.FindIndex` | linked-list-demo/linked_list_demo.c:237-263 | Returns -1 exactly for the empty list and -2 exactly when the list is non-empty and lacks d. Otherwise it returns an index in 1..length whose node holds d, with no earlier node holding d. The result equals `IndexOf` of the contents, and nothing changes. |
| `LinkedList.List.FindAndRemove` | linked-list-demo/linked_list_demo.c:273-308 | Reports the search result for d. On a match the contents lose exactly the first occurrence, and only that node leaves the chain and the footprint. Removing the head advances `root`, which is null for one node. On -1 or -2 nothing changes. |
| `LinkedList.List.InsertAfter` | linked-list-demo/linked_list_demo.c:319-356 | Reports the search result for s. On a match at index i the contents become the old ones with d spliced in at 0-based position i, and one fresh node is linked in there. The head is unchanged. On -1 or -2 nothing changes. |
| `LinkedList.List.InsertBefore` | linked-list-demo/linked_list_demo.c:367-399 | Reports the search result for s. On a match at index i the contents become the old ones with d spliced in at 0-based position i-1, and one fresh node is linked in there. At index 1 the new node becomes the head and links to the old head; otherwise the head is unchanged. On -1 or -2 nothing changes. |
| `LinkedList.List.ForwardWalk` | linked-list-demo/linked_list_demo.c:76-96 | The walk from the head yields exactly the contents and visits exactly the chain's nodes, each once, head to tail. It changes nothing. |
| `LinkedList.List.ReverseWalk` | linked-list-demo/linked_list_demo.c:106-117 | Starting from node k, the recursive walk yields the contents from k onward in reverse. Started at `root` it yields the whole list reversed, and nothing for an empty list. It changes nothing. |

## Example sessions

The methods `LinkedList.PushSession`, `LinkedList.WalkSession`, `LinkedList.InsertSession`, `LinkedList.RemoveSession` and `LinkedList.PopSession` are example sessions. They model no C function. Each runs a short sequence of calls and asserts the concrete results that the method contracts let a caller conclude:

- building 5, 10, 20;
- walking that list both ways;
- inserting 15 after 10;
- removing 10, then searching for a value that is not there;
- emptying a one-node list from the tail.

## Left out

- Console I/O is not modelled. This covers `printf`, `scanf`, `print_menu` and the menu loop of `main` (lines 426-537). It also covers each operation's messages and the `->` separators of both walks (lines 90 and 113-114). The model returns the values and outcomes instead.
- `memory_free` is not modelled. It is the recursive teardown that frees the whole chain when the menu exits (lines 409-417 and 535). With no freeing in the model it has nothing to do. The session methods in `linked_list.dfy` stand in for the menu's calls.
- `malloc` failure is not modelled (lines 130, 191, 330, 345, 378 and 387). `new Node` always succeeds.
- Freeing memory is not modelled (for example lines 167, 177, 285, 291 and 305). A removed node only leaves the list's footprint `Repr()`.
- The leak in `remove_begin` is therefore invisible: it detaches the head without freeing it (lines 217-224). The model removes that node from the footprint too.
- `root` is a field of a `List` object rather than a global variable, so several lists can exist side by side.
- `data` is a constant of each node, because no function of the core assigns it after the node is set up.
- Fixed-width `int` is not modelled. The C counters `index` and `i` are `int` (lines 238, 295, 343 and 384), and `find_index` returns the index as an `int`. The model uses unbounded integers, so it matches the C only for lists with fewer than INT_MAX nodes; longer lists would overflow those counters. Node values are only copied and compared, never computed with.
