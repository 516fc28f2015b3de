# ListManager: a verified model of uncrustify's intrusive list

`ListManager<T>` (src/ListManager.h) manages a doubly-linked list whose
links live in the elements themselves. Every element carries a `next` and
a `prev` pointer. The manager keeps only `first` and `last`. It never
allocates or frees a node. Each operation is a short run of pointer
updates. `Pop` unlinks a node. `AddAfter` and `AddBefore` splice a node
next to a reference node. `AddTail` and `AddHead` append and prepend.
`Swap` exchanges two nodes by calling the others.

The model has two modules:

- `ListSpec` (list_spec.dfy) is pure. It states the effect of each
  operation as a function on the sequence of nodes the list threads
  together: `Without` (pop), `MoveAfter` and `MoveBefore` (pop, then
  insert beside a reference), `Swapped` (exchange two positions) and
  `SwappedAsWritten` (what the C++ `Swap` actually does). The lemmas
  there prove what those effects are.
- `Lists` (list_manager.dfy) is imperative. `Node` is a class with
  mutable `next` and `prev` fields. `ListManager` is a class with `first`,
  `last` and a ghost sequence `elems`. `Valid()` ties `elems` to the
  pointers:
  - no node occurs twice;
  - consecutive nodes point at each other;
  - the chain ends in null on both sides;
  - `first` and `last` are its ends, and both are null when the list is
    empty.

  Every method updates the same fields in the same order as the C++,
  apart from the head repair in the corrected `Swap` (see "## Findings").
  Its postcondition gives the new `elems` as a `ListSpec` function of the old
  one, and keeps `Valid()`.

`Swap` calls `Pop`, `AddBefore` and `AddAfter` on intermediate lists.
`SwapEffect` follows those steps on sequences. `Lists.SwapEffectSwapped`
and `Lists.SwapEffectAsWritten` close the gap between the step-by-step
effect and the exchange of two positions.

Some groups of source statements are methods of their own:
- `LinkAfter` and `LinkBefore` are the linking halves of `AddAfter` and
  `AddBefore`.
- `PopAddBefore` is Swap's adjacent case.
- `SwapApart`, `PopPair`, `RelinkPair` and `RelinkNode` are its other case.

These methods contain the source's statements in the source's order. They
exist so that each proof stays small. `RelinkPair` has a ghost parameter
`home`, the list before the two nodes were popped. It names the nodes
`RelinkPair` may modify, and has no run-time meaning.

## Model

| member | source | states |
|---|---|---|
| Lists.ListManager.constructor | src/ListManager.h:37-41 | a new manager is valid and empty, with `first` and `last` null |
| Lists.ListManager.TraverseForward | src/ListManager.h:17-26 | in a valid list, following `next` from `first` k times reaches the k-th node, and reaches null after exactly as many steps as there are nodes (the chain is finite and acyclic) |
| Lists.ListManager.TraverseBackward | src/ListManager.h:17-26 | following `prev` from `last` visits the nodes in reverse and reaches null after exactly as many steps as there are nodes |
| Lists.ListManager.LinksConsistent | src/ListManager.h:17-26 | a listed node's successor and predecessor are listed and point back at it; a node's `next` is null exactly when it is `last`, and its `prev` is null exactly when it is `first` |
| Lists.ListManager.GetHead | src/ListManager.h:49-52 | returns `first`, which is the first node of a valid list, or null when the list is empty; changes nothing |
| Lists.ListManager.GetTail | src/ListManager.h:60-63 | returns `last`, which is the last node, or null when the list is empty; changes nothing |
| Lists.ListManager.GetNext | src/ListManager.h:73-76 | returns null for a null argument and otherwise the node's `next`, which for a listed node is the node after it in the list (null for the tail); changes nothing |
| Lists.ListManager.GetPrev | src/ListManager.h:86-89 | returns null for a null argument and otherwise the node's `prev`, which for a listed node is the node before it (null for the head); changes nothing |
| Lists.ListManager.Pop | src/ListManager.h:97-123 | null changes nothing. Otherwise the list becomes `Without(old list, obj)` and stays valid, and obj's links become null. When obj was first, `first` moves to its old `next`, and when it was last, `last` moves to its old `prev`; otherwise both stay. A node in no list leaves every listed node untouched |
| ListSpec.WithoutDistinct | src/ListManager.h:97-122 | popping keeps the list free of repetitions and leaves no copy of the popped node |
| ListSpec.WithoutPermutation | src/ListManager.h:97-122 | popping removes exactly one occurrence of the node (none when it is absent) and nothing else |
| ListSpec.WithoutMembers | src/ListManager.h:97-122 | popping adds no node and keeps every other node |
| ListSpec.RemoveMembers | src/ListManager.h:111-119 | unlinking position i keeps the other nodes in order: node k of the result is node k, or node k + 1 past i |
| ListSpec.RemoveEnds | src/ListManager.h:101-109 | unlinking keeps both ends unless the node unlinked was one of them, in which case its neighbour becomes that end |
| ListSpec.WithoutIdempotent | src/ListManager.h:97-122 | popping a node twice is popping it once |
| Lists.ListManager.AddAfter | src/ListManager.h:163-182 | with both arguments non-null, the list becomes `MoveAfter(old list, obj, ref)`: obj is popped from wherever it was and put right after ref. A null argument changes nothing. The list stays valid and gains no node but obj |
| Lists.ListManager.LinkAfter | src/ListManager.h:169-180 | puts a node that is in no list right after ref: the list becomes the old one with obj inserted after ref's position |
| ListSpec.MoveAfterSpec | src/ListManager.h:163-182 | after AddAfter(x, r) the list has no repetitions and x sits immediately after r |
| ListSpec.MoveAfterPermutation | src/ListManager.h:163-182 | AddAfter adds x when it was absent, and keeps every node otherwise |
| ListSpec.MoveAfterKeepsOthers | src/ListManager.h:163-182 | AddAfter leaves the other nodes in their order: removing x again gives the list with x popped |
| ListSpec.MoveAfterHas | src/ListManager.h:163-182 | after AddAfter(x, r) the list holds x and every node it held before |
| ListSpec.MoveAfterEnds | src/ListManager.h:172-179 | x becomes the tail exactly when r is the tail once x is popped; otherwise that tail stays, and the head does not change |
| Lists.ListManager.AddBefore | src/ListManager.h:191-210 | with both arguments non-null, the list becomes `MoveBefore(old list, obj, ref)`; a null argument changes nothing; the list stays valid |
| Lists.ListManager.LinkBefore | src/ListManager.h:197-208 | puts a node that is in no list right before ref: the list becomes the old one with obj inserted at ref's position |
| ListSpec.MoveBeforeSpec | src/ListManager.h:191-210 | after AddBefore(x, r) the list has no repetitions and x sits immediately before r |
| ListSpec.MoveBeforePermutation | src/ListManager.h:191-210 | AddBefore adds x when it was absent, and keeps every node otherwise |
| ListSpec.MoveBeforeKeepsOthers | src/ListManager.h:191-210 | AddBefore leaves the other nodes in their order |
| ListSpec.MoveBeforeHas | src/ListManager.h:191-210 | after AddBefore(x, r) the list holds x and every node it held before |
| ListSpec.MoveBeforeEnds | src/ListManager.h:200-207 | x becomes the head exactly when r is the head once x is popped; otherwise that head stays, and the tail does not change |
| Lists.ListManager.AddTail | src/ListManager.h:218-233 | appends a node that is in no list: the list becomes the old list plus obj, and obj is `last`. An empty list gets obj as `first` too; otherwise `first` stays |
| Lists.ListManager.AddHead | src/ListManager.h:241-256 | prepends a node that is in no list: the list becomes obj followed by the old list, and obj is `first`. An empty list gets obj as `last` too; otherwise `last` stays |
| Lists.ListManager.Swap | src/ListManager.h:127-154 | with head repair: for two different listed nodes the list becomes `Swapped(old list, i, j)` at their positions i and j. So the two trade places and every other node stays put. A null argument changes nothing |
| Lists.ListManager.SwapAsWritten | src/ListManager.h:127-154 | Swap as the C++ writes it: the list becomes `SwappedAsWritten(old list, i, j)`, and a node it leaves out of the list has both links null, so it can be popped or added again |
| Lists.ListManager.PopAddBefore | src/ListManager.h:132-141 | the adjacent case: Pop(obj) then AddBefore(obj, ref) turn the list into `MoveBefore(Without(old list, obj), obj, ref)` |
| Lists.ListManager.SwapApart | src/ListManager.h:142-152 | the case where neither node is the other's predecessor: the list becomes `SwapEffect(old list, obj1, obj2, toHead)` |
| Lists.ListManager.PopPair | src/ListManager.h:144-148 | saves obj1's predecessor, pops obj1, saves obj2's predecessor, pops obj2: the saved links are the predecessors in the list at that moment, and the list becomes the old one with both popped |
| Lists.ListManager.RelinkPair | src/ListManager.h:150-151 | puts obj1 back after prev2 and then obj2 after prev1 |
| Lists.ListManager.RelinkNode | src/ListManager.h:150-151 | one `AddAfter(obj, p)` of that case, where a null p leaves the list as it is; with toHead, a null p puts obj at the head instead |
| Lists.SwapEffectSwapped | src/ListManager.h:127-154 | the step-by-step effect of Swap with head repair, for two different nodes of a repetition-free list, is the exchange of their two positions |
| Lists.SwapEffectAsWritten | src/ListManager.h:127-154 | the step-by-step effect of Swap as the C++ writes it is `SwappedAsWritten` |
| Lists.SwapEffectKeeps | src/ListManager.h:142-152 | without the head repair, the only node the steps can leave out is one of the two arguments, and only when they are not adjacent: the first when the second had no predecessor once the first was popped, the second when the first had none |
| Lists.SwapEffectAdjacent | src/ListManager.h:132-141 | for adjacent nodes u, v in either argument order, the steps give `a + [v, u] + c` |
| Lists.SwapEffectApart | src/ListManager.h:142-152 | for non-adjacent nodes u, v in a + [u] + b + [r, v] + c, in either argument order, the steps give a + [v] + b + [r, u] + c. As written, when u is the head, they give b + [r, u] + c instead |
| ListSpec.SwappedSpec | src/ListManager.h:127-154 | exchanging positions i and j puts s[j] at i and s[i] at j and keeps every other position and the length |
| ListSpec.SwappedPermutation | src/ListManager.h:127-154 | the exchange is a permutation, symmetric in i and j, and undone by exchanging again |
| ListSpec.SwappedTwice | src/ListManager.h:127-154 | exchanging the same two nodes twice, each time at the positions they then hold, gives back the original list; with `Swap`'s contract this means two `Swap(a, b)` calls restore the list |
| ListSpec.SwappedDistinct | src/ListManager.h:127-154 | the exchange keeps the list free of repetitions |
| ListSpec.SwappedAsWrittenLosesNode | src/ListManager.h:142-152 | as written, when one of the two is the head and they are not adjacent, the list gets one node shorter and the node that was not the head is missing. In every other case the C++ `Swap` exchanges the two |
| ListSpec.SwappedAsWrittenExample | src/ListManager.h:142-152 | swapping the ends of [1, 2, 3] should give [3, 2, 1]; as written it gives [2, 1] |

## Left out

- src/align_same_func_call_params.h holds only two function prototypes and no behaviour, so it is not part of this model.
- The private copy constructor (src/ListManager.h:30-34) is left out. It only makes the class non-copyable.
- Nodes are a single concrete `Node` class rather than any `T` with `next`/`prev` members. Node ownership and lifetime are left out: the list never allocates or frees a node.
- Lists.ListManager.Pop, Lists.ListManager.AddAfter and Lists.ListManager.AddBefore require a non-null `obj` to be in this list or detached (both links null). The C++ also accepts a node of another list or one with stale links: `Pop` then rewrites the links of that node's neighbours, which corrupts the other list. That case is not modelled.
- Lists.ListManager.AddAfter and Lists.ListManager.AddBefore make that requirement on `obj` even when `ref` is null. In the C++ a null `ref` returns at once (src/ListManager.h:165-166, 193-194) whatever `obj` is, so there the requirement is stronger than the code needs.
- In Lists.ListManager.AddAfter and Lists.ListManager.AddBefore, `ref` must be in the list and differ from `obj`. `AddAfter(x, x)` and a foreign `ref` corrupt the list in the C++ and are not modelled.
- Lists.ListManager.AddTail and Lists.ListManager.AddHead take a non-null node that is not in the list. The C++ dereferences the argument unguarded and does not pop it first, so a listed node would create a cycle. That case is not modelled.
- Lists.ListManager.Swap and Lists.ListManager.SwapAsWritten require two different nodes of this list. These cases are not modelled:
  - `Swap(x, x)`: the C++ takes its general branch and puts x back after its own predecessor; a head passed twice drops out of the list.
  - a listed x and a detached y: the C++ again takes the general branch. y's saved predecessor is null, so x is popped and never put back. y takes x's place, unless x was the head, in which case y stays out of the list as well.
- The split of AddAfter, AddBefore and Swap into the helper methods listed under "## Model" and the ghost `home` parameter of RelinkPair change no behaviour. They only keep each proof small.

## Findings

| source | as written | input that shows it | evidently intended | confidence | as-written member | corrected member |
|---|---|---|---|---|---|---|
| src/ListManager.h:142-152 | in the non-adjacent case each node is put back with `AddAfter(node, saved prev)`, and `AddAfter` with a null reference does nothing (src/ListManager.h:165-166); so when one of the two was the head, the other is popped and never re-linked | list [1, 2, 3], `Swap(node 1, node 3)`: the list becomes [2, 1] and node 3 is in no list | the node whose saved predecessor is null goes to the head, giving [3, 2, 1] | not executed | Lists.ListManager.SwapAsWritten | Lists.ListManager.Swap |

The as-written side has `Lists.ListManager.SwapAsWritten`, whose effect is
`ListSpec.SwappedAsWritten`. `ListSpec.SwappedAsWrittenLosesNode` proves
that it drops a node in exactly that case, and
`ListSpec.SwappedAsWrittenExample` works through [1, 2, 3].
`Lists.SwapEffectKeeps` shows that no other node can go missing.
`SwapAsWritten` leaves the node it drops with both links null. The corrected
`Lists.ListManager.Swap` calls `AddHead` when the saved predecessor is null.
`Lists.SwapEffectSwapped` and `ListSpec.SwappedSpec` prove that it
exchanges the two nodes.
