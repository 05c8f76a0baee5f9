# Verification model of C Reusables

A Dafny model of the containers, allocators and codecs of this repository, with machine-checked proofs. Everything
that the C code changes in place is modelled as mutable heap state: tree and list nodes with pointer fields, path
stacks in fixed arrays, planes of hash chains, blocks and buffers. Each method is proved against a mathematical value,
and the promises of the documentation are proved about that value.

- **Red-black tree** (`RbModel`, `RbHeap`, `RbCursor`, `RbRun`): a tree without parent pointers, rebalanced along an
  explicit path of at most 128 slots. `RbModel` is the theory of a ghost tree with a hole and its surroundings;
  `RbHeap` proves the pointer code against it; `RbCursor` has lookups, cursors and tear-down; `RbRun` whole runs.
- **Dictionary** (`DictOrder`, `Dict`, `DictRun`): the tree of `data/value.c` with an insertion-order list through the
  same nodes and a counter, its two walks, and whole runs.
- **Value paths** (`PathSyntax`, `PathLaws`, `ValuePath`, `PathPromises`, `ValueArray`, `ValueDict`): the interpreter
  behind `value_path` and `value_build_path`, the laws of the path language and what callers may rely on in terms of path
  texts alone, the arrays it works on, and why the tree of a dictionary may be seen as a list of entries.
- **Hash table** (`HTable`, `HtRun`): planes of slots that grow and fold without rehashing, load bounds, whole runs.
- **CRC-32** (`Crc32Table`, `Crc32`), **Base64** (`SixBits`, `Base64`, `Base64Text`), **chunk allocator** (`MemChunk`,
  `MemChunkRun`), **buffer** (`Buffer`, `BufferRun`).
- `Keys`, `Powers` and `Cells` hold what several of these share. `Cells` says what a container owes its users: it
  behaves like one independent cell per class of equal keys.

How the model relates to the code:

- Each definition that several contracts share is also described a second time, by laws and values in the terms of the
  documentation: the order of keys, the path language, the alphabet, the checksum, the sizes.
- Payloads are byte strings and comparators are total orders on them; hashes agree with equality. The default dictionary
  comparator is proved to be such an order.
- The colour bit packed into a pointer is the field `red`. Integers are unbounded, except that a path index wraps
  around like a 64-bit `size_t` and the CRC register is a 32-bit word. Characters are bytes 0 to 255.
- Allocation success is an argument of each call that may allocate (`ok`, `alloc`, `memory`), so every failure path is
  covered. Destructors and `free` are methods that overwrite what they are given; the methods that call them return the
  list of what was destroyed, in order.
- The capacity theorems hold for every tree of fewer than 2^63 nodes (`FitsMemory`). Whole runs bound the nodes or
  keys involved, never the number of calls.
- A C function that is one loop with several cases is one method that calls a helper method per case; the comment above
  each helper names the C function.
- In `rbtree_remove`, and again in `value_dict_remove_`, the branch that would set the right child of the successor's
  parent can never run (`data/rbtree.c:402-403`): a successor deeper than the right child is always a left child.
- `data/rbtree.h:286-290` says that `rbtree_head` and `rbtree_tail` leave the cursor alone when the tree is empty. The
  code resets it, and the model follows the code.
- `data/value.h:105-107` rules out keys with a closing bracket. The code treats that byte specially only after an
  opening bracket, and the model follows the code: a key needs to avoid the zero byte, the slash and the opening bracket.
- `memchunk_alloc` with size 0 can return an offset beyond its block; the model states exactly when.
- `buffer_insert` of zero bytes into a buffer without memory reports failure although nothing failed; the model keeps
  this.

`dafny verify dfyconfig.toml` checks the project.

## Model

| member | source | states |
|---|---|---|
| DictOrder.DefaultCmpTotal | data/value.c:904-923 | The default comparator is a total order, and only identical keys are equal under it. |
| DictOrder.DefaultCmpLex | data/value.c:904-923 | A key is smaller exactly when it is a proper prefix or smaller at the first differing byte: lexicographic order, as the comment in the source promises. |
| RbModel.HeightTheorem | data/rbtree.h:251-258 | In a red-black tree of n nodes, 2 to the height is at most (n + 1) squared. |
| RbModel.EveryFocus | data/rbtree.c:90-106 | Every position of a red-black tree of fewer than 2^63 nodes satisfies the invariant (Focus) that all walks down the tree keep. |
| RbModel.Capacity | data/rbtree.h:251-258 | In every red-black tree of fewer than 2^63 nodes the path to any position, and on to any leaf below it, leaves two of the 128 slots free. |
| RbModel.FocusDepth | data/rbtree.h:251-258 | Where that invariant holds, the path leaves two of the 128 slots free. |
| RbModel.FocusHeight | data/rbtree.c:90-106 | Where that invariant holds, a walk down to any leaf below never leaves the 128 slots, even with two more entries pushed. |
| RbModel.DoubleRedGrandparent | data/rbtree.c:198-206 | While the insertion repair sees two reds in a row, a black grandparent exists. |
| RbModel.RecoloredProps | data/rbtree.c:235-243 | The red-uncle step keeps nodes and order, and leaves at most one red-red edge or a red root, two levels up. |
| RbModel.StraightenedOuter | data/rbtree.c:207-218 | After the first rotation of the black-uncle case the red-red edge lies on the outer side and all parts have equal black height. |
| RbModel.DeficitSibling | data/rbtree.c:309-313 | While a black node is missing below, the sibling exists and one more path slot is free. |
| RbModel.RehungProps | data/rbtree.c:315-328 | The red-sibling step keeps nodes and order, keeps the deficit where it is, and decreases the termination measure although the path gets longer; afterwards there is a red parent over a black sibling, which the step excludes. |
| RbModel.LightenedProps | data/rbtree.c:358-361 | Making a black sibling red moves the deficit one level up and decreases the termination measure; under a red parent the next round is the last. |
| RbModel.BorrowedSound | data/rbtree.c:330-356 | The last rotation of the removal repair leaves no defect: equal black heights, no red-red edge. |
| RbModel.BorrowedWhole | data/rbtree.c:330-356 | Both rotations of that case keep the in-order sequence and the nodes. |
| RbModel.ExchangeSound | data/rbtree.c:383-442 | Trading places and colours with the successor keeps all red-black rules around the sunk node. |
| RbModel.ExchangeOrder | data/rbtree.c:383-456 | Dropping the sunk node afterwards loses exactly that node from the in-order sequence. |
| RbModel.LookupStep | data/rbtree.c:150-171 | A step of the search never leaves an equal node behind. |
| RbModel.LookupDecides | data/rbtree.c:150-171 | Where the search ends decides whether an equal node exists. |
| RbHeap.WhichSide | data/rbtree.c:309-313 | Comparing with a child pointer, even a NULL one, tells the side of the hole, because hole and sibling are never both missing. |
| RbHeap.LeftmostPath | data/rbtree.c:90-97 | Appends the left spine to the path, inside the array. |
| RbHeap.RightmostPath | data/rbtree.c:99-106 | Appends the right spine to the path, inside the array. |
| RbHeap.RbTree.RotateLeft | data/rbtree.c:52-69 | The heap afterwards is the rotated tree in unchanged surroundings. |
| RbHeap.RbTree.RotateRight | data/rbtree.c:71-88 | The heap afterwards is the rotated tree in unchanged surroundings. |
| RbHeap.RbTree.LookupPath | data/rbtree.c:149-171 | The path ends at the equal node, or at the parent of the empty place where one belongs, on the side the last comparison tells; all other keys lie on their proper sides. |
| RbHeap.RbTree.InsertFixup | data/rbtree.c:173-245 | From a tree whose only defect is one red-red edge or a red root at the end of the path, ends in a red-black tree with the same in-order sequence. |
| RbHeap.RbTree.DoubleRedStep | data/rbtree.c:200-243 | One round below a red parent: the tree is repaired, or its one defect moves two levels up; the in-order sequence stays. |
| RbHeap.RbTree.Insert | data/rbtree.c:247-281 | Keeps the tree a sorted red-black tree; returns -1 and changes nothing exactly when an equal node exists, and otherwise adds exactly the node. |
| RbHeap.RbTree.RemoveFixup | data/rbtree.c:283-362 | From a tree with one black node missing below the end of the path, terminates in a red-black tree with the same in-order sequence; the red-sibling step, which lengthens the path, runs at most once. |
| RbHeap.RbTree.BlackSibling | data/rbtree.c:330-361 | One round with a black sibling: the deficit is repaired, or it moves up and the termination measure decreases; under a red parent it moves to a red node, where it ends. The in-order sequence stays. |
| RbHeap.RbTree.RedSibling | data/rbtree.c:315-328 | The red-sibling step on heap and path, which it lengthens by one; it cannot come again afterwards. |
| RbHeap.RbTree.RemoveBorrow | data/rbtree.c:330-356 | Black sibling with a red child: heap, order and red-black rules after both rotations. |
| RbHeap.RbTree.RemoveRecolor | data/rbtree.c:358-361 | Black sibling with black children: heap, path and deficit after the recolouring. |
| RbHeap.RbTree.SwapDeep | data/rbtree.c:390-441 | The pointer swap with a successor deeper in the right subtree yields exactly the exchanged tree. |
| RbHeap.RbTree.SwapDirect | data/rbtree.c:407-441 | The pointer swap with a successor that is the right child yields exactly the exchanged tree. |
| RbHeap.RbTree.Sink | data/rbtree.c:383-442 | Afterwards the node to remove has at most one child, the path leads to it, and dropping it loses only it from the order. |
| RbHeap.RbTree.Splice | data/rbtree.c:444-457 | The only child replaces the node in the tree and on the path; the colour rules hold, or exactly one black node is missing below the path, depending on the colour of the node. |
| RbHeap.RbTree.Remove | data/rbtree.c:364-463 | Keeps the tree a sorted red-black tree; returns NULL exactly when no equal node exists, and otherwise returns the equal node and takes exactly it out of the order. |
| Cells.ShowsStep | data/rbtree.h:206-218 | One insertion or removal on a set of nodes follows the cell of its key class and leaves all other cells alone. |
| Cells.ShowsHas | data/rbtree.h:206-225 | A lookup finds a node exactly when the cell of its key holds one, and then that one. |
| RbRun.Run | data/rbtree.c:247-463 | Every run of insertions and removals on an empty tree, of any length, that inserts fewer than 2^63 different nodes returns, call by call, what one independent cell per key class predicts. |
| RbRun.Find | data/rbtree.c:465-483 | After any run a lookup returns exactly the content of the cell of its key. |
| RbCursor.TrailInjective | data/rbtree.c:485-569 | A cursor denotes at most one position of the in-order sequence. |
| RbCursor.TrailPlug | data/rbtree.c:485-569 | The cursor for a position inside a subtree is the path to the subtree followed by the cursor inside it. |
| RbCursor.Lookup | data/rbtree.c:465-483 | Returns an equal node exactly when there is one. |
| RbCursor.LookupEx | data/rbtree.c:485-500 | As lookup, and the cursor stands at the position of the node found, or is empty. |
| RbCursor.Current | data/rbtree.c:502-506 | Returns the node at the position of the cursor, or NULL for an empty cursor. |
| RbCursor.Head | data/rbtree.c:509-515 | Returns the first node and puts the cursor there; an empty tree gives NULL and an empty cursor, which is a change exactly when the cursor was not empty. |
| RbCursor.Tail | data/rbtree.c:517-523 | Returns the last node and puts the cursor there; an empty tree gives NULL and an empty cursor, which is a change exactly when the cursor was not empty. |
| RbCursor.Next | data/rbtree.c:525-546 | Moves to the next position and returns its node, or returns NULL at the last one and keeps the cursor. |
| RbCursor.Prev | data/rbtree.c:548-569 | Moves to the previous position and returns its node, or returns NULL at the first one and keeps the cursor. |
| RbCursor.NextPrev | data/rbtree.c:525-569 | prev after next restores the cursor slot for slot. |
| RbCursor.Walk | data/rbtree.h:228-246 | The documented loop visits every node once, in increasing order. |
| RbCursor.FiniStep | data/rbtree.c:109-130 | Takes the first node out of the order and out of the linked nodes, also when earlier steps have destroyed colours. |
| RbCursor.Fini | data/rbtree.h:147-163 | Repeating the step, with each node freed before the next one, returns every node once, in increasing order, and ends with an empty tree; no step depends on a freed node or writes to it. |
| Dict.Dict.constructor | data/value.c:488-499 | A new dictionary is empty and consistent. |
| Dict.InitDict | data/value.c:472-502 | Answers -1 exactly when there is no value, or no payload for it, and then leaves a null value; otherwise the value holds a new empty dictionary with the given comparator, or the default one, and with an order list as asked. |
| Dict.Dict.Get | data/value.c:1013-1032 | Returns a node with an equal key exactly when there is one. |
| Dict.Dict.LinkOrder | data/value.c:1198-1208 | The new node becomes the last of a list that is well linked both ways. |
| Dict.Dict.UnlinkOrder | data/value.c:1425-1436 | The list loses exactly the node and stays well linked both ways. |
| Dict.Dict.GetOrAdd | data/value.c:1158-1227 | Tree, list and counter stay in step; an equal key returns its node and changes nothing, a failed allocation changes nothing, and otherwise one new node appears in the tree and at the end of the list. |
| Dict.Dict.FixAfterRemove | data/value.c:1235-1316 | As rbtree_remove_fixup, with the early end at a red parent; here too the red-sibling step runs at most once. |
| Dict.Dict.BlackSibling | data/value.c:1275-1314 | With a black sibling the deficit is either repaired or moves one level up, with the same in-order sequence. |
| Dict.Dict.SwapColours | data/value.c:1303-1309 | With a red parent and a black sibling without red children, swapping their colours repairs the deficit. |
| Dict.Dict.Remove | data/value.c:1318-1443 | Tree, list and counter stay in step; returns -1 and changes nothing exactly when the key is missing, and otherwise takes the node with that key out of all three and frees it; nothing depends on the freed node. |
| Dict.Dict.WalkOrdered | data/value.c:1451-1470 | Visits the insertion order until the visitor answers non-zero, and returns that answer; -1 without an order list. |
| Dict.Dict.WalkSorted | data/value.c:1472-1495 | Visits the in-order sequence until the visitor answers non-zero, never leaving its 128 stack slots. |
| Dict.WalkStops | data/value.c:1451-1495 | A walk goes through the whole order while the visitor answers zero, and ends right after its first other answer, which it returns. |
| Dict.SpineDue | data/value.c:935-946 | Pushing a left spine onto the stack of the walk owes exactly the subtree it was taken from, in order. |
| Dict.PushSpine | data/value.c:935-946 | The stack holds what is owed, inside the array. |
| DictRun.Run | data/value.c:1158-1443 | In any run, of any length, in which never 2^63 keys are live: every call returns what one cell per key class predicts, the very node included, so a key class keeps its node until it is removed; the counter tells the number of surviving keys; an order list holds them in insertion order. |
| DictRun.WalksAgree | data/value.c:1451-1495 | Both walks visit the same nodes once each, as many as the counter says, the sorted one in strictly increasing order. |
| DictRun.LosesKey | data/value.c:1318-1443 | Taking the one node with an equal key out of the list removes that key class and nothing else from the list of keys. |
| PathSyntax.RenderParses | data/value.h:105-134 | Every list of spellable components has a path that the tokenizer splits into exactly it. |
| PathSyntax.TextClassified | data/value.c:246-294 | Names, indices, negative indices and the empty brackets are each recognized as what they spell. |
| ValuePath.ParseIndex | data/value.c:254-272 | The bracket parser recognizes sign, index and errors exactly as the component grammar says. |
| ValuePath.ArrayAppend | data/value.c:809-835 | Appends one new value at the end, or changes nothing. |
| ValuePath.DictGetOrAdd | data/value.c:1158-1227 | Returns the value of the key, adding a new one at the end when there is none. |
| ValueDict.NewDict | data/value.c:488-499 | A new dictionary stands for the empty list of entries. |
| ValueDict.TreeFinds | data/value.c:1013-1032 | What the search in the tree finds is what the list of entries, the view of a dictionary in the path interpreter, finds. |
| ValueDict.GetOrAdd | data/value.c:1158-1227 | On the tree with its order list, the call does to the list of entries exactly what ValuePath.DictGetOrAdd does. |
| ValueArray.GoodCapacity | data/value.c:724-750 | The result is the smallest capacity of the ladder 1, 2, 4, 8, 16, 30, 62, ... that holds the request. |
| ValueArray.Capacities | data/value.c:724-750 | Up to 30 and 62 values: requests of 1, 2, 3, 5, 9, 17 and 31 get 1, 2, 4, 8, 16, 30 and 62. |
| ValueArray.OneGood | data/value.c:724-750 | There is only one such capacity; in bytes it is a rung of the ladder of the byte buffer. |
| ValueArray.ValueArray.Insert | data/value.c:809-835 | A new value appears at the index and the others keep their order; the items move to another block exactly when the old one was full; NULL exactly for an index out of range or a failed allocation that was needed. |
| ValueArray.ValueArray.RemoveRange | data/value.c:843-864 | The range is destroyed, in order, and the others keep their order; the items move exactly when less than a quarter of the block is used and the smaller block can be had; -1 exactly for a range outside. |
| ValueArray.ValueArray.Clean | data/value.c:866-880 | Every item is destroyed once and the block is given back. |
| ValuePath.FollowGrows | data/value.h:138-148 | Building never breaks an address: any path without negative indices, and every path if no array grew, still finds the same value. |
| ValuePath.FollowSnoc | data/value.c:235-311 | Following a longer path is following the shorter one and then the last component. |
| ValuePath.MakeChild | data/value.c:274-304 | Adding a child makes exactly that component findable, extends the heap only at its end, and leaves every other value alone. |
| ValuePath.Component | data/value.c:254-307 | One component in either mode: reading returns the named child; building returns the same child unchanged, or a new one, and fails exactly when the component cannot be made; heap and result are given to the last detail, down to the kind and the comparator of a container made on the way. |
| ValuePath.PathEx | data/value.c:235-311 | Reading returns the value the components name. Building returns that same value and changes nothing if it exists; otherwise the result is a new value; if nothing asks for an append, reading finds the result afterwards; with enough memory it succeeds exactly when the path can be built. A building call is exactly the sequence of its rounds, up to the first that gives NULL. |
| ValuePath.Path | data/value.c:313-317 | value_path returns the value that the components of the path name, or NULL. |
| ValuePath.BuildPath | data/value.c:319-323 | value_build_path, with the promises of the interpreter in building mode. |
| PathLaws.EmptyPath | data/value.h:119 | The empty path names the root itself. |
| PathLaws.LeadingSlash | data/value.c:242-243 | A slash before a path means nothing. |
| PathLaws.ZeroEnds | data/value.c:245-247 | A zero byte ends a path. |
| PathLaws.Splits | data/value.c:248-251 | A path splits before every slash, opening bracket or zero byte into two paths, whose components follow each other. |
| PathLaws.NameComponent | data/value.c:293-304 | Text without those bytes is one name. |
| PathLaws.BracketComponent | data/value.c:248-254 | An opening bracket and text without those bytes is one component: an index if it ends with a closing bracket, and otherwise a name. |
| PathLaws.IndexInside | data/value.c:254-272 | A sign, decimal digits and a closing bracket make an index, from the end for a minus; nothing between the brackets asks for an append; what follows the first closing bracket is ignored, and missing digits count as zero. |
| PathLaws.MalformedInside | data/value.c:270-272 | Anything else between brackets is malformed. |
| PathLaws.NumberMeans | data/value.c:266-269 | An index is the number that its decimal digits spell, each counted for its place, modulo 2^64. |
| PathPromises.FollowConcat | data/value.c:235-311 | A path that splits in two is read in two steps. |
| PathPromises.ReadItem | data/value.h:109-114 | On an array of n items, "[k]" gives item k and "[-k]" item n - k, in decimal, and NULL when there is none: "[-1]" is the last item. |
| PathPromises.FindMeans | data/value.c:1013-1032 | A key finds the first entry with an equal key, and NULL when there is none. |
| PathPromises.WrongContainer | data/value.h:121-136 | A name finds nothing outside a dictionary, an index nothing outside an array, and empty or malformed brackets nothing at all when reading. |
| PathPromises.BuildNames | data/value.h:138-163 | Names built one after the other on a new root get one value per different byte string; reading finds exactly the value built for the name, and NULL for a name never built. |
| PathPromises.AppendThenLast | data/value.h:150-158 | After value_build_path of a path with empty brackets behind it, value_path of the same path with "[-1]" behind it gives that same value, if no value contains itself. |
| PathPromises.DictionariesByBytes | data/value.c:293-297 | Every dictionary that building makes, also along the way, compares keys byte by byte. |
| PathPromises.IndexOnNew | data/value.c:274-291 | An index on a new value makes it an empty array and gives NULL. |
| PathPromises.WrongKind | data/value.c:274-305 | Building a name or an append below a value that is neither new nor a container gives NULL and changes nothing. |
| ValuePath.BuildThenRead | data/value.h:138-163 | Building and then reading a path without empty brackets gives the value just built; an existing one is returned without any change. |
| HTable.PlaneSizes | data/htable.c:28-35 | The planes have 59, 118, 236 slots and so on, each 59 more than all before it together. |
| HTable.SlotExamples | data/htable.c:98-109 | Hashes 58, 59 and 1000 pick the slots 58, 0 and 56 of the first plane. |
| HTable.SlotPeriod | data/htable.c:98-109 | A hash below the size of a plane is its own slot there, and the slots repeat with that size. |
| HTable.FoldIndex | data/htable.c:98-109 | Reducing a slot index modulo the smaller plane gives the slot of the hash in that plane. |
| HTable.GrowSettles | data/htable.c:192-196 | One more plane ends fullness and does not cause emptiness. |
| HTable.ShrinkSettles | data/htable.c:237-238 | One plane less ends emptiness and does not cause fullness. |
| HTable.PushedShape | data/htable.c:198-203 | Putting a node at the head of the slot of its hash keeps every node in its slot. |
| HTable.FoldedShape | data/htable.c:98-111 | Joining a slot of the last plane to slot i % prev_plane_size of the previous one keeps every node in the slot of its hash, without a loss or a duplicate. |
| HTable.Table.LookupInternal | data/htable.c:117-151 | Finds an equal node exactly when some plane holds one, with the pointer that leads to it. |
| HTable.Table.Grow | data/htable.c:37-61 | Adds an empty plane, moving no node, when both allocations succeed; fails exactly when the plane body, or the first plane array, cannot be had. |
| HTable.Table.InsertInternal | data/htable.c:178-205 | Returns -1 and changes nothing exactly for an equal node or when a needed grow step fails; otherwise adds exactly the node, in the last plane. |
| HTable.Table.FoldSlot | data/htable.c:98-111 | One round of the merge loop on the heap. |
| HTable.Table.Shrink | data/htable.c:76-115 | Frees everything when empty; otherwise folds the last plane into the one before it and keeps all nodes. |
| HTable.Table.Lookup | data/htable.c:243-251 | Returns an equal node of the table exactly when there is one. |
| HTable.Table.Remove | data/htable.c:221-241 | Returns NULL exactly when no equal node exists; otherwise takes exactly that node out, and shrinks when too empty. |
| HtRun.LoadAfterInsert | data/htable.c:31-34 | Both load bounds survive an insertion that grows exactly when the table is full. |
| HtRun.LoadAfterRemove | data/htable.c:31-34 | Both load bounds survive a removal with its shrink. |
| HtRun.Run | data/htable.c:178-241 | Every run, with any allocation failures, obeys one cell per key class; n >= floor(slots / 4) with two or more planes always, and n <= slots as long as allocations succeed. |
| HtRun.Find | data/htable.c:243-251 | After any run a lookup returns exactly the content of the cell of its key. |
| HtRun.Fini | data/htable.c:153-176 | With a destructor every node is destroyed exactly once, no step depends on a node after that, and none writes to it: it ends as the destructor left it. Without one no node changes. The table ends empty. |
| Crc32Table.StepXor | hash/crc32.c:59-64 | One shift of the register distributes over exclusive or. |
| Crc32Table.StepsXor | hash/crc32.c:59-64 | So does any number of shifts. |
| Crc32Table.TableEntry | hash/crc32.c:58-66 | The inner loop of the generator shifts its index eight times. |
| Crc32Table.BuildTable | hash/crc32.c:51-68 | The generator fills the array with exactly the table in the source. |
| Crc32Table.EntryCorrect | hash/crc32.c:82-115 | Every one of the 256 literals is its index after eight shifts. |
| Crc32.FeedWord | hash/crc32.c:127-128 | Feeding n message bits one at a time is xoring them in at once and shifting n times. |
| Crc32.TableStep | hash/crc32.c:127-128 | One table lookup does what eight bits fed one at a time do. |
| Crc32.Crc32 | hash/crc32.c:120-131 | The table-driven loop computes the bit-at-a-time reflected register with the polynomial 0xedb88320 (section 8 of RFC 1952). |
| Crc32.Complemented | hash/crc32.c:117-130 | The preset of all ones and the final complement: the checksum is that of a zero register fed with the first 32 bits complemented, and then complemented itself. |
| Crc32.EmptyChecksum | hash/crc32.c:117-131 | The empty message has checksum 0. |
| Crc32.CheckValue | tests/test-crc32.c:38-44 | The checksum of "123456789" is 0xcbf43926. |
| Crc32.BurstDetected | hash/crc32.h:37-47 | Two messages of equal length that differ only inside a window of 32 bits never share a checksum. |
| Crc32.ChangeDetected | hash/crc32.h:37-47 | Changing up to four consecutive bytes always changes the checksum. |
| SixBits.SextetsMean | encode/base64.c:82-118 | The six-bit groups spell the bits of the bytes, followed by fewer than six zero bits (section 4 of RFC 4648). |
| SixBits.SextetsBack | encode/base64.c:82-220 | Decoding the groups gives the bytes back. |
| SixBits.OctetsBack | encode/base64.c:166-220 | Every group sequence the validation lets through is the encoding of the bytes it decodes to. |
| Base64.UnambiguousValues | encode/base64.c:153-158 | The decoding table undoes the encoding table exactly when the 62nd and 63rd characters differ from each other and from the core. |
| Base64.StripsPadding | encode/base64.c:144-151 | When the pad character is outside the alphabet, stripping removes exactly the padding. |
| Base64.RoundTripExactly | encode/base64.c:39-223 | Decoding undoes encoding for all inputs if and only if the 62nd and 63rd characters are unambiguous and the pad, if any, is outside the alphabet. |
| Base64.DecodeEncode | encode/base64.h:68-82 | With such an alphabet decoding undoes encoding, padded or not. |
| Base64.Canonical | encode/base64.c:144-188 | For every alphabet, an accepted text without its padding is the encoding of what it decodes to (section 3.5 of RFC 4648). |
| Base64.MeaningDecidesText | encode/base64.c:144-188 | Two accepted texts that decode alike differ only in padding. |
| Base64.AcceptedExactly | encode/base64.c:144-188 | With an unambiguous alphabet a text decodes to given bytes exactly when it is their encoding, apart from padding. |
| Base64Text.DecodedExactly | encode/base64.c:144-188 | With an alphabet that works, a text decodes to given bytes exactly when it is their encoding with the padding, or without it; nothing else is accepted. |
| Base64Text.AcceptedShape | encode/base64.c:144-151 | For every alphabet an accepted text is the encoding of its bytes, followed by nothing or by one or two pad characters that fill the last group of four. |
| Base64Text.FirstLetters | encode/base64.c:35-36 | The values 0 to 15 are written ABCDEFGHIJKLMNOP (Table 1 of RFC 4648). |
| Base64Text.SecondLetters | encode/base64.c:35-36 | The values 16 to 31 are written QRSTUVWXYZabcdef. |
| Base64Text.ThirdLetters | encode/base64.c:35-36 | The values 32 to 47 are written ghijklmnopqrstuv. |
| Base64Text.LastLetters | encode/base64.c:33-36 | The values 48 to 63 are written wxyz0123456789+/, and padding is =, with the default options. |
| Base64Text.OptionsDecide | encode/base64.c:73-76 | The options decide the last two characters of the alphabet and no other. |
| Base64Text.OneByte | encode/base64.c:95-107 | A last single byte is written as its upper six bits, its lower two bits shifted by four, and two pad characters. |
| Base64Text.TwoBytes | encode/base64.c:108-118 | Two last bytes are written as three characters, six bits each, and one pad character. |
| Base64Text.ThreeBytes | encode/base64.c:82-93 | Three bytes are written as four characters, six bits each. |
| Base64Text.GroupByGroup | encode/base64.c:82-93 | What follows a group of three bytes does not change its characters. |
| Base64Text.Vectors | tests/test-base64.c:36-46 | The test vectors of section 10 of RFC 4648. |
| Base64Text.Refusals | encode/base64.c:61-63 | Three characters with padding and a character outside the alphabet are refused with -EINVAL, too small a buffer with -ENOBUFS. |
| Base64Text.Terminators | encode/base64.c:120-124 | Encoding ends with a zero byte where there is room, decoding does not, and neither touches what lies behind. |
| Base64.EncodeGroups | encode/base64.c:82-93 | The main loop writes the text of all whole groups. |
| Base64.EncodeTail | encode/base64.c:95-118 | The tail of one or two bytes is written, with its padding, which completes the encoding. |
| Base64.Encode | encode/base64.c:39-125 | The query result is one more than the characters written; too small a buffer is refused untouched; otherwise exactly the encoding is written, terminated where there is room, and nothing else changes. |
| Base64.StripPadding | encode/base64.c:144-151 | At most two pad characters that fill a group of four are ignored. |
| Base64.DecodeTable | encode/base64.c:153-158 | The table holds for every character the value the alphabet gives it, or 0xff. |
| Base64.Validate | encode/base64.c:160-188 | Accepts exactly known characters with a length and last bits that encoding can produce, and computes the size of the output. |
| Base64.DecodeGroups | encode/base64.c:197-208 | The main loop writes the bytes of all whole groups. |
| Base64.DecodeTail | encode/base64.c:210-220 | The tail of two or three characters gives the last one or two bytes. |
| Base64.Decode | encode/base64.c:127-223 | Invalid text is refused, too small a buffer is refused untouched, the query result equals the bytes written, and exactly the decoded bytes are written. |
| MemChunk.State.TakeSound | mem/memchunk.c:96-100 | Serving a request from the head block keeps regions disjoint and inside, unless the request is empty and the offset lies beyond the block. |
| MemChunk.State.BigSound | mem/memchunk.c:52-79 | A dedicated block for a big request keeps all invariants, waste bound included. |
| MemChunk.State.NewHeadSound | mem/memchunk.c:80-93 | Giving up the rest of the head block wastes at most a quarter of it. |
| MemChunk.State.WasteBound | mem/memchunk.c:53-63 | The payload reserved is at most 4/3 of the bytes requested plus one block. |
| MemChunk.EmptyRequestEscapes | mem/memchunk.c:53-100 | After a first big request an empty request is answered with an offset beyond its block exactly when that block is smaller than a standard one. |
| MemChunk.EmptyRequestRun | mem/memchunk.c:33-101 | A run that shows it: init with 1024, then requests of 300 and of 0 bytes. |
| MemChunk.SmallAroundBig | tests/test-memchunk.c:53-83 | Small requests lie one behind the other in the same block of 1024 bytes, also after a big one, which gets a block of its own size. |
| MemChunk.BigFromAQuarter | mem/memchunk.c:53-63 | Requests of 256 bytes come out of a block of 1024, requests of 257 get a block of their own. |
| MemChunk.Chunk.Alloc | mem/memchunk.c:45-101 | Every region handed out is disjoint from all others, and lies inside its block exactly when the request is non-empty or the head block is large enough; which block serves a request is fixed by size and room, and so is the whole new state. |
| MemChunk.Chunk.Fini | mem/memchunk.c:103-113 | Frees every block exactly once, never looking at a freed one. |
| MemChunkRun.Run | mem/memchunk.c:33-113 | Any run of requests from init to fini, with any allocation failures: a request is refused only for lack of memory, all regions are disjoint and the non-empty ones inside their blocks, the payload reserved is at most 4/3 of the bytes granted plus one block, and in the end every block is freed exactly once. |
| Buffer.GoodAllocSize | data/buffer.c:31-56 | The result is the smallest size of the ladder 16, 32, ..., 256, 480, 992, ... that holds the request. |
| Buffer.Ladder | data/buffer.c:31-56 | The ladder starts with 16, 32, 64, 128, 256, 480, 992, 2016; from 480 on each size plus 32 doubles. |
| Buffer.LeastIsUnique | data/buffer.c:31-56 | There is only one such size. |
| Buffer.GrowthFactor | data/buffer.c:31-56 | Growing past one size of the ladder means growing by at least a half. |
| Buffer.Buffer.Realloc | data/buffer.c:59-82 | Contents are kept up to the new capacity; failure changes nothing. |
| Buffer.Buffer.Reserve | data/buffer.c:84-96 | Makes room in a ladder size without touching the contents. |
| Buffer.Buffer.Shrink | data/buffer.c:98-106 | Never loses a byte. |
| Buffer.Buffer.InsertRaw | data/buffer.c:108-121 | Opens a gap between what was before and behind the offset; NULL exactly for a failed allocation or an empty gap in a buffer without memory. |
| Buffer.Buffer.Insert | data/buffer.c:123-134 | The contents become front, inserted bytes, back; on failure they are unchanged. |
| Buffer.Buffer.Remove | data/buffer.c:136-158 | The contents lose exactly the range; giving memory back never truncates. |
| Buffer.Buffer.Tighten | data/buffer.c:150-157 | Memory is given back exactly when less than a quarter is used, the new size is below half the old one and realloc succeeds; no byte is lost. |
| Buffer.AmortizedStep | data/buffer.c:84-121 | One growth step keeps the bound on bytes moved so far, even if it moves the whole old block. |
| Buffer.AppendAll | data/buffer.c:31-121 | Appending chunks to an empty buffer gives their concatenation, and reallocation moves at most three times the final size, even if it always moves the whole old block. |
| BufferRun.CreditGrows | data/buffer.c:84-121 | Growth is paid for: what has been saved since the last reallocation, and four bytes per byte inserted, cover moving the whole old block. |
| BufferRun.CreditShrinks | data/buffer.c:150-157 | Giving memory back is paid for in the same way, up to 60 bytes. |
| BufferRun.Run | data/buffer.c:59-158 | Any run of insertions and removals in range, with any allocation failures, behaves like a list of bytes; reallocation moves at most four bytes per byte inserted or removed, plus 60 per call; memory is held exactly while there are bytes; and as long as allocations succeed the capacity is at most eight times the size plus 61. |

## Left out

- Comparator and hash callbacks are assumed to be consistent total orders and functions; what the containers do with
  others is not modelled.
- Typed payload access (`container_of` macros), bit packing of pointers and inline storage of values: plain fields here.
- Overflow of sizes and counters (`59 << k` as an int, 32-bit sizes, the `int` index in `crc32`) is not modelled.
- `value_dict_keys_sorted` and `value_dict_keys_ordered` are the two walks with a size limit; `value_dict_clean` walks
  like the sorted one.
- Value payloads, numeric conversions, strings and `value_is_compatible` are not part of this model.
- ValuePath.DictGetOrAdd: keeps the entries of a dictionary as a list in insertion order with its comparator; that the
  tree finds and adds them in the same way is the subject of `ValueDict`.
- ValuePath.ArrayAppend: elements are values with an identity of their own; when growing moves them in memory, and to
  what capacity, is the subject of `ValueArray`.
- Dict.Dict.GetOrAdd: reuses the insertion of the tree model, because the dictionary repeats that code; the values
  stored beside the keys are not modelled.
- Buffer.AppendAll: counts the bytes moved by growth only, not the copy of each chunk.
- Buffer.Buffer.InsertRaw: needs an offset inside the contents, as the code does.
- Dict.Dict.Remove: the clean-up of the key and the value inside a removed node is not modelled, only that of the node.
- The typed wrappers around the buffer repeat the buffer.
- `encode/hex.c`, `hash/fnv1a.c`, `data/list.h`, `misc/`, `win32/` and `mem/malloca.h` would add only easy members.
