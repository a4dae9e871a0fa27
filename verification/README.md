# s21 containers in Dafny

A verified model of the s21 containers library, a C++ re-implementation of
part of the standard container library. The model covers these parts.

- **The red-black tree engine** (`RBTree.h`), with its in-order iterator.
  It stores `(key, payload)` pairs under unique keys in a binary search
  tree, and rebalances with rotations and recolouring. Every node's empty
  link points to the tree's own black sentinel node.
- **The three associative containers built on that engine:**
  - `map` (`s21_map.h`): key to value;
  - `set` (`s21_set.h`): keys with a `true` payload;
  - `multiset` (`s21_multiset.h`): one node per distinct key, whose payload
    is the occurrence count, plus a separate occurrence counter.
- **The sequence containers:**
  - `Vector` (`s21_vector.h`): a growable buffer that doubles when full;
  - `List` (`s21_list.h`): a singly linked list with a front link and a back
    link;
  - `Array` (`s21_array.h`): a fixed number of elements.
- **The two adapters:** `stack` over `Vector` (`s21_stack.h`), and `queue`
  over `Vector` with a front and a rear index (`s21_queue.h`).

## How the model is built

**Tree nodes are values.** A tree is a `Tree<V>` value, and `Nil` is the
sentinel; `Nil` is black by definition, so a colour write to it changes
nothing. Parent pointers are a zipper: a position in a tree is a subtree
together with a `Path` of the parent links above it.
- A rotation is a function on a subtree, plugged back in at the same path.
- `FixInsert` is a recursive function, as in the source.
- `FixDelete`, `FindNode`, `InsertNode`, `Minimum`, `Maximum` and the
  iterator's `++` and `--` are methods with the source's loops.

**What a tree stands for.**
- `Elements(t)` is its in-order pair sequence. The search-tree order is
  `Ascending(Elements(t))`, and the key-to-payload map is
  `MapOf(Elements(t))`.
- The red-black invariants are `RedBlack(t)`: a black root, no red node with
  a red child, and the same black height on every path.

**Keys are `int`.** The source compares keys with `<`, and any totally
ordered key behaves the same.

**Objects the source updates in place are classes.**
- `RBTree` keeps a root and a node counter.
- `Map`, `Set` and `Multiset` each hold an `RBTree`.
- `Vector` keeps an `array` buffer and a size; the capacity is the buffer's
  length.
- `List` keeps its values as a sequence, the node counter, and a flag saying
  whether an empty list's back link was left set instead of nulled.
- `FixedArray` (for `Array`) is a fixed `array`.
- `Stack` and `Queue` hold a `Vector`.

**Errors.** Every `throw` of the source is an `Outcome.Result` failure that
names the exception: `LogicError`, `OutOfRange` or `InvalidArgument`. A
returned null pointer is `None`.

**Iterators.**
- A tree iterator is a `Cursor`: a node, its path, and the `end` flag. It
  stands for an in-order index.
- A multiset iterator adds the occurrence index.
- A `List` iterator is a position in the sequence, and `end()` is the
  length.
- A `Vector` iterator is an offset from `begin()`.

## Model

| member | source | states |
|---|---|---|
| RBTreeShape.Paint | src/headers/RBTree.h:419 | a colour write changes one node's colour and nothing else, leaves the sentinel black, and keeps the in-order contents |
| RBTreeShape.MapOfSize | src/headers/RBTree.h:43 | with ascending keys, the map has exactly as many keys as the tree has pairs, so the node counter is the key count |
| RBTreeShape.PlugFits | src/headers/RBTree.h:416-446 | a subtree of the right black height and colour, plugged into a compatible hole, gives a valid red-black tree |
| RBTreeBalance.TurnLeft | src/headers/RBTree.h:374-393 | the right child takes the node's place, the node becomes its left child, the pivot's left subtree moves across, and the in-order contents are unchanged |
| RBTreeBalance.TurnRight | src/headers/RBTree.h:395-414 | the mirror image of `TurnLeft`, with the same in-order contents |
| RBTreeBalance.TurnLeftAt | src/headers/RBTree.h:374-393 | a left rotation anywhere in the tree leaves the whole tree's in-order contents unchanged |
| RBTreeBalance.TurnRightAt | src/headers/RBTree.h:395-414 | a right rotation anywhere in the tree leaves the whole tree's in-order contents unchanged |
| RBTreeBalance.RedParent | src/headers/RBTree.h:336-354 | under a red parent there is a black grandparent, so the grandparent and the uncle asked for exist |
| RBTreeBalance.Recolored | src/headers/RBTree.h:424-428 | red uncle: after the recolouring the grandparent is a red subtree one black level higher, with the same contents, that fits where it hangs |
| RBTreeBalance.Rotated | src/headers/RBTree.h:429-444 | black uncle: the rotations give a valid red-black tree with the same in-order contents |
| RBTreeBalance.RotatedTop | src/headers/RBTree.h:429-444 | black uncle: the grandparent's subtree becomes black and valid, with the same black height and contents |
| RBTreeBalance.RotatedUnderLeft | src/headers/RBTree.h:430-440 | the line case and the triangle case under a left parent give a black, valid subtree with the same contents |
| RBTreeBalance.RotatedUnderRight | src/headers/RBTree.h:433-442 | the mirror cases under a right parent give a black, valid subtree with the same contents |
| RBTreeBalance.FixInsert | src/headers/RBTree.h:416-446 | starting from a red node that is valid below and fits its place, the repair gives a red-black tree with the same in-order contents |
| RBTreeDeletion.RedSiblingLeft | src/headers/RBTree.h:454-459 | case 1: a red sibling is rotated above the parent; afterwards the node's new sibling is black under a red parent, and the contents are unchanged |
| RBTreeDeletion.RedSiblingRight | src/headers/RBTree.h:482-487 | the mirror image of case 1 |
| RBTreeDeletion.NearRedLeft | src/headers/RBTree.h:466-471 | case 3: a sibling with only a red near child is turned so that its far child is red, keeping its contents and black heights |
| RBTreeDeletion.NearRedRight | src/headers/RBTree.h:494-499 | the mirror image of case 3 |
| RBTreeDeletion.FarRedLeft | src/headers/RBTree.h:465-478 | cases 3 and 4 end the repair: the tree is red-black again with the same contents |
| RBTreeDeletion.FarRedTopLeft | src/headers/RBTree.h:473-477 | case 4 gives the parent's subtree the parent's colour and its full black height, with the same contents |
| RBTreeDeletion.FarRedRight | src/headers/RBTree.h:493-506 | the mirror image of `FarRedLeft` |
| RBTreeDeletion.FarRedTopRight | src/headers/RBTree.h:501-505 | the mirror image of `FarRedTopLeft` |
| RBTreeDeletion.FixDeleteLeft | src/headers/RBTree.h:451-478 | one loop pass for a left child keeps the contents and the deficiency invariant, and moves strictly towards the root or ends the loop |
| RBTreeDeletion.FixDeleteRight | src/headers/RBTree.h:479-507 | one loop pass for a right child: the same promises as `FixDeleteLeft` |
| RBTreeDeletion.FixDelete | src/headers/RBTree.h:448-513 | a node one black short, in a tree that is otherwise valid, is repaired into a red-black tree with the same in-order contents |
| RBTreeDeletion.SpliceOut | src/headers/RBTree.h:177-182 | replacing a node that has at most one child by that child leaves a tree that is valid or one black short on that path |
| RBTreeDeletion.DropPair | src/headers/RBTree.h:166-208 | removing one key's pair from an ascending sequence keeps it ascending and removes exactly that key from the map |
| RBTreeDeletion.Unlink | src/headers/RBTree.h:166-203 | splicing out the node of a present key, directly or through its in-order successor, leaves the pairs before and after it in order; the result is valid, or one black short when a black node left its place |
| RBTreeDeletion.Remove | src/headers/RBTree.h:166-208 | deleting a present key gives a red-black ascending tree that maps every other key as before and has one pair fewer |
| RBTreeSearch.FindNode | src/headers/RBTree.h:241-254 | the descent ends on the node with the key exactly when the key is mapped, that node carries the mapped payload, and otherwise it ends at the hole where the key would go |
| RBTreeSearch.InsertNode | src/headers/RBTree.h:256-291 | an existing key is reported (`logic_error`); otherwise the descent ends at the hole where the key belongs in key order |
| RBTreeSearch.LinkAtHole | src/headers/RBTree.h:280-288 | linking the new node at that hole keeps the keys ascending, puts the pair between its neighbours, and maps the key to its payload |
| RBTreeSearch.Minimum | src/headers/RBTree.h:356-363 | following left links reaches the first in-order pair |
| RBTreeSearch.Maximum | src/headers/RBTree.h:365-372 | following right links reaches the last in-order pair |
| RBTreeIterator.MakeCursor | src/headers/RBTree.h:521-527 | the iterator constructor lowers the `end` flag exactly when the start node is not the sentinel |
| RBTreeIterator.CursorElement | src/headers/RBTree.h:615-622 | an iterator that is not at the end designates the pair at its in-order index; an end iterator on a non-empty tree sits on the last pair |
| RBTreeIterator.Next | src/headers/RBTree.h:548-573 | `++` moves to the next in-order index and raises `end` exactly past the last pair; an end iterator stays at the end |
| RBTreeIterator.Prev | src/headers/RBTree.h:582-606 | `--` moves to the previous index; from the end it lands on the last pair, and from the first pair it goes to the end |
| RBTreeIterator.Begin | src/headers/RBTree.h:231-234 | `begin()` stands for index 0 and is the end exactly for an empty tree |
| RBTreeIterator.End | src/headers/RBTree.h:236-239 | `end()` is an end iterator one past the last pair |
| RBTreeIterator.BeginKeysFrom | src/headers/s21_set.h:163 | a walk that starts at `begin()` still has every key of the tree ahead of it |
| RBTreeIterator.NextKeysFrom | src/headers/s21_set.h:165 | one `++` leaves behind exactly the key it stood on |
| RBTreeIterator.EqualIndex | src/headers/RBTree.h:85-88 | `==` holds only between iterators on the same index with the same flag, holds between any two end iterators, and is reflexive |
| RBTreeIterator.NotEqualAgreesAtEnd | src/headers/RBTree.h:89-91 | the written `!=` never reports two equal iterators as different, and is exact when one side is at the end |
| RBTreeIterator.NotEqualCounterexample | src/headers/RBTree.h:89-91 | two iterators on the two different nodes of a two-node tree are not equal, yet the written `!=` says they are not different |
| RedBlackTree.CopyTree | src/headers/RBTree.h:293-313 | the copy has the same shape, colours and pairs as the original |
| RedBlackTree.ReplacePayload | src/headers/s21_multiset.h:166 | writing a new payload into one node keeps the tree red-black and ascending, and remaps only that node's key |
| RedBlackTree.RBTree.constructor | src/headers/RBTree.h:99-104 | a new tree's root is the sentinel; its counter is 0 and it maps nothing |
| RedBlackTree.RBTree.Copy | src/headers/RBTree.h:106-112 | the copy constructor gives a tree with the same pairs, colours and counter |
| RedBlackTree.RBTree.SizeIsKeyCount | src/headers/RBTree.h:43 | the node counter equals the number of mapped keys, and is 0 exactly when the root is the sentinel |
| RedBlackTree.RBTree.Insert | src/headers/RBTree.h:157-164 | a present key raises `logic_error` and nothing changes; an absent key is added in key order with its payload, the counter grows by one, and the returned iterator is on the new pair |
| RedBlackTree.RBTree.Delete | src/headers/RBTree.h:166-208 | a present key is removed, every other key keeps its payload, and the counter drops by one |
| RedBlackTree.RBTree.Assign | src/headers/s21_multiset.h:166 | a write through the node of a present key remaps that key and leaves the shape and the counter as they were |
| RedBlackTree.RBTree.At | src/headers/RBTree.h:210-215 | `at(key)` gives the payload of a mapped key, and null otherwise |
| RedBlackTree.RBTree.Find | src/headers/RBTree.h:217-222 | `find(key)` gives an iterator on the key's pair when it is mapped, and `end()` otherwise |
| RedBlackTree.RBTree.Clear | src/headers/RBTree.h:224-229 | after `clear()` the root is the sentinel, the counter is 0 and nothing is mapped |
| RedBlackTree.RBTree.Begin | src/headers/RBTree.h:231-234 | `begin()` is on the first pair, or the end for an empty tree |
| RedBlackTree.RBTree.End | src/headers/RBTree.h:236-239 | `end()` is one past the last pair |
| RedBlackTree.RBTree.Empty | src/headers/RBTree.h:42 | `empty()` holds exactly when nothing is mapped, which is exactly when the counter is 0 |
| MapContainer.Merged | src/headers/s21_map.h:98-106 | the merged map has the keys of both maps; a key already here keeps its value |
| MapContainer.MergedStep | src/headers/s21_map.h:100-105 | taking one more pair of the other map into the merge adds its key only when the key is new here |
| MapContainer.Map.constructor | src/headers/s21_map.h:28 | a new map is empty |
| MapContainer.Map.At | src/headers/s21_map.h:42-47 | `at(key)` gives the mapped value, and `out_of_range` for an absent key |
| MapContainer.Map.Subscript | src/headers/s21_map.h:49-54 | `[]` gives the mapped value; an absent key is first inserted with the default value, which is then returned |
| MapContainer.Map.Begin | src/headers/s21_map.h:56 | the iterator on the smallest key |
| MapContainer.Map.End | src/headers/s21_map.h:57 | the iterator one past the largest key |
| MapContainer.Map.Empty | src/headers/s21_map.h:59 | `empty()` holds exactly when no key is mapped |
| MapContainer.Map.Size | src/headers/s21_map.h:60 | `size()` is the number of mapped keys |
| MapContainer.Map.Clear | src/headers/s21_map.h:65 | after `clear()` no key is mapped |
| MapContainer.Map.Insert | src/headers/s21_map.h:66-81 | a new key is added with its value, and the result is `true` with an iterator on it; a present key changes nothing and gives `end()` and `false` |
| MapContainer.Map.Erase | src/headers/s21_map.h:90-95 | erasing at `end()` changes nothing; otherwise exactly the designated key is removed |
| MapContainer.Map.InsertOrAssign | src/headers/s21_map.h:82-89 | afterwards the key maps to the new value, every other key is unchanged, and the result is `true` with an iterator on the key |
| MapContainer.Map.Swap | src/headers/s21_map.h:96 | the two maps exchange their trees |
| MapContainer.Map.Merge | src/headers/s21_map.h:98-106 | every key of the other map that was absent here is added with its value, and present keys keep theirs; the other map is untouched, and merging a map into itself changes nothing |
| MapContainer.Map.Contains | src/headers/s21_map.h:108-114 | `contains(key)` holds exactly when the key is mapped |
| MapContainer.FromList | src/headers/s21_map.h:29-33 | the initializer-list constructor maps each key of the pairs to its value; a repeated key makes the tree's `Insert` throw `logic_error` |
| SetContainer.MergeKeysStep | src/headers/s21_set.h:165-168 | one merge step moves the key it visits here when it is new, and leaves it in the other set when it is already here |
| SetContainer.Set.constructor | src/headers/s21_set.h:24 | a new set is empty |
| SetContainer.Set.Begin | src/headers/s21_set.h:96-99 | the iterator on the smallest key |
| SetContainer.Set.End | src/headers/s21_set.h:101-104 | the iterator one past the largest key |
| SetContainer.Set.Empty | src/headers/s21_set.h:116-119 | `empty()` holds exactly when there is no key |
| SetContainer.Set.Size | src/headers/s21_set.h:121-124 | `size()` is the number of keys |
| SetContainer.Set.Clear | src/headers/s21_set.h:131-134 | after `clear()` there is no key |
| SetContainer.Set.Insert | src/headers/s21_set.h:136-145 | the key is in the set afterwards; the result is `true` with an iterator on it exactly when it was new, and `end()` and `false` otherwise |
| SetContainer.Set.Erase | src/headers/s21_set.h:147-153 | erasing at `end()` changes nothing; otherwise exactly the designated key is removed |
| SetContainer.Set.Swap | src/headers/s21_set.h:155-158 | the two sets exchange their trees |
| SetContainer.Set.Merge | src/headers/s21_set.h:160-170 | this set becomes the union of both sets, and the other set keeps only the keys both had; merging a set into itself changes nothing |
| SetContainer.Set.MergeStep | src/headers/s21_set.h:164-169 | one loop pass keeps the merge invariant, and strictly fewer keys of the other set are left ahead |
| SetContainer.Set.DeleteBefore | src/headers/s21_set.h:167 | deleting a key that the walk has already passed leaves the keys ahead of the walk unchanged |
| SetContainer.Set.Find | src/headers/s21_set.h:172-175 | `find(key)` is on the key when it is present, and `end()` otherwise |
| SetContainer.Set.Contains | src/headers/s21_set.h:177-180 | `contains(key)` holds exactly when the key is present |
| SetContainer.FromList | src/headers/s21_set.h:71-76 | the initializer-list constructor holds exactly the items; a repeated item makes the tree's `Insert` throw `logic_error` |
| MultisetCounts.TotalZero | src/headers/s21_multiset.h:140-148 | with every stored count positive, the occurrence total is 0 exactly when no node is stored |
| MultisetCounts.PositiveCounts | src/headers/s21_multiset.h:180-184 | every stored key has a count of at least one |
| MultisetCounts.MNext | src/headers/s21_multiset.h:268-277 | `++` moves to the next occurrence of the same key while there is one, and otherwise to index 0 of the next key; either way it advances one occurrence |
| MultisetCounts.MPrev | src/headers/s21_multiset.h:286-295 | `--` moves to the previous occurrence, or to the last occurrence of the previous key; on an empty tree the index wraps to `SIZE_MAX` |
| MultisetCounts.MNotEqualAgreesAtEnd | src/headers/s21_multiset.h:311-317 | the written `!=` never reports two equal iterators as different, and is exact when one side is at the end |
| MultisetCounts.MNotEqualCounterexample | src/headers/s21_multiset.h:311-317 | the first and the second occurrence of a key stored twice are not equal, yet the written `!=` says they are not different |
| MultisetContainer.MergeAsWrittenCounterexample | src/headers/s21_multiset.h:195-205 | with three occurrences of one key in the other multiset, the written merge moves two and leaves one behind |
| MultisetContainer.MergeAsWrittenAgrees | src/headers/s21_multiset.h:195-205 | the written merge moves everything exactly when no key occurs more than twice in the other multiset |
| MultisetContainer.StayExpected | src/headers/s21_multiset.h:200-203 | a merge step that stays on its node keeps the "expected remaining count" invariant |
| MultisetContainer.MoveExpected | src/headers/s21_multiset.h:200-203 | a merge step that moves to the next key keeps the "expected remaining count" invariant |
| MultisetContainer.Multiset.constructor | src/headers/s21_multiset.h:24 | a new multiset is empty, and its counter is 0 |
| MultisetContainer.Multiset.Copy | src/headers/s21_multiset.h:96-97 | the copy has the same counts and counter |
| MultisetContainer.Multiset.FromList | src/headers/s21_multiset.h:88-94 | every key occurs as often as among the items, and the counter is the item count |
| MultisetContainer.Multiset.Begin | src/headers/s21_multiset.h:120-123 | the first occurrence of the smallest key, or the end when empty |
| MultisetContainer.Multiset.End | src/headers/s21_multiset.h:125-128 | one past the last occurrence |
| MultisetContainer.Multiset.Empty | src/headers/s21_multiset.h:140-143 | `empty()` holds exactly when nothing is stored, which is exactly when the counter is 0 |
| MultisetContainer.Multiset.Size | src/headers/s21_multiset.h:145-148 | `size()` is the sum of the stored counts |
| MultisetContainer.Multiset.Clear | src/headers/s21_multiset.h:155-159 | after `clear()` nothing is stored and the counter is 0 |
| MultisetContainer.Multiset.Insert | src/headers/s21_multiset.h:161-174 | exactly one more occurrence of the value; the counter grows by one, the result is always `true`, and the iterator is on the key with its index equal to the new count |
| MultisetContainer.Multiset.Erase | src/headers/s21_multiset.h:176-187 | erasing at `end()` changes nothing; otherwise exactly one occurrence of the designated key goes, and the counter drops by one |
| MultisetContainer.Multiset.Drop | src/headers/s21_multiset.h:180-186 | one occurrence of a stored key goes: its count drops by one, or its node is deleted when it held the last occurrence; the counter drops by one |
| MultisetContainer.Multiset.Swap | src/headers/s21_multiset.h:189-193 | the trees and the counters are exchanged |
| MultisetContainer.Multiset.CountOf | src/headers/s21_multiset.h:207-215 | `count(key)` is the key's number of occurrences, 0 when absent |
| MultisetContainer.Multiset.Contains | src/headers/s21_multiset.h:222-225 | `contains(key)` holds exactly when the key occurs |
| MultisetContainer.Multiset.Find | src/headers/s21_multiset.h:217-220 | the first occurrence of the key, or `end()` when absent |
| MultisetContainer.Multiset.LowerBoundAsWritten | src/headers/s21_multiset.h:233-240 | the written `!=` makes the step back never happen, so for a present key the result is the first occurrence of that key, from which every key at least as large is still ahead; `end()`, with no key ahead, for an absent key |
| MultisetContainer.Multiset.UpperBoundAsWritten | src/headers/s21_multiset.h:242-249 | for a present key, the node after it, from which exactly the larger keys are ahead; `end()`, with no key ahead, for an absent key |
| MultisetContainer.BoundsAsWrittenCounterexample | src/headers/s21_multiset.h:233-249 | with only the key 5 stored, the absent key 3 has the key 5 above it, which both bounds should leave ahead, where the written ones leave nothing |
| MultisetContainer.Multiset.LowerBound | src/headers/s21_multiset.h:233-240 | corrected `lower_bound`: exactly the keys not below `key` are ahead of the result, so it is the first occurrence of the smallest such key, and `end()` only when there is none; a present key gives its own first occurrence |
| MultisetContainer.Multiset.UpperBound | src/headers/s21_multiset.h:242-249 | corrected `upper_bound`: exactly the keys above `key` are ahead of the result |
| MultisetContainer.Multiset.EqualRange | src/headers/s21_multiset.h:227-231 | with the corrected bounds, the keys between the two iterators are exactly `key` when it is present and none otherwise; a present key's range starts on its first occurrence |
| MultisetContainer.Multiset.Merge | src/headers/s21_multiset.h:195-205 | corrected merge: every occurrence of the other multiset moves here, the counters add up, and the other multiset is left empty; merging into itself changes nothing |
| MultisetContainer.Multiset.MergeAsWritten | src/headers/s21_multiset.h:195-205 | the merge as written: of each key with `c` occurrences in the other multiset, `(c - 1) / 2` stay behind and the rest move here |
| MultisetContainer.Multiset.MergeStepAsWritten | src/headers/s21_multiset.h:199-204 | one pass of the written loop keeps its invariant, and the other multiset shrinks |
| MultisetContainer.Multiset.EraseBehind | src/headers/s21_multiset.h:202 | erasing through the iterator that was stepped past removes one occurrence of its key, and leaves the walk where `++` put it |
| MultisetContainer.Multiset.Reseat | src/headers/s21_multiset.h:166 | an iterator kept across a change of counts stands on the same key with the same index |
| SequenceSpec.ErasedInserted | src/headers/s21_vector.h:190-233 | erasing what `insert` put at a position gives the original elements back |
| SequenceSpec.InsertedErased | src/headers/s21_vector.h:190-233 | re-inserting an erased element at its position gives the original elements back |
| SequenceSpec.SplicedStep | src/headers/s21_vector.h:268-279 | inserting the arguments one at a time, each just after the previous one, places them as one run in order |
| VectorContainer.Grown | src/headers/s21_vector.h:202 | a full buffer grows to twice its capacity, or to 1 from 0, which is always more than before |
| VectorContainer.Vector.constructor | src/headers/s21_vector.h:26 | no elements and no storage |
| VectorContainer.Vector.Sized | src/headers/s21_vector.h:29 | `n` elements in a buffer of capacity `n` |
| VectorContainer.Vector.FromList | src/headers/s21_vector.h:31-37 | the items in order, with capacity exactly the item count |
| VectorContainer.Vector.Copy | src/headers/s21_vector.h:39-45 | the other vector's elements in order, with capacity its size |
| VectorContainer.Vector.Move | src/headers/s21_vector.h:47-58 | the storage, size and capacity are taken over, and the other vector is left with none |
| VectorContainer.Vector.MoveAssign | src/headers/s21_vector.h:60-76 | unless it is self-assignment, the storage, size and capacity are taken over and the other vector is left with none |
| VectorContainer.Vector.At | src/headers/s21_vector.h:90-103 | `at(pos)` and `[]` give the element at `pos`, and `out_of_range` from the size on |
| VectorContainer.Vector.Front | src/headers/s21_vector.h:105-110 | the first element, and `out_of_range` when empty |
| VectorContainer.Vector.Back | src/headers/s21_vector.h:112-117 | the last element, and `out_of_range` when empty |
| VectorContainer.Vector.Size | src/headers/s21_vector.h:126 | the element count |
| VectorContainer.Vector.Empty | src/headers/s21_vector.h:129 | holds exactly when there are no elements |
| VectorContainer.Vector.Capacity | src/headers/s21_vector.h:159 | the buffer length, never below the element count |
| VectorContainer.Vector.Reserve | src/headers/s21_vector.h:138-155 | the elements are kept; a larger request gives a fresh buffer of exactly that capacity, and a smaller one keeps the buffer |
| VectorContainer.Vector.ShrinkToFit | src/headers/s21_vector.h:161-178 | the elements are kept, and the capacity becomes the size, with a fresh buffer only when there was spare room |
| VectorContainer.Vector.Clear | src/headers/s21_vector.h:182-188 | no elements, and the storage is kept |
| VectorContainer.Vector.Insert | src/headers/s21_vector.h:190-219 | a position beyond the size raises `out_of_range` and nothing changes; otherwise the value is at that position, the later elements move one place right, the result is that position, and a full buffer grows to `Grown` |
| VectorContainer.Vector.Erase | src/headers/s21_vector.h:221-233 | a position outside the elements raises `out_of_range` and nothing changes; otherwise exactly that element is removed and the later ones move one place left |
| VectorContainer.Vector.PushBack | src/headers/s21_vector.h:235-247 | the value is appended, and a full buffer grows to `Grown` |
| VectorContainer.Vector.PopBack | src/headers/s21_vector.h:249-253 | the last element is dropped; nothing happens when empty |
| VectorContainer.Vector.Swap | src/headers/s21_vector.h:255-259 | storage, size and capacity are exchanged |
| VectorContainer.Vector.InsertMany | src/headers/s21_vector.h:268-279 | the arguments are placed as one run, in order, at the position, and the result is just past the run; a bad position raises `out_of_range` when there is something to insert |
| VectorContainer.Vector.InsertManyBack | src/headers/s21_vector.h:281-285 | the arguments are appended in order |
| ListSpec.NeighboursSortedIsSorted | src/headers/s21_list.h:382-400 | checking only neighbour pairs, as `is_sorted()` does, establishes that the whole list is in order |
| ListSpec.MergedPermutes | src/headers/s21_list.h:277-303 | the merged list holds exactly the values of both lists |
| ListSpec.MergedHead | src/headers/s21_list.h:285-293 | the merge starts with this list's head when it is strictly smaller, and with the other list's head otherwise, ties included |
| ListSpec.MergedSorted | src/headers/s21_list.h:277-303 | merging two sorted lists gives a sorted list |
| ListSpec.ReversedAt | src/headers/s21_list.h:318-336 | position `i` of the reversed list holds position `n - 1 - i` of the original |
| ListSpec.ReversedTwice | src/headers/s21_list.h:318-336 | reversing twice gives the list back, and reversal exchanges the first and the last value |
| ListSpec.Dedup | src/headers/s21_list.h:338-351 | `unique()` never lengthens the list and keeps the last value |
| ListSpec.DedupNoRepeats | src/headers/s21_list.h:338-351 | after `unique()` no two neighbours are equal |
| ListSpec.DedupSameValues | src/headers/s21_list.h:338-351 | `unique()` removes no value altogether and adds none |
| ListSpec.DedupKeeps | src/headers/s21_list.h:338-351 | a list without equal neighbours is left as it is |
| ListSpec.DedupTwice | src/headers/s21_list.h:338-351 | `unique()` twice is `unique()` once |
| ListContainer.PassSwap | src/headers/s21_list.h:364-368 | a comparison that finds the pair out of order swaps it and keeps the pass state: the larger value is carried right, the values stay the same, and the list was unsorted |
| ListContainer.PassKeep | src/headers/s21_list.h:364-372 | a comparison that finds the pair in order moves the pass on without changing anything |
| ListContainer.PassOutcome | src/headers/s21_list.h:358-373 | from any state of a pass, the rest of the pass gives a permutation of the values before it with one more value in its final place, and it swaps something exactly when those values were unsorted |
| ListContainer.MergeValues | src/headers/s21_list.h:282-301 | the three loops of the merge build exactly the two-way merge of the two value sequences, taking this list's value on a strict `<` |
| ListContainer.PassDone | src/headers/s21_list.h:358-373 | at the end of a pass one more value is in its final place, and the pass swapped exactly when the list was not sorted |
| ListContainer.List.constructor | src/headers/s21_list.h:80 | an empty list with null links |
| ListContainer.List.Sized | src/headers/s21_list.h:81-85 | `n` default values |
| ListContainer.List.FromList | src/headers/s21_list.h:87-92 | the items in order |
| ListContainer.List.Copy | src/headers/s21_list.h:95-105 | the other list's values in order |
| ListContainer.List.Move | src/headers/s21_list.h:108-112 | the nodes and both links are taken over, and the other list is left empty with null links |
| ListContainer.List.MoveAssignAsWritten | src/headers/s21_list.h:116-126 | move assignment as written: the values are taken over, but the other list's back link stays set whenever it had nodes |
| ListContainer.List.MoveAssign | src/headers/s21_list.h:116-126 | corrected move assignment: the values are taken over, and the other list is left empty with both links null |
| ListContainer.List.Front | src/headers/s21_list.h:128-136 | the first value, or the default value when empty |
| ListContainer.List.Back | src/headers/s21_list.h:138-146 | the last value, or the default value when empty and the back link is null |
| ListContainer.List.Empty | src/headers/s21_list.h:152 | holds exactly when there are no values |
| ListContainer.List.Size | src/headers/s21_list.h:154 | the value count |
| ListContainer.List.Clear | src/headers/s21_list.h:160-169 | no values, and both links null |
| ListContainer.List.PushBack | src/headers/s21_list.h:171-181 | the value is appended, and the back link is on it |
| ListContainer.List.PushFront | src/headers/s21_list.h:248-259 | the value is prepended |
| ListContainer.List.PopBack | src/headers/s21_list.h:226-246 | the last value is dropped; nothing happens when empty |
| ListContainer.List.PopFrontAsWritten | src/headers/s21_list.h:261-268 | `pop_front()` as written drops the first value, but popping the last node leaves the back link on the deleted node |
| ListContainer.List.PopFront | src/headers/s21_list.h:261-268 | corrected `pop_front()`: the first value is dropped, and the links stay consistent |
| ListContainer.List.Insert | src/headers/s21_list.h:183-205 | the value is placed before the position, the later values move one place right, and the result is on the new value |
| ListContainer.List.Erase | src/headers/s21_list.h:207-224 | erasing at `end()` changes nothing; otherwise exactly the value at the position is removed, and the back link stays consistent except when `erase(begin())` removes the only node, which goes through the written `pop_front` and leaves the back link set |
| ListContainer.List.Swap | src/headers/s21_list.h:270-275 | the two lists exchange their nodes, links and sizes |
| ListContainer.List.Merge | src/headers/s21_list.h:277-303 | the values become the two-way merge of both lists (see `ListSpec.MergedSorted` and `ListSpec.MergedPermutes`); merging a list into itself changes nothing |
| ListContainer.List.Splice | src/headers/s21_list.h:308-316 | the other list's values are placed in order before the position, and the other list is cleared; nothing happens for the same list, an empty list, or the position `end()` |
| ListContainer.List.Reverse | src/headers/s21_list.h:318-336 | the values in reverse order (see `ListSpec.ReversedTwice`) |
| ListContainer.List.Unique | src/headers/s21_list.h:338-351 | each run of equal neighbours is cut down to one value (see `ListSpec.DedupNoRepeats` and `ListSpec.DedupSameValues`) |
| ListContainer.List.Sort | src/headers/s21_list.h:353-374 | the values end up sorted, and they are a permutation of the original values |
| ListContainer.List.BubblePass | src/headers/s21_list.h:359-372 | one pass keeps the values and puts one more value in its final place; it swaps exactly when the list is unsorted, and a pass without a swap changes nothing |
| ListContainer.List.IsSorted | src/headers/s21_list.h:382-400 | holds exactly when the values are in non-decreasing order |
| ListContainer.List.InsertMany | src/headers/s21_list.h:444-457 | the arguments are placed as one run, in order, before the position, and the result still designates the node that was there |
| ListContainer.List.InsertManyBack | src/headers/s21_list.h:459-463 | the arguments are appended in order |
| ListContainer.List.InsertManyFront | src/headers/s21_list.h:465-469 | the arguments are placed in order before the first value |
| ArrayContainer.FixedArray.constructor | src/headers/s21_array.h:19 | `N` value-initialised elements |
| ArrayContainer.FixedArray.Copy | src/headers/s21_array.h:28-33 | the copy and move constructors: the other array's elements in order |
| ArrayContainer.FixedArray.Assign | src/headers/s21_array.h:35-40 | copy and move assignment: the other array's elements, in order, over this one's |
| ArrayContainer.FixedArray.At | src/headers/s21_array.h:49-52 | the element at `pos`, and `out_of_range` from `N` on |
| ArrayContainer.FixedArray.Subscript | src/headers/s21_array.h:53 | `[]` gives the element at a position below `N`, unchecked |
| ArrayContainer.FixedArray.Front | src/headers/s21_array.h:54-59 | element 0, and `out_of_range` when `N` is 0 |
| ArrayContainer.FixedArray.Back | src/headers/s21_array.h:60-65 | element `N - 1`, and `out_of_range` when `N` is 0 |
| ArrayContainer.FixedArray.Empty | src/headers/s21_array.h:68 | holds exactly when `N` is 0 |
| ArrayContainer.FixedArray.Size | src/headers/s21_array.h:69-70 | `size()` and `max_size()` are both `N` |
| ArrayContainer.FixedArray.Fill | src/headers/s21_array.h:73-75 | every element becomes the value |
| ArrayContainer.FixedArray.Swap | src/headers/s21_array.h:72 | the two arrays exchange their elements |
| ArrayContainer.FromList | src/headers/s21_array.h:20-27 | more than `N` items raise `out_of_range`; otherwise the items fill the front in order, and the rest stay value-initialised |
| StackAdapter.Stack.constructor | src/headers/s21_stack.h:18 | an empty stack |
| StackAdapter.Stack.FromList | src/headers/s21_stack.h:19 | the items from the bottom up, with the last item on top |
| StackAdapter.Stack.Top | src/headers/s21_stack.h:25 | the last element pushed that is still there, and `out_of_range` when empty |
| StackAdapter.Stack.Empty | src/headers/s21_stack.h:27 | holds exactly when there are no elements |
| StackAdapter.Stack.Size | src/headers/s21_stack.h:28 | the element count |
| StackAdapter.Stack.Push | src/headers/s21_stack.h:30 | the value becomes the top |
| StackAdapter.Stack.Pop | src/headers/s21_stack.h:31 | the top is removed; nothing happens when empty |
| StackAdapter.Stack.Swap | src/headers/s21_stack.h:32 | the two stacks exchange their elements |
| StackAdapter.Stack.InsertManyFront | src/headers/s21_stack.h:34-51 | the arguments are pushed in order, so the last argument ends on top |
| StackAdapter.PushThenPop | src/headers/s21_stack.h:25-31 | last in, first out: a pushed value is the top, and popping it restores the stack |
| QueueAdapter.Queue.constructor | src/headers/s21_queue.h:28 | an empty queue with both indices 0 |
| QueueAdapter.Queue.FromList | src/headers/s21_queue.h:30-35 | the items in order, the first item at the front |
| QueueAdapter.Queue.Copy | src/headers/s21_queue.h:37 | the same elements and indices |
| QueueAdapter.Queue.Move | src/headers/s21_queue.h:54-59 | the elements are taken over, and the other queue is left empty with both indices 0 |
| QueueAdapter.Queue.MoveAssign | src/headers/s21_queue.h:40-52 | unless it is self-assignment, the other queue's elements are taken over and the other queue is left empty |
| QueueAdapter.Queue.Empty | src/headers/s21_queue.h:65 | holds exactly when no element is queued |
| QueueAdapter.Queue.Size | src/headers/s21_queue.h:67 | the queued count, `rear - front` |
| QueueAdapter.Queue.Pop | src/headers/s21_queue.h:72-76 | the oldest element is dropped by raising the front index; nothing happens when empty |
| QueueAdapter.Queue.Push | src/headers/s21_queue.h:78-81 | the value is queued last |
| QueueAdapter.Queue.Swap | src/headers/s21_queue.h:82-86 | the two queues exchange their elements and indices |
| QueueAdapter.Queue.Front | src/headers/s21_queue.h:90-95 | the oldest element, and `out_of_range` when empty |
| QueueAdapter.Queue.InsertManyBack | src/headers/s21_queue.h:97-114 | the arguments are queued in order |
| QueueAdapter.FifoFront | src/headers/s21_queue.h:78-95 | first in, first out: a push leaves the oldest element at the front, and a value pushed onto an empty queue is at the front |

## Left out

- The destructors, the tree's `DeleteTree` and every `delete`: memory is not modelled.
- The tree's `Transplant`, `grandparent` and `uncle` are not separate members. They are what a zipper path gives directly.
- The iterators' copy and move constructors and assignments (RBTree.h:515-546, s21_multiset.h:251-266) only copy fields. Values are copied in Dafny.
- The iterators' postfix `++` and `--` return the old value and then call the prefix forms, which are modelled.
- `map`, `set` and `multiset` copy and move constructors and assignments only copy or move the tree (and the counter). The tree's copy is `RedBlackTree.RBTree.Copy`, and the multiset's copy constructor is modelled. The move forms, and `map`'s `operator=`, which returns nothing from a non-void function, are not modelled.
- `cbegin()` and `cend()` are the same as `begin()` and `end()`.
- `max_size()` of `map`, `set`, `multiset`, `Vector` and `List` is a platform constant.
- `Vector::data()`, `Vector::begin()` and `Vector::end()` hand out raw pointers. Vector iterators are offsets from `begin()`.
- `Array::begin()`, `end()` and `data()` hand out raw pointers.
- Writes through the references returned by `at`, `operator[]`, `front()` and `back()` are not modelled; these operations are modelled as reads.
- The list iterator class (s21_list.h:25-47) is modelled only as a position. Node identity is not tracked across mutations.
- `List::shuffle()` uses a random generator. `List::quick_sort()` shuffles until sorted. Both depend on randomness.
- `List::compare_lists()` compares against the C++ standard library's list, which is not part of this model.
- `stack` and `queue` copy and move constructors and assignments (other than those modelled) are compiler-generated. They copy or move the `Vector`.
- Sizes are unbounded integers. `size_t` wrap-around is modelled only where the source relies on it, in the multiset iterator's `--` on an empty tree. The vector's `capacity * 2` is not checked for overflow.
- RedBlackTree.RBTree.Delete: requires the key to be present. The `invalid_argument` guard tests for null, but the descent returns the sentinel, so the guard can never fire. Every caller passes a present key.
- VectorContainer.Vector.Sized: the element values are not stated, because the buffer is default-initialised, which leaves scalar elements indeterminate.
- ListContainer.List.Back: requires that an empty list's back link was nulled. It is not modelled after the written `pop_front` (or `erase(begin())`) emptied the list, where it reads a deleted node, nor after the written move assignment emptied it, where the back link still aliases the destination's last node and `back()` returns that node's value. The model keeps node values only for the nodes a list owns.
- ListContainer.List.Splice: models the `pos == other.end()` guard as written. Every end iterator is the same null iterator, so splicing at `end()` does nothing. This is the written behaviour and is not listed as a finding.
- MapContainer.Map.Merge, SetContainer.Set.Merge and MultisetContainer.Multiset.Merge: the source's test `tree_ == other.tree_` compares root pointers. Every tree allocates its own sentinel, so two distinct live trees never have equal roots. Only two trees that were both moved from compare equal, both with a null root, and those are not modelled. The test is modelled as "the same tree object".
- Set, map and multiset loops re-find the iterator's node by key after each deletion. Deletion relinks nodes and never moves a payload, so the node is the same one.

## Findings

| source | as written | input that shows it | evidently intended | confidence | as-written member | corrected member |
|---|---|---|---|---|---|---|
| src/headers/RBTree.h:89-91 | `operator!=` reduces to `end != other.end`: two iterators on different nodes are "not unequal" | lemma `RBTreeIterator.NotEqualCounterexample`: iterators on keys 1 and 2 of a two-node tree | `!=` as the negation of `==` | not executed | RBTreeIterator.NotEqualAsWritten | RBTreeIterator.NotEqual |
| src/headers/s21_multiset.h:311-317 | `operator!=` reduces to comparing the end flags: two occurrences of one key are "not unequal" | lemma `MultisetCounts.MNotEqualCounterexample`: the first and second occurrence of 5 in a tree storing 5 twice | `!=` as the negation of `==` | not executed | MultisetCounts.MNotEqualAsWritten | MultisetCounts.MNotEqual |
| src/headers/s21_multiset.h:195-205 | `iter++` moves to the next occurrence, then `erase(prev_iter)` lowers the count under it, so every second occurrence is skipped | lemma `MultisetContainer.MergeAsWrittenCounterexample`: merging `{3, 3, 3}` into an empty multiset moves two and leaves one | every occurrence of `other` moves here and `other` ends empty | not executed | MultisetContainer.Multiset.MergeAsWritten | MultisetContainer.Multiset.Merge |
| src/headers/s21_list.h:261-268 | popping the only node nulls the front link but not the back link, which is left on the deleted node | `PopFrontAsWritten` ensures that `pop_front()` on a one-element list leaves the back link set, and `Erase` ensures the same for `erase(begin())` on a one-element list; a later `back()` reads the deleted node (`push_back` and `push_front` test the front link and reset both links) | the back link nulled when the list becomes empty | not executed | ListContainer.List.PopFrontAsWritten | ListContainer.List.PopFront |
| src/headers/s21_list.h:122 | `l.list_front = l.list_front = nullptr` nulls the front link twice, and the moved-from list keeps its back link | `MoveAssignAsWritten` ensures that moving from a non-empty list leaves the emptied list's back link set, aliasing the destination's last node | `l.list_front = l.list_back = nullptr`, as the move constructor does | not executed | ListContainer.List.MoveAssignAsWritten | ListContainer.List.MoveAssign |
| src/headers/s21_multiset.h:233-249 | `lower_bound` and `upper_bound` start from `find(key)`, so an absent key gives `end()` even when larger keys are stored | lemma `MultisetContainer.BoundsAsWrittenCounterexample` with `LowerBoundAsWritten`'s contract: on `{5}`, `lower_bound(3)` and `upper_bound(3)` give `end()` instead of the iterator on 5 | the first occurrence of the smallest key not below (for `upper_bound`: above) `key` | not executed | MultisetContainer.Multiset.LowerBoundAsWritten | MultisetContainer.Multiset.LowerBound |
