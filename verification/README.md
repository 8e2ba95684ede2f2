# fakestl containers in Dafny

This project models three containers of the fakestl course library: the red-black tree `panic::RbTree`, the resizable array `sjtu::vector` and the ordered map `sjtu::map`. The map is a thin layer over the tree. Each model is proved correct against an abstract meaning:

- **Tree**: the in-order sequence of its entries. It must stay strictly sorted, and the red-black rules must hold after every operation.
- **Map**: a finite map from keys to values.
- **Vector**: a sequence of elements that fits inside its buffer.

## Structure

- **The tree is immutable.**
  - A node is `Node(color, left, entry, right)`, where an entry is a (key, value) pair.
  - The source's parent pointers become a zipper. A `Path` lists the frames from the parent up to the root.
  - Each frame records the direction taken, the ancestor's colour and entry, and the sibling subtree.
  - Every algorithm that climbs through `parent` climbs this path instead:
    - `next` and `prev`;
    - `fixupInsert_`;
    - `delete_` and `fixupDelete_`.
  - The end node is the position `End`. A node is identified by its key, which is unique in the tree.
  - An iterator is a pair of its home tree's identity and a position.
- **The comparator is `<` on integer keys.** Equivalence, `!cmp(a, b) && !cmp(b, a)`, is stated through `Less`. With this comparator it is key equality.
- **`fixupInsert_` and `fixupDelete_` keep the source's case split**:
  - insertion: the red uncle, the zig-zag child and the straight child;
  - deletion: the red sibling, the sibling with two black children, the near red nephew and the far red nephew.
  - Each case is a function. Each has a lemma showing that the case keeps the loop invariant.
- **`setRoot_` blackens the root.** This is modelled through the `isRoot` flag of the rotations and through `Blacken`.
- **Differences from the source's control flow:**
  - The end node is value-initialised, so its colour is `kRed`. `fixupInsert_` therefore tests `node == root_()` only after testing the parent's colour. The model tests "at the root" first, which gives the same outcome.
  - `Node::prev` climbing from the leftmost node would read the end node's null parent. The iterator's `--` guard never lets this happen. The model returns `End` in that case and proves that only the minimum reaches it.
- **The vector is a value.** Its fields are:
  - the constructed elements;
  - the capacity;
  - whether `storage_` is non-null;
  - an identity that stands for its address, used by the self-assignment test.
- **Vector shifting and copying loops are methods with loop invariants.** This covers `insert`, `erase` and `operator=`.

Thrown exceptions become `Result.Err` values carrying the exception's name. `Optional<T>` becomes `Option<T>`. `exceptions.hpp` is not part of this model.

## Model

| member | source | states |
|---|---|---|
| RbNode.MinZipper | src/tree.hpp:330-332 | `min` reaches a node with no left child and nothing in front of it: the subtree's entries are that node's followed by what lies behind it |
| RbNode.MaxZipper | src/tree.hpp:334-336 | `max` reaches a node with no right child, and everything else in the subtree lies in front of it |
| RbNode.Min | src/tree.hpp:330-332 | the minimum node's entry is the first of the in-order sequence |
| RbNode.Max | src/tree.hpp:334-336 | the maximum node's entry is the last of the in-order sequence |
| RbNode.Find | src/tree.hpp:367-378 | `Node::find` returns a node whose key is equivalent to the one sought, located inside the tree; in a sorted tree it finds one exactly when the key is stored |
| RbNode.InsertAt | src/tree.hpp:315-327 | `Node::insert` descent: it stops at a node with an equivalent key (the duplicate) or at a null child where the new node is linked, and in both cases the path leads back to the starting node |
| RbNode.InsertAtOrdered | src/tree.hpp:315-327 | in a sorted tree the descent reports a duplicate exactly when the key is stored; a free slot lies between the entries below and above the new key, so linking there keeps the order |
| RbNode.FrameOrdered | src/tree.hpp:319-321 | one step of the descent goes left exactly for smaller keys; the node's entry and the subtree not taken lie on the proper side of the key, and the key is stored under the node iff it is stored in the child taken |
| RbNode.ClimbNext | src/tree.hpp:340-342 | the climb of `next` through left-child links reaches the first entry behind the path, or the end node if there is none |
| RbNode.ClimbPrev | src/tree.hpp:347-349 | the climb of `prev` reaches the last entry in front of the path, or the end position if there is none |
| RbNode.Next | src/tree.hpp:337-343 | `next` is the in-order successor: the first entry of the right subtree or of what lies behind, and the end node after the maximum |
| RbNode.Prev | src/tree.hpp:344-350 | `prev` is the in-order predecessor: the last entry of the left subtree or of what lies in front |
| RbNode.LeftRotate | src/tree.hpp:421-429 | a left rotation keeps the in-order sequence; the right child rises with its colour, and a rotated root turns Black (`setRoot_`) |
| RbNode.RightRotate | src/tree.hpp:431-439 | the mirror image: the in-order sequence is kept, the left child rises |
| RbNode.Rotate | src/tree.hpp:421-439 | rotation towards either side keeps the in-order sequence and moves the node down to the side given |
| RbInsert.RecolorUp | src/tree.hpp:474-479 | the red-uncle case turns parent and uncle Black and the grandparent Red (Black at the root), and keeps the entries |
| RbInsert.RotateUp | src/tree.hpp:481-489 | the black-uncle cases (zig-zag first rotated at the parent, then rotated at the grandparent) keep the entries and leave a Black subtree top |
| RbInsert.FixupInsert | src/tree.hpp:468-490 | `fixupInsert_` from a node up to the root keeps the tree's in-order sequence |
| RbInsert.RedParentFacts | src/tree.hpp:469-473 | under a Red parent the grandparent exists and is Black, and the uncle has the black height of the node |
| RbInsert.RecolorUpInv | src/tree.hpp:474-479 | after the red-uncle case the invariant holds again two levels up, at the grandparent |
| RbInsert.RotateUpInv | src/tree.hpp:481-489 | the rotation cases yield a red-black subtree whose black height is one more than the node's |
| RbInsert.FixupInsertValid | src/tree.hpp:468-490 | `fixupInsert_` ends with a tree where no red node has a red child, black height is uniform and the root is Black |
| RbInsert.FixupInsertStart | src/tree.hpp:456-458 | a fresh Red leaf linked into a valid tree satisfies the invariant `fixupInsert_` starts from |
| RbDelete.WithChild | src/tree.hpp:301-304 | `replace` swaps one child and leaves the node's other child, colour and entry; `fixupDelete_` uses it for the nephew recolourings at lines 552 and 560 of the same file |
| RbDelete.RedSibling | src/tree.hpp:532-538 | the red-sibling case recolours and rotates at the parent; the node gets a Red parent and the path above is unchanged |
| RbDelete.ClimbParent | src/tree.hpp:539-549 | the case of a sibling with two black children turns the sibling Red, keeps `x` in its place and gives the parent's subtree with the same entries and colour |
| RbDelete.RotateFar | src/tree.hpp:550-562 | the red-nephew cases (near nephew first rotated into far position, then a rotation at the parent) keep the entries |
| RbDelete.FixupDelete | src/tree.hpp:524-563 | `fixupDelete_` ends with a red-black tree with a Black root and the same in-order sequence |
| RbDelete.DeleteFixupFacts | src/tree.hpp:524-531 | a doubly black node has a sibling of one more black height; under a Red parent the sibling is Black |
| RbDelete.RedSiblingInv | src/tree.hpp:532-538 | the red-sibling case keeps the entries and the fixup invariant, now with a Red parent |
| RbDelete.ClimbParentInv | src/tree.hpp:539-549 | recolouring the sibling Red balances the parent; a Red parent or the root is then blackened and the fixup ends, otherwise it continues at the parent |
| RbDelete.RotateFarInv | src/tree.hpp:550-562 | the nephew cases end with a red-black subtree of the parent's black height whose top takes the parent's colour |
| RbDelete.NearRedInv | src/tree.hpp:551-562 | with only the near nephew Red, the double rotation yields a red-black subtree of the parent's black height |
| RbDelete.FarRedInv | src/tree.hpp:558-562 | with the far nephew Red, the single rotation yields a red-black subtree of the parent's black height |
| RbDelete.SpliceTarget | src/tree.hpp:500-504 | the node spliced out (the node itself, or its in-order successor when it has two children) has at most one child, and the entries around it are the ones around the erased node |
| RbDelete.SpliceOrigin | src/tree.hpp:508-517 | moving the successor into the erased node's place gives a path of the same colours and directions as before |
| RbDelete.Delete | src/tree.hpp:497-522 | `delete_` leaves a valid red-black search tree holding the entries in front of and behind the erased node, without it |
| RbDelete.SpliceFacts | src/tree.hpp:502-509 | below a Black spliced node the only child is Red or null (so blackening it or running `fixupDelete_` repairs the height); a Red spliced node is not the root and has a Black child of its own black height |
| RbDelete.DeleteSorted | src/tree.hpp:497-517 | removing one entry keeps the in-order sequence sorted |
| RbTrees.Empty | src/tree.hpp:393-396 | `init_` gives a valid empty tree whose leftmost position is the end node |
| RbTrees.Clear | src/tree.hpp:231-234 | `clear` leaves a valid empty tree of the same identity |
| RbTrees.Assign | src/tree.hpp:205-212 | `operator=` copies the other tree's entries and size, recomputes the leftmost, and leaves the object alone on self-assignment |
| RbTrees.Begin | src/tree.hpp:213-215 | `begin` is the position of the first entry (the end node when empty) |
| RbTrees.EndIter | src/tree.hpp:219-221 | `end` is the position one past the last entry |
| RbTrees.IsEmpty | src/tree.hpp:225-227 | the stored count is 0 exactly when the tree has no node |
| RbTrees.FindIter | src/tree.hpp:252-257 | `find` gives the node of an equivalent key, and the end iterator when the tree is empty or the key is absent |
| RbTrees.Deref | src/tree.hpp:123-125 | `*it` is the entry at the iterator's in-order index |
| RbTrees.Increment | src/tree.hpp:101-111 | `++` throws `invalid_iterator` exactly at the end node, else moves to the next in-order index (the end node after the last) |
| RbTrees.Decrement | src/tree.hpp:112-122 | `--` throws exactly at the leftmost position (index 0, also the end node of an empty tree), else moves one in-order index back |
| RbTrees.Insert | src/tree.hpp:235-244 | an equivalent key gives the existing node with `false` and changes nothing; a fresh key is placed at its rank with `true` and one more in the count; the tree stays a valid red-black search tree with the leftmost position at the minimum |
| RbTrees.Erase | src/tree.hpp:245-250 | the end iterator or one of another tree throws `invalid_iterator`; otherwise exactly the entry pointed at is removed, the count drops by one, and the tree stays valid with the leftmost at the minimum |
| RbTrees.SetValue | src/tree.hpp:139-141 | a write through `operator->` changes the value of that key only, and keeps the colours and black heights |
| RbTrees.Write | src/tree.hpp:139-141 | writing a value through an iterator keeps the tree valid and changes only the value of the entry pointed at |
| RbTrees.IncrementDecrement | src/tree.hpp:101-122 | `--` after `++` from a node returns to that node |
| RbTrees.DecrementIncrement | src/tree.hpp:101-122 | `++` after `--` from any position but the leftmost returns to it |
| RbTrees.InsertDeref | src/tree.hpp:235-244 | after `insert` the key set gains the key, and the returned iterator points at the new entry, or at the stored one when the key was present |
| RbTrees.InsertErase | src/tree.hpp:235-250 | erasing through the iterator `insert` returned for a fresh key gives back the previous entries |
| RbTrees.EraseFind | src/tree.hpp:245-257 | after `erase` the key set loses exactly that key and `find` for it gives `end()` |
| RbTrees.LeftmostIndex | src/tree.hpp:112-122 | an iterator is at the cached leftmost position exactly when it is at in-order index 0 |
| RbTrees.InsertLinked | src/tree.hpp:450-466 | `insert_` on a non-empty tree: after linking and `fixupInsert_` the tree is valid and holds the new entry at its rank, and `leftmost_` moves to the new node exactly when it was hung as the left child of the old leftmost |
| RbTrees.LinkedTree | src/tree.hpp:456-465 | the Red leaf linked at the free slot, after the fixup, gives a valid tree with a Black root and the entry between those below and above it |
| RbTrees.LeftmostLink | src/tree.hpp:459-462 | the new node is the left child of the old leftmost exactly when it is inserted in front of every entry |
| RbTrees.EraseFacts | src/tree.hpp:245-250 | after `delete_` the entries are the old ones without the erased one, the count is one less, and the updated `leftmost_` is the minimum |
| RbTrees.EraseContents | src/tree.hpp:497-498 | the erased node sits at index `|Before| + |left|`, which in a sorted sequence is its key's rank; unlinking it leaves the sequence without that index, and its `next` is the position of the following index |
| RbTrees.EraseLeftmost | src/tree.hpp:498 | moving `leftmost_` to the erased node's successor when it was the erased node keeps it at the minimum |
| Maps.ValueLessByKey | src/map.hpp:25-43 | all four overloads of `MapValueCompare` compare by key only, whatever the values, and form a strict weak order |
| Maps.SortedByValueLess | src/map.hpp:40-42 | the tree's in-order sequence is sorted exactly when every earlier pair precedes every later one under the pair-pair overload |
| Maps.RankByValueLess | src/tree.hpp:367-378 | in a sorted sequence the pairs that precede a bare key under the pair-key overload of `MapValueCompare` (src/map.hpp:37-39) are exactly the first `Rank` entries, the position the tree's key search reaches |
| Maps.ToMapIndex | src/map.hpp:47-52 | a sorted sequence of pairs maps exactly its keys, each to its stored value, with one pair per key |
| Maps.ToMapInsert | src/map.hpp:138-140 | placing a pair with a fresh key at its rank adds exactly that key with that value |
| Maps.ToMapRemove | src/map.hpp:145-147 | dropping the pair at an index removes exactly its key |
| Maps.EmptyMap | src/map.hpp:62 | a new map has no keys |
| Maps.AtKey | src/map.hpp:68-77 | `at` throws `index_out_of_bound` iff no equivalent key is stored, else gives that key's value |
| Maps.IndexConst | src/map.hpp:91-93 | const `operator[]` behaves exactly like `at` |
| Maps.Count | src/map.hpp:155-158 | `count` is 0 or 1, and is 1 iff the key is stored iff `find` does not give `end()` |
| Maps.FindKey | src/map.hpp:165-170 | `find` gives the key's node when it is stored and `end()` otherwise |
| Maps.Insert | src/map.hpp:138-140 | `insert` adds the pair iff its key is fresh (`true`), otherwise keeps the old value (`false`); the iterator points at the key |
| Maps.Erase | src/map.hpp:145-147 | `erase` throws for `end()` or a foreign iterator, else removes exactly that key |
| Maps.Index | src/map.hpp:83-87 | mutable `operator[]` on a hit changes nothing and gives the stored value; on a miss it adds the key with `ValueType()` and gives that |
| Maps.Put | src/map.hpp:83-87 | `m[k] = v` leaves `k` mapped to `v` and every other key as it was |
| Maps.Begin | src/map.hpp:97-102 | `begin` is the position of the smallest key |
| Maps.EndIterator | src/map.hpp:107-112 | `end` is the end node of the map's tree |
| Maps.IsEmpty | src/map.hpp:117-119 | `empty` holds iff no key is stored |
| Maps.Size | src/map.hpp:123-125 | `size` is the number of keys |
| Maps.Clear | src/map.hpp:129-131 | `clear` leaves no keys |
| Maps.PutContents | src/map.hpp:83-87 | the write through the reference `operator[]` returns sets the key's value and nothing else |
| Maps.AtAfterInsert | src/map.hpp:68-77 | after `insert`, `at` of the key gives the new value if it was fresh and the old one otherwise, and every other key reads as before |
| Maps.AtAfterErase | src/map.hpp:145-158 | after `erase`, `count` of the key is 0, `at` of it throws, and every other key reads as before |
| Maps.AtAfterPut | src/map.hpp:68-93 | after `m[k] = v`, `at(k)` gives `v`, and every other key reads as before |
| Vectors.EmptyVector | src/vector.hpp:138 | a new vector has no elements and no buffer |
| Vectors.Clear | src/vector.hpp:226-232 | `clear` leaves size 0, capacity 0 and no buffer |
| Vectors.At | src/vector.hpp:162-176 | `at` and `operator[]` throw `index_out_of_bound` iff `pos >= size`, else give element `pos` |
| Vectors.Front | src/vector.hpp:181-184 | `front` throws `container_is_empty` iff the vector is empty, else gives element 0 |
| Vectors.Back | src/vector.hpp:189-192 | `back` throws `container_is_empty` iff the vector is empty, else gives element `size - 1` |
| Vectors.GrowTo | src/vector.hpp:317-325 | `grow_(capNew)` keeps the elements, in order, in a buffer of `capNew` slots |
| Vectors.NextCapacityAsWritten | src/vector.hpp:326-328 | the growth rule as written gives 0, and so no room, exactly for a buffer of capacity 0 |
| Vectors.NextCapacity | src/vector.hpp:326-328 | the corrected growth rule always adds room: 4 from nothing, at least double otherwise |
| Vectors.ReserveAsWritten | src/vector.hpp:246 | `if (size_ == capacity_) grow_()` as written grows a full vector by the rule as written and leaves one with room alone; afterwards there is room for one more element unless the vector holds a buffer of capacity 0 |
| Vectors.Reserve | src/vector.hpp:246 | the same step with the corrected growth rule (see Findings): a full vector is grown, one with room is left alone, and afterwards there is always room for one more element |
| Vectors.ReserveAgrees | src/vector.hpp:326-328 | the rule as written and the corrected rule reserve the same buffer for every vector except one that holds a buffer of capacity 0 |
| Vectors.PushBackAsWritten | src/vector.hpp:277-281 | `push_back` as written appends the value, with the capacity the rule as written gives; the result keeps `size <= capacity` exactly when the vector did not hold a buffer of capacity 0 |
| Vectors.PushBack | src/vector.hpp:277-281 | `push_back` with the corrected growth rule (see Findings): appends the value at index `size`, leaves the earlier elements and keeps size within capacity |
| Vectors.PopBack | src/vector.hpp:286-290 | `pop_back` throws `container_is_empty` iff empty, else drops the last element and keeps the buffer |
| Vectors.InsertAsWritten | src/vector.hpp:244-253 | `insert(ix, v)` as written throws iff `ix > size`; otherwise size grows by one, element `ix` is `v`, the prefix stays, the suffix shifts right by one, the buffer is the one the rule as written reserves, and the result keeps `size <= capacity` exactly when the vector did not hold a buffer of capacity 0 |
| Vectors.Insert | src/vector.hpp:244-253 | `insert(ix, v)` with the corrected growth rule: throws iff `ix > size`; otherwise the vector stays valid, size grows by one, element `ix` is `v`, the prefix stays and the suffix shifts right by one |
| Vectors.ShiftIn | src/vector.hpp:247-251 | moving slots `size` down to `ix + 1` one place right, then storing the value at `ix`, keeps the prefix, puts the value at `ix` and shifts the suffix right by one |
| Vectors.Erase | src/vector.hpp:265-273 | `erase(ix)` throws iff `ix >= size`; otherwise size drops by one, the prefix stays and the suffix shifts left by one |
| Vectors.Assign | src/vector.hpp:150-157 | `operator=` gives the other vector's elements and capacity, and changes nothing on self-assignment |
| Vectors.Copy | src/vector.hpp:139 | the copy constructor gives the other vector's elements and capacity, with a buffer allocated |
| Vectors.PushBackPopBack | src/vector.hpp:277-290 | `pop_back` undoes `push_back`, `back` after `push_back` is the value pushed, and earlier indices read as before |
| Vectors.PopBackPushBack | src/vector.hpp:277-290 | pushing back the popped element restores the vector, buffer included |
| Vectors.GrowthAddsRoom | src/vector.hpp:317-328 | with the corrected rule a full vector always gains room for the next element |
| Vectors.InsertThenErase | src/vector.hpp:244-273 | `erase(ix)` after `insert(ix, v)` gives back the elements |
| Vectors.EraseThenInsert | src/vector.hpp:244-273 | inserting the erased element back at its index gives back the elements |
| Vectors.InsertAtEnd | src/vector.hpp:244-281 | `insert(size(), v)` is `push_back(v)`: same elements, same buffer |
| Vectors.CopyEmptyThenPushBackAsWritten | src/vector.hpp:150-157 | copying a vector that never allocated and then calling `push_back` as written stores an element in a buffer of capacity 0 |
| Vectors.CopyEmptyThenPushBack | src/vector.hpp:150-157 | with the corrected growth rule the same calls give a valid vector of capacity 4 holding the element |
| Vectors.CopyEmptyThenInsertAsWritten | src/vector.hpp:244-253 | copying a vector that never allocated and then calling `insert(0, v)` as written stores the element in a buffer of capacity 0 |
| Vectors.CopyEmptyThenInsert | src/vector.hpp:244-253 | with the corrected growth rule the same calls give a valid vector of capacity 4 holding the element |

## Left out

- Memory management is not modelled: `new` and `delete`, `Node::destroy`, `destroy_`, placement new, raw storage and explicit destructor calls. Node identity is the node's key, and a vector's buffer is its element sequence plus a capacity.
- `clone` is a value copy of the immutable tree.
- `Optional`'s heap cell is a plain option value.
- `src/type_traits.hpp` is left out. It holds compile-time metaprogramming only.
- The `const_iterator` classes and the `c`-prefixed accessors are left out. They duplicate the mutable iterators and accessors.
- The postfix `++` and `--` are left out. They differ from the prefix forms only in what they return.
- Vector iterators and their arithmetic are left out, together with `insert(iterator, value)` and `erase(iterator)`. `operator-(iterator)` assigns instead of subtracting, and it cannot compile once instantiated.
- Vectors.Reserve: states the corrected growth rule, not `grow_()` as written at src/vector.hpp:246 and src/vector.hpp:278. Vectors.ReserveAsWritten models the code as written (see Findings).
- Vectors.PushBack: follows the corrected growth rule. Vectors.PushBackAsWritten models the code as written (see Findings).
- Vectors.Insert: follows the corrected growth rule. Vectors.InsertAsWritten models the code as written (see Findings).
- Vectors.Insert: returns the updated vector but not the iterator to index `ix`, because vector iterators are not modelled.
- Vectors.Erase: returns the updated vector but not the iterator to index `ix`, for the same reason.
- Vector `empty` and `size` are not separate members. They are `|elems| == 0` and `|elems|`.
- Writes through the reference `vector::at` returns are not modelled.
- `size_t` overflow is not modelled: sizes and capacities are unbounded naturals, so capacity doubling never wraps.
- The comparator is fixed to `<` on integer keys rather than an arbitrary `Compare` type. Heterogeneous `find` is therefore a key lookup.
- Maps.Index: `ValueType()` is the parameter `dflt`, because Dafny has no generic default value.
- RbTrees.Erase: requires an iterator of its own tree to point at a live node or the end node. The source has no check for stale iterators and its behaviour on them is undefined.
- The `DEBUG` printing of the map is left out because it is I/O.

## Findings

| source | as written | input that shows it | evidently intended | confidence | as-written member | corrected member |
|---|---|---|---|---|---|---|
| src/vector.hpp:150-157, src/vector.hpp:246, src/vector.hpp:278, src/vector.hpp:326-328 | `operator=` calls `grow_(other.capacity_)` even when that capacity is 0, which allocates a non-null buffer of 0 slots; `grow_()` then doubles the capacity whenever `storage_` is non-null, so it stays 0 | copy an empty, never-used vector (`vector<int> a; vector<int> b(a);`), then `b.push_back(1)` or `b.insert(0, 1)`: the value is stored in slot 0 of a 0-slot buffer | grow to `kSzDefault_` whenever the capacity is 0, so `size <= capacity` always holds | not executed | Vectors.CopyEmptyThenPushBackAsWritten, Vectors.CopyEmptyThenInsertAsWritten | Vectors.CopyEmptyThenPushBack, Vectors.CopyEmptyThenInsert |
