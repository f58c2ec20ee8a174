# Custom STL containers, modelled in Dafny

This project models the core of a from-scratch C++ copy of the standard containers.

- **The tree.** At its centre is an unbalanced binary search tree (`SortedBinaryTree__`). Nodes are linked left, right and to their parent. Each node's key is selected from its stored value.
- **Associative façades.** Three thin façades forward to that tree:
  - `Set`: unique keys;
  - `Multiset`: repeated keys, with `count`, `equal_range`, `lower_bound` and `upper_bound` derived from a backwards walk;
  - `Map`: key/value pairs, with `operator[]`, `at` and `insert_or_assign`.
- **Sequence containers.**
  - `List`: circular and doubly linked around a sentinel node.
  - `Vector`: a growable buffer with a size and a capacity.
  - `Array`: `N` fixed slots.
  - `Queue` and `Stack`: adaptors over `List`.

Every container is a class whose fields the operations update:

- the tree stores its node structure as a datatype value, and a parent link is the path from the root;
- `List` keeps its nodes in an arena of `data`/`next`/`prev` sequences, with node 0 as the sentinel;
- `Vector` holds a Dafny `array` as its buffer, plus `size`;
- `Array` holds a Dafny `array` of fixed length.

Each operation is proved against a specification of the container's contents:

- the tree: its in-order sequence;
- `Set`: a mathematical `set`;
- `Multiset`: a `multiset`;
- `Map`: a `map`;
- the sequence containers: a `seq`.

Iterators are modelled by what they point at:

- a tree iterator is a node path plus the tree it belongs to;
- a list iterator is a node number;
- a vector position is an index.

## Model

| member | source | states |
|---|---|---|
| TreeNode.Count | src/misc/custom_binary_tree.h:149 | the node count (`size_`) is the length of the in-order sequence |
| TreeNode.InorderNode | src/misc/custom_binary_tree.h:56-77 | the node equation of the in-order abstraction: a node's sequence is its left subtree's, then its value, then its right subtree's |
| TreeNode.KeySetMembership | src/misc/custom_binary_tree.h:50 | a key is in the key set of a sequence exactly when some element carries it |
| TreeNode.ValueAt | src/misc/custom_binary_tree.h:105 | the node reached by a path holds the in-order element at that path's index |
| TreeNode.IndexDetermines | src/misc/custom_binary_tree.h:97-99 | two node paths with the same in-order index are the same node |
| TreeNode.Window | src/misc/custom_binary_tree.h:74-76 | the subtree under a node occupies a contiguous window of the in-order sequence |
| TreeIteration.LeftmostPath | src/misc/custom_binary_tree.h:130 | the leftmost descent reaches in-order index 0 (`begin()`) |
| TreeIteration.RightmostPath | src/misc/custom_binary_tree.h:94 | the rightmost descent reaches the last in-order index (`--end()`) |
| TreeIteration.SuccessorIndex | src/misc/custom_binary_tree.h:92 | `++` (leftmost of the right child, else climb until arriving from a left child) moves to in-order index +1, and falls off only at the last element |
| TreeIteration.PredecessorIndex | src/misc/custom_binary_tree.h:94 | `--` moves to in-order index -1, and falls off only at the first element |
| TreeIteration.ClimbFromRightChildIndex | src/misc/custom_binary_tree.h:76 | climbing parent links while coming from a right child reaches the node just after the subtree's window, or nothing when the window ends the sequence |
| TreeIteration.ClimbFromLeftChildIndex | src/misc/custom_binary_tree.h:76 | climbing parent links while coming from a left child reaches the node just before the window, or nothing when it starts the sequence |
| TreeMutation.InsertPlacement | src/misc/custom_binary_tree.h:152-156 | descending to the suitable node and attaching a leaf puts the value at an index where it keeps the in-order sequence sorted; without repeats an equal key is found instead |
| TreeMutation.InsertKeepsNodes | src/misc/custom_binary_tree.h:154-156 | inserting a leaf leaves every existing node at the same path with the same value, so iterators stay valid |
| TreeMutation.InsertKeepsSorted | src/misc/custom_binary_tree.h:135-136 | inserting at a boundary index keeps the sequence sorted |
| TreeMutation.RemoveLeftmost | src/misc/custom_binary_tree.h:159 | detaching the leftmost node of a subtree removes the first in-order element |
| TreeMutation.RemoveRoot | src/misc/custom_binary_tree.h:158-161 | the four erase cases (no child, left only, right only, both, where the in-order successor takes the node's place) leave left subtree then right subtree |
| TreeMutation.EraseAtIndex | src/misc/custom_binary_tree.h:137 | erasing the node at a path removes exactly the in-order element at that path's index |
| TreeMutation.RemoveKeepsSorted | src/misc/custom_binary_tree.h:137 | removing an element keeps the sequence sorted |
| TreeMutation.RemoveKeepsStrictlySorted | src/misc/custom_binary_tree.h:137 | removing an element keeps a unique-key sequence strictly sorted |
| TreeMutation.UpdateAtIndex | src/misc/custom_binary_tree.h:105 | writing through `*it` changes only the in-order element at that iterator's index |
| TreeContents.DistinctCount | src/misc/custom_binary_tree.h:47 | with unique keys, `size()` is the number of distinct elements |
| TreeContents.RemoveMember | src/misc/custom_binary_tree.h:137 | with unique keys, erasing an element removes exactly that member |
| TreeContents.RemovedKeys | src/misc/custom_binary_tree.h:137 | with unique keys, erasing an element removes exactly its key |
| TreeContents.ReplacedKeys | src/misc/custom_binary_tree.h:105 | replacing an element by one with the same key keeps the keys and the strict order |
| TreeContents.KeyDetermines | src/misc/custom_binary_tree.h:135-136 | in a unique-key sequence a key identifies one index |
| TreeContents.RejectedMembers | src/misc/custom_binary_tree.h:52 | a merge without repeats moves exactly the elements whose key is new; the ones left behind are those whose key was already present, still in order |
| TreeContents.AcceptsOutsideBase | src/misc/custom_binary_tree.h:52 | an element of a sorted source is taken exactly when its key is not yet in the tree |
| TreeContents.AcceptedWithRepeats | src/misc/custom_binary_tree.h:52 | with repeats allowed every element is taken and nothing is left behind |
| TreeContents.IdentityKeys | src/misc/custom_binary_tree.h:16-18 | under the identity selector the key set is the member set |
| BinaryTree.VerdictAt | src/misc/custom_binary_tree.h:166-171 | the reported flag for each argument is whether that argument was inserted |
| BinaryTree.SortedBinaryTree.Position | src/misc/custom_binary_tree.h:89-90 | an iterator's position is its in-order index; `end()` (null node) is position `size()` |
| BinaryTree.SortedBinaryTree.SamePosition | src/misc/custom_binary_tree.h:97-99 | iterators of one tree are equal iff they sit at the same position |
| BinaryTree.SortedBinaryTree.constructor | src/misc/custom_binary_tree.h:36 | a new tree is empty |
| BinaryTree.SortedBinaryTree.Copy | src/misc/custom_binary_tree.h:38 | a copy has the same in-order sequence |
| BinaryTree.SortedBinaryTree.Move | src/misc/custom_binary_tree.h:39 | a move takes the elements and leaves the source empty |
| BinaryTree.SortedBinaryTree.FromList | src/misc/custom_binary_tree.h:40 | building from a list keeps the first item of each key, strictly sorted |
| BinaryTree.SortedBinaryTree.Empty | src/misc/custom_binary_tree.h:46 | `empty()` iff there are no elements iff `begin() == end()` |
| BinaryTree.SortedBinaryTree.Size | src/misc/custom_binary_tree.h:47 | `size()` is the number of elements visited from `begin()` to `end()` |
| BinaryTree.SortedBinaryTree.Begin | src/misc/custom_binary_tree.h:130 | `begin()` is position 0 |
| BinaryTree.SortedBinaryTree.End | src/misc/custom_binary_tree.h:132 | `end()` is position `size()` and not dereferenceable |
| BinaryTree.SortedBinaryTree.Deref | src/misc/custom_binary_tree.h:105 | `*it` is the in-order element at its position |
| BinaryTree.SortedBinaryTree.Increment | src/misc/custom_binary_tree.h:92 | `++` moves one position on; from the last element it reaches `end()` |
| BinaryTree.SortedBinaryTree.Decrement | src/misc/custom_binary_tree.h:94 | `--` moves one position back; `--end()` is the greatest element; `--begin()` is `end()` |
| BinaryTree.SortedBinaryTree.Find | src/misc/custom_binary_tree.h:138 | `find(k)` is `end()` iff no element has key k, otherwise it is the last element with key k |
| BinaryTree.SortedBinaryTree.Contains | src/misc/custom_binary_tree.h:50 | `contains(k)` iff some element has key k |
| BinaryTree.SortedBinaryTree.Traverse | src/misc/custom_binary_tree.h:130-133 | walking with `++` from `begin()` to `end()` visits exactly the in-order sequence |
| BinaryTree.SortedBinaryTree.Insert | src/misc/custom_binary_tree.h:135-136 | inserted iff repeats are allowed or the key is absent; a new value is spliced in at a sorted boundary and the result points at it; otherwise nothing changes and the result points at the element with that key; existing nodes keep their places |
| BinaryTree.SortedBinaryTree.Erase | src/misc/custom_binary_tree.h:137 | erasing a live iterator removes exactly its element; `end()` fails and changes nothing |
| BinaryTree.SortedBinaryTree.Update | src/misc/custom_binary_tree.h:105 | writing through an iterator changes only its element |
| BinaryTree.SortedBinaryTree.Clear | src/misc/custom_binary_tree.h:53 | `clear()` empties the tree |
| BinaryTree.SortedBinaryTree.Swap | src/misc/custom_binary_tree.h:51 | `swap` exchanges the two trees' elements |
| BinaryTree.SortedBinaryTree.InsertAll | src/misc/custom_binary_tree.h:135-136 | inserting items one by one adds exactly the accepted ones, and the key set becomes the union |
| BinaryTree.SortedBinaryTree.AssignList | src/misc/custom_binary_tree.h:44 | list assignment leaves the first item of each key, strictly sorted |
| BinaryTree.SortedBinaryTree.CopyAssign | src/misc/custom_binary_tree.h:42 | copy assignment gives the other tree's sequence |
| BinaryTree.SortedBinaryTree.MoveFrom | src/misc/custom_binary_tree.h:43 | move assignment takes the other tree's elements and empties it; moving a tree into itself keeps its elements |
| BinaryTree.SortedBinaryTree.Merge | src/misc/custom_binary_tree.h:52 | merge moves the accepted elements of `other` into this tree; the rejected ones stay in `other` in order; the key set becomes the union |
| BinaryTree.SortedBinaryTree.Emplace | src/misc/custom_binary_tree.h:143-145 | one (iterator, flag) per argument in argument order; the flag says whether the argument was inserted and the iterator points at an element with its key |
| CustomSet.Set.constructor | src/associative_containers/set/custom_set.h:28 | a new set is empty |
| CustomSet.Set.FromList | src/associative_containers/set/custom_set.h:33-35 | a set built from a list holds exactly the listed values |
| CustomSet.Set.Copy | src/associative_containers/set/custom_set.h:29 | a copy has the same elements in the same order |
| CustomSet.Set.Move | src/associative_containers/set/custom_set.h:30 | a move takes the contents and leaves the source empty |
| CustomSet.Set.AssignList | src/associative_containers/set/custom_set.h:40-45 | list assignment clears, then inserts each value, so repeats collapse |
| CustomSet.Set.CopyAssign | src/associative_containers/set/custom_set.h:37 | copy assignment gives the other set's elements |
| CustomSet.Set.MoveAssign | src/associative_containers/set/custom_set.h:38 | the defaulted move assignment takes the other set's values and leaves it empty, unless both share one tree |
| CustomSet.Set.Empty | src/associative_containers/set/custom_set.h:67 | `empty()` iff the set is empty |
| CustomSet.Set.Size | src/associative_containers/set/custom_set.h:73 | `size()` is the number of distinct members |
| CustomSet.Set.Clear | src/associative_containers/set/custom_set.h:85 | `clear()` empties the set |
| CustomSet.Set.Insert | src/associative_containers/set/custom_set.h:94-97 | the flag is true iff the value was absent; the set gains the value; the iterator points at it |
| CustomSet.Set.Erase | src/associative_containers/set/custom_set.h:104 | erasing a live iterator removes its value; `end()` fails and changes nothing |
| CustomSet.Set.Swap | src/associative_containers/set/custom_set.h:111 | `swap` exchanges contents |
| CustomSet.Set.Merge | src/associative_containers/set/custom_set.h:118 | afterwards this set is the union and `other` keeps exactly the common values |
| CustomSet.Set.Find | src/associative_containers/set/custom_set.h:126 | `find(k)` is `end()` iff k is absent; otherwise it points at k, and it is the only iterator that does, so `find(*it) == it` |
| CustomSet.Set.Contains | src/associative_containers/set/custom_set.h:134 | `contains(k)` iff k is a member |
| CustomSet.Set.Emplace | src/associative_containers/set/custom_set.h:143-146 | one result per argument in order: true exactly for a value absent before and not earlier among the arguments; the set gains all arguments |
| CustomMultiset.RunCount | src/associative_containers/multiset/custom_multiset.h:217-218 | a maximal run of equal values is as long as that value's multiplicity |
| CustomMultiset.Multiset.constructor | src/associative_containers/multiset/custom_multiset.h:32 | a new multiset is empty |
| CustomMultiset.Multiset.FromList | src/associative_containers/multiset/custom_multiset.h:39-41 | building from a list keeps every item with its multiplicity |
| CustomMultiset.Multiset.Copy | src/associative_containers/multiset/custom_multiset.h:35 | copying re-inserts every element with repeats allowed, so the sequence is reproduced |
| CustomMultiset.Multiset.Move | src/associative_containers/multiset/custom_multiset.h:37 | a move takes the contents and leaves the source empty |
| CustomMultiset.Multiset.CopyAssign | src/associative_containers/multiset/custom_multiset.h:43-50 | copy assignment clears and re-inserts `other`'s elements, so its sequence is reproduced |
| CustomMultiset.Multiset.MoveAssign | src/associative_containers/multiset/custom_multiset.h:51 | the defaulted move assignment takes the other multiset's values with their multiplicities and leaves it empty, unless both share one tree |
| CustomMultiset.Multiset.AssignList | src/associative_containers/multiset/custom_multiset.h:53-58 | list assignment clears and re-inserts every item, so multiplicities are kept |
| CustomMultiset.Multiset.Empty | src/associative_containers/multiset/custom_multiset.h:80 | `empty()` iff the multiset is empty |
| CustomMultiset.Multiset.Size | src/associative_containers/multiset/custom_multiset.h:86 | `size()` counts elements with multiplicity |
| CustomMultiset.Multiset.Clear | src/associative_containers/multiset/custom_multiset.h:98 | `clear()` empties it |
| CustomMultiset.Multiset.Insert | src/associative_containers/multiset/custom_multiset.h:107-109 | `insert` always adds one copy and returns an iterator to it, the last of its equal run |
| CustomMultiset.Multiset.Erase | src/associative_containers/multiset/custom_multiset.h:116 | erasing a live iterator removes one copy of its value; `end()` fails and changes nothing |
| CustomMultiset.Multiset.Swap | src/associative_containers/multiset/custom_multiset.h:123 | `swap` exchanges contents |
| CustomMultiset.Multiset.Merge | src/associative_containers/multiset/custom_multiset.h:130 | merge with repeats moves everything: this gets the sum and `other` is left empty |
| CustomMultiset.Multiset.CountAndFindLast | src/associative_containers/multiset/custom_multiset.h:205-227 | the backwards walk from `find(k)` counts k's multiplicity; for an absent key both iterators are `end()` and the count is 0; otherwise the walk stops at the first element of the equal run |
| CustomMultiset.Multiset.FindLast | src/associative_containers/multiset/custom_multiset.h:208 | the tree's `find` yields `end()` for an absent key, otherwise the last element of k's run |
| CustomMultiset.Multiset.WalkBack | src/associative_containers/multiset/custom_multiset.h:215-224 | the loop stops at the first element of the run that ends at the found element and counts its length |
| CustomMultiset.Multiset.Count | src/associative_containers/multiset/custom_multiset.h:138-140 | `count(k)` is the multiplicity of k |
| CustomMultiset.Multiset.Find | src/associative_containers/multiset/custom_multiset.h:148 | `find(k)` is `end()` iff k is absent; otherwise it points at the last copy of k |
| CustomMultiset.Multiset.Contains | src/associative_containers/multiset/custom_multiset.h:156 | `contains(k)` iff k occurs |
| CustomMultiset.Multiset.EqualRange | src/associative_containers/multiset/custom_multiset.h:166-168 | returns (last copy of k, first copy of k), both `end()` when k is absent |
| CustomMultiset.Multiset.LowerBound | src/associative_containers/multiset/custom_multiset.h:176-178 | for a present key, the first copy of k, everything before it being smaller; `end()` for an absent key |
| CustomMultiset.Multiset.UpperBound | src/associative_containers/multiset/custom_multiset.h:186-188 | for a present key, the element after the last copy of k: everything before it is at most k and it is greater than k |
| CustomMultiset.Multiset.Emplace | src/associative_containers/multiset/custom_multiset.h:197-200 | every argument is inserted, duplicates included, each reported true with an iterator to it |
| CustomMap.AsMapValues | src/associative_containers/map/custom_map.h:11-15 | in a key-sorted pair sequence each pair's key maps to its value |
| CustomMap.AsMapSize | src/associative_containers/map/custom_map.h:139 | the number of stored pairs is the number of keys |
| CustomMap.AbsorbDistinct | src/associative_containers/map/custom_map.h:47 | inserting distinct-key pairs into a map adds those not already bound |
| CustomMap.InsertedMap | src/associative_containers/map/custom_map.h:47 | inserting a list of pairs one by one gives the map where the first pair of each new key wins |
| CustomMap.InsertedPair | src/associative_containers/map/custom_map.h:160-162 | inserting a pair binds its key only when the key was absent |
| CustomMap.ReplacedPair | src/associative_containers/map/custom_map.h:189-192 | overwriting the mapped value of a present key rebinds that key only |
| CustomMap.RemovedPair | src/associative_containers/map/custom_map.h:201 | removing a pair removes exactly its key from the map |
| CustomMap.LeftBehind | src/associative_containers/map/custom_map.h:222 | what a merge leaves in the source is the source restricted to the colliding keys |
| CustomMap.Map.Bound | src/associative_containers/map/custom_map.h:104-125 | every live iterator shows a key and the value the map binds to it |
| CustomMap.Map.constructor | src/associative_containers/map/custom_map.h:43 | a new map is empty |
| CustomMap.Map.FromList | src/associative_containers/map/custom_map.h:47 | building from a list keeps the first pair for each key |
| CustomMap.Map.Copy | src/associative_containers/map/custom_map.h:44 | a copy has the same bindings |
| CustomMap.Map.Move | src/associative_containers/map/custom_map.h:45 | a move takes the bindings and leaves the source empty |
| CustomMap.Map.AssignList | src/associative_containers/map/custom_map.h:52-57 | list assignment clears and inserts each pair: the first pair of each key wins |
| CustomMap.Map.CopyAssign | src/associative_containers/map/custom_map.h:49 | copy assignment gives the other map's bindings |
| CustomMap.Map.MoveAssign | src/associative_containers/map/custom_map.h:50 | the defaulted move assignment takes the other map's bindings and leaves it unbound, unless both share one tree |
| CustomMap.Map.Empty | src/associative_containers/map/custom_map.h:133 | `empty()` iff nothing is bound |
| CustomMap.Map.Size | src/associative_containers/map/custom_map.h:139 | `size()` is the number of keys |
| CustomMap.Map.Clear | src/associative_containers/map/custom_map.h:151 | `clear()` unbinds everything |
| CustomMap.Map.Insert | src/associative_containers/map/custom_map.h:160-162 | inserted iff the key was absent; a present key keeps its old value; the iterator shows the key's current binding |
| CustomMap.Map.InsertKeyValue | src/associative_containers/map/custom_map.h:172-175 | same as `insert(pair)` for the pair (key, value) |
| CustomMap.Map.InsertOrAssign | src/associative_containers/map/custom_map.h:187-194 | afterwards the key maps to the value and nothing else changes; the flag is true iff the key was absent |
| CustomMap.Map.Index | src/associative_containers/map/custom_map.h:67-69 | `operator[]` binds an absent key to the default value and returns the key's binding; a present key is unchanged |
| CustomMap.Map.At | src/associative_containers/map/custom_map.h:78-83 | `at(k)` is k's value, or a key-not-found failure when k is absent |
| CustomMap.Map.AtAssign | src/associative_containers/map/custom_map.h:78-83 | writing through `at(k)` (`m.at(1) = 18`, map_tests.h:141-145) rebinds k and changes no other entry; an absent key fails with key-not-found and changes nothing |
| CustomMap.Map.IndexAssign | src/associative_containers/map/custom_map.h:67-69 | `m[k] = v` (map_tests.h:205-231) leaves the map `old[k := v]`, whether k was bound or not |
| CustomMap.Map.Erase | src/associative_containers/map/custom_map.h:201 | erasing a live iterator unbinds its key; `end()` fails and changes nothing |
| CustomMap.Map.EraseKey | src/associative_containers/map/custom_map.h:208 | `erase(k)` unbinds k and keeps every other binding; an absent key reaches `erase(end())`, which fails |
| CustomMap.Map.Swap | src/associative_containers/map/custom_map.h:215 | `swap` exchanges the bindings |
| CustomMap.Map.Merge | src/associative_containers/map/custom_map.h:222 | this map gains the pairs whose key it lacked and keeps its own values for the rest; `other` keeps exactly the colliding pairs |
| CustomMap.Map.Find | src/associative_containers/map/custom_map.h:231 | `find(k)` is `end()` iff k is unbound, otherwise it shows k and its value |
| CustomMap.Map.Contains | src/associative_containers/map/custom_map.h:248 | `contains(k)` iff k is bound |
| CustomMap.Map.Emplace | src/associative_containers/map/custom_map.h:257-260 | one result per argument in order, false for a key already bound or repeated earlier; the first pair of each new key is added |
| ListAlgebra.ReversedTwice | src/sequence_containers/list/custom_list.h:117 | reversing twice gives the sequence back |
| ListAlgebra.InsertSorted | src/sequence_containers/list/custom_list.h:118 | inserting into a sorted sequence keeps it sorted and adds exactly one copy of the value |
| ListAlgebra.SortSeq | src/sequence_containers/list/custom_list.h:118 | the reference sort is sorted and a permutation of its input |
| ListAlgebra.SortedUnique | src/sequence_containers/list/custom_list.h:118 | two sorted permutations of one multiset are equal, so the result of `sort` is determined |
| ListAlgebra.DedupNoRepeats | src/sequence_containers/list/custom_list.h:119 | after `unique` no two neighbours are equal |
| ListAlgebra.DedupMembers | src/sequence_containers/list/custom_list.h:119 | `unique` keeps exactly the values that were there |
| ListAlgebra.DedupFixed | src/sequence_containers/list/custom_list.h:119 | `unique` leaves a list without adjacent repeats unchanged |
| ListAlgebra.MergePermutation | src/sequence_containers/list/custom_list.h:121 | merging loses and invents nothing: the result is a permutation of both inputs together |
| ListAlgebra.MergeSorted | src/sequence_containers/list/custom_list.h:121 | merging two sorted lists gives a sorted list |
| ListAlgebra.MergeIsSort | src/sequence_containers/list/custom_list.h:121 | merging two sorted lists gives exactly the sorted concatenation |
| ListRing.Values | src/sequence_containers/list/custom_list.h:22-31 | the list's values are read off the nodes in ring order, one per node |
| ListRing.NodeAtInjective | src/sequence_containers/list/custom_list.h:41-46 | distinct ring positions hold distinct nodes, so node equality is position equality |
| ListRing.LinkInsert | src/sequence_containers/list/custom_list.h:115 | linking a new node before a position keeps `next_`/`prev_` a consistent ring through the sentinel |
| ListRing.LinkErase | src/sequence_containers/list/custom_list.h:116 | unlinking a node keeps `next_`/`prev_` a consistent ring through the sentinel |
| ListRing.LinkReversed | src/sequence_containers/list/custom_list.h:117 | swapping `next_` and `prev_` in every node, sentinel included, makes the ring of the reversed order |
| ListRing.ValuesReversed | src/sequence_containers/list/custom_list.h:117 | the values of the reversed order are the reversed values |
| ListRing.ValuesInserted | src/sequence_containers/list/custom_list.h:115 | a node linked in at position p adds its value at index p |
| ListRing.ValuesErased | src/sequence_containers/list/custom_list.h:116 | a node unlinked at position p removes index p |
| CustomList.List.PositionOf | src/sequence_containers/list/custom_list.h:34-40 | an iterator is determined by its ring position, and is an element iterator iff that position is before `end()` |
| CustomList.List.constructor | src/sequence_containers/list/custom_list.h:82 | a new list is empty |
| CustomList.List.Begin | src/sequence_containers/list/custom_list.h:101 | `begin()` is position 0 (the sentinel's `next_`) |
| CustomList.List.End | src/sequence_containers/list/custom_list.h:103 | `end()` is the sentinel, position `size()` |
| CustomList.List.Increment | src/sequence_containers/list/custom_list.h:47-55 | `++` follows `next_`: one position on, from `end()` around to `begin()` |
| CustomList.List.Decrement | src/sequence_containers/list/custom_list.h:56-64 | `--` follows `prev_`: one position back, so `--end()` is the last element |
| CustomList.List.SamePosition | src/sequence_containers/list/custom_list.h:41-46 | iterators are equal iff they are at the same position |
| CustomList.List.StepBack | src/sequence_containers/list/custom_list.h:47-64 | `++` and `--` undo each other |
| CustomList.List.Deref | src/sequence_containers/list/custom_list.h:65 | `*it` is the value at its position |
| CustomList.List.Front | src/sequence_containers/list/custom_list.h:94 | `front()` is the first value |
| CustomList.List.Back | src/sequence_containers/list/custom_list.h:92 | `back()` is the last value |
| CustomList.List.Size | src/sequence_containers/list/custom_list.h:97 | `size()` is the number of values |
| CustomList.List.Empty | src/sequence_containers/list/custom_list.h:98 | `empty()` iff there are no values |
| CustomList.List.Clear | src/sequence_containers/list/custom_list.h:108 | `clear()` leaves no values |
| CustomList.List.Insert | src/sequence_containers/list/custom_list.h:115 | `insert(pos, v)` puts v just before pos; the result points at v and pos stays valid one place further on |
| CustomList.List.Erase | src/sequence_containers/list/custom_list.h:116 | `erase(pos)` removes exactly pos's value, returning the iterator now at that position; erasing `end()` (also `begin()` of an empty list) fails and changes nothing |
| CustomList.List.PushBack | src/sequence_containers/list/custom_list.h:109 | `push_back` appends |
| CustomList.List.PushFront | src/sequence_containers/list/custom_list.h:111 | `push_front` prepends |
| CustomList.List.PopBack | src/sequence_containers/list/custom_list.h:110 | `pop_back` drops the last value; on an empty list it fails and changes nothing |
| CustomList.List.PopFront | src/sequence_containers/list/custom_list.h:112 | `pop_front` drops the first value; on an empty list it fails and changes nothing |
| CustomList.List.Swap | src/sequence_containers/list/custom_list.h:113 | `swap` exchanges the two lists' values |
| CustomList.List.ToSeq | src/sequence_containers/list/custom_list.h:47-55 | walking with `++` from `begin()` to `end()` reads exactly the values |
| CustomList.List.Overwrite | src/sequence_containers/list/custom_list.h:65 | writing through each iterator in turn replaces the values and keeps every link |
| CustomList.List.Reverse | src/sequence_containers/list/custom_list.h:117 | `reverse` reverses the values |
| CustomList.List.Unique | src/sequence_containers/list/custom_list.h:119 | `unique` leaves the deduplicated sequence: consecutive repeats dropped |
| CustomList.List.Sort | src/sequence_containers/list/custom_list.h:118 | `sort` leaves the values ascending and a permutation of the old ones |
| CustomList.List.Merge | src/sequence_containers/list/custom_list.h:121 | `merge` leaves the two-way merge of both lists here, sorted when both were, and empties `other` |
| CustomList.List.Splice | src/sequence_containers/list/custom_list.h:120 | `splice(pos, other)` puts other's values in order before pos and empties `other` |
| CustomList.List.Emplace | src/sequence_containers/list/custom_list.h:124 | `emplace(pos, args...)` puts the arguments in order before pos and returns the last one inserted |
| CustomList.List.EmplaceBack | src/sequence_containers/list/custom_list.h:125 | `emplace_back(args...)` appends the arguments in order |
| CustomList.List.EmplaceFront | src/sequence_containers/list/custom_list.h:126 | `emplace_front(args...)` puts the arguments in order at the front |
| CustomList.List.CopyList | src/sequence_containers/list/custom_list.h:132 | `copy_list` appends a copy of the other list's values |
| CustomList.List.Sized | src/sequence_containers/list/custom_list.h:83 | `List(n)` holds n value-initialised elements |
| CustomList.List.FromList | src/sequence_containers/list/custom_list.h:84 | `List(items)` holds the items in order |
| CustomList.List.Copy | src/sequence_containers/list/custom_list.h:85 | a copy has the same values |
| CustomList.List.Move | src/sequence_containers/list/custom_list.h:86 | a move takes the values and leaves the source empty |
| CustomList.List.CopyAssign | src/sequence_containers/list/custom_list.h:89 | copy assignment gives the other list's values, self-assignment included |
| CustomList.List.MoveAssign | src/sequence_containers/list/custom_list.h:90 | move assignment gives the other list's values and empties it |
| CustomVector.Grown | src/tests/vector/vector_tests.h:334-345 | a full buffer grows to strictly more slots: one at first, then doubled |
| CustomVector.CopyOf | src/sequence_containers/vector/custom_vector.h:85 | a fresh buffer of the requested capacity starts with the copied elements |
| CustomVector.InsertSlot | src/sequence_containers/vector/custom_vector.h:70 | shifting slots right and writing the value gives the old prefix, the value, then the old suffix |
| CustomVector.RemoveSlot | src/sequence_containers/vector/custom_vector.h:72 | shifting slots left drops exactly the erased slot |
| CustomVector.Vector.constructor | src/sequence_containers/vector/custom_vector.h:34 | a new vector is empty with capacity 0 |
| CustomVector.Vector.Sized | src/sequence_containers/vector/custom_vector.h:36 | `Vector(n)` holds n value-initialised elements, capacity n |
| CustomVector.Vector.FromList | src/sequence_containers/vector/custom_vector.h:40 | `Vector(items)` holds the items, capacity their number |
| CustomVector.Vector.Copy | src/sequence_containers/vector/custom_vector.h:37 | a copy has the same elements, capacity their number |
| CustomVector.Vector.Move | src/sequence_containers/vector/custom_vector.h:38 | a move takes the buffer and leaves the source empty with no buffer |
| CustomVector.Vector.CopyAssign | src/sequence_containers/vector/custom_vector.h:42 | copy assignment gives the other's elements in a fresh buffer of that size |
| CustomVector.Vector.MoveAssign | src/sequence_containers/vector/custom_vector.h:43 | move assignment takes the other's buffer and empties it |
| CustomVector.Vector.AssignList | src/sequence_containers/vector/custom_vector.h:44 | list assignment gives the items, capacity their number |
| CustomVector.Vector.At | src/sequence_containers/vector/custom_vector.h:46-47 | `at(pos)` is element pos, or an out-of-range failure iff pos >= size |
| CustomVector.Vector.Get | src/sequence_containers/vector/custom_vector.h:48-49 | `operator[](pos)` is element pos |
| CustomVector.Vector.Put | src/sequence_containers/vector/custom_vector.h:48 | writing through `operator[](pos)` changes only element pos |
| CustomVector.Vector.Front | src/sequence_containers/vector/custom_vector.h:50-51 | `front()` is the first element |
| CustomVector.Vector.Back | src/sequence_containers/vector/custom_vector.h:52-53 | `back()` is the last element |
| CustomVector.Vector.Empty | src/sequence_containers/vector/custom_vector.h:57 | `empty()` iff there are no elements |
| CustomVector.Vector.Size | src/sequence_containers/vector/custom_vector.h:58 | `size()` is the number of elements and never exceeds `capacity()` |
| CustomVector.Vector.Reallocate | src/sequence_containers/vector/custom_vector.h:93 | moving to a new buffer keeps the elements and gives the requested capacity |
| CustomVector.Vector.Reserve | src/sequence_containers/vector/custom_vector.h:60 | `reserve(n)` raises the capacity to n only when n is larger; elements unchanged |
| CustomVector.Vector.ShrinkToFit | src/sequence_containers/vector/custom_vector.h:62 | `shrink_to_fit` makes the capacity the size; elements unchanged |
| CustomVector.Vector.Clear | src/sequence_containers/vector/custom_vector.h:64 | `clear()` leaves no elements and keeps the capacity |
| CustomVector.Vector.MakeRoom | src/sequence_containers/vector/custom_vector.h:94 | a full buffer is replaced by a grown one, a buffer with room is kept; elements unchanged |
| CustomVector.Vector.PushBack | src/sequence_containers/vector/custom_vector.h:65-66 | `push_back` appends; the capacity changes only when the buffer was full, and then grows |
| CustomVector.Vector.PopBack | src/sequence_containers/vector/custom_vector.h:67 | `pop_back` drops the last element and does nothing on an empty vector; the capacity stays |
| CustomVector.Vector.Swap | src/sequence_containers/vector/custom_vector.h:68 | `swap` exchanges elements, sizes and capacities |
| CustomVector.Vector.Insert | src/sequence_containers/vector/custom_vector.h:70-71 | `insert(pos, v)` puts v at pos, shifting later elements right, and returns pos |
| CustomVector.Vector.Erase | src/sequence_containers/vector/custom_vector.h:72 | `erase(pos)` removes element pos, shifting later ones left, and keeps the buffer |
| CustomVector.Vector.Emplace | src/sequence_containers/vector/custom_vector.h:79-80 | `emplace(pos, args...)` puts the arguments in order at pos and returns the position of the last one |
| CustomVector.Vector.EmplaceBack | src/sequence_containers/vector/custom_vector.h:82 | `emplace_back(args...)` appends the arguments in order |
| CustomArray.Array.constructor | src/sequence_containers/array/custom_array.h:31 | `Array<int, N>{}` holds N value-initialised slots |
| CustomArray.Array.FromList | src/sequence_containers/array/custom_array.h:35 | the items fill the first slots in order; the remaining slots are zero (a modelling choice) |
| CustomArray.Array.Copy | src/sequence_containers/array/custom_array.h:33-34 | copying or moving copies every slot |
| CustomArray.Array.CopyAssign | src/sequence_containers/array/custom_array.h:37-38 | copy or move assignment gives every slot the other's value |
| CustomArray.Array.AssignList | src/sequence_containers/array/custom_array.h:39 | list assignment overwrites the first slots in order; the remaining slots are zero (a modelling choice) |
| CustomArray.Array.At | src/sequence_containers/array/custom_array.h:41-42 | `at(pos)` is slot pos, or an out-of-range failure iff pos >= N |
| CustomArray.Array.Get | src/sequence_containers/array/custom_array.h:43-44 | `operator[](pos)` is slot pos |
| CustomArray.Array.Put | src/sequence_containers/array/custom_array.h:41-48 | writing through `at`, `[]`, `front` or `back` changes only that slot |
| CustomArray.Array.Front | src/sequence_containers/array/custom_array.h:45-46 | `front()` is slot 0 |
| CustomArray.Array.Back | src/sequence_containers/array/custom_array.h:47-48 | `back()` is slot N - 1 |
| CustomArray.Array.Empty | src/sequence_containers/array/custom_array.h:57 | `empty()` iff N is 0 |
| CustomArray.Array.Size | src/sequence_containers/array/custom_array.h:58 | `size()` is N |
| CustomArray.Array.Fill | src/sequence_containers/array/custom_array.h:62 | `fill(v)` makes every slot v |
| CustomArray.Array.Swap | src/sequence_containers/array/custom_array.h:61 | `swap` exchanges the two arrays slot by slot |
| CustomQueue.Queue.constructor | src/sequence_containers/queue/custom_queue.h:21 | a new queue is empty |
| CustomQueue.Queue.FromList | src/sequence_containers/queue/custom_queue.h:30-31 | `Queue(items)` holds the items, the first at the front |
| CustomQueue.Queue.Copy | src/sequence_containers/queue/custom_queue.h:40 | a copy has the same elements |
| CustomQueue.Queue.Move | src/sequence_containers/queue/custom_queue.h:49 | a move takes the elements and leaves the source empty |
| CustomQueue.Queue.MoveAssign | src/sequence_containers/queue/custom_queue.h:66-69 | move assignment takes the other's elements and empties it |
| CustomQueue.Queue.CopyAssign | src/sequence_containers/queue/custom_queue.h:79-82 | copy assignment gives the other's elements |
| CustomQueue.Queue.Front | src/sequence_containers/queue/custom_queue.h:91 | `front()` is the oldest element |
| CustomQueue.Queue.Back | src/sequence_containers/queue/custom_queue.h:99 | `back()` is the newest element |
| CustomQueue.Queue.Empty | src/sequence_containers/queue/custom_queue.h:124 | `empty()` iff there are no elements |
| CustomQueue.Queue.Size | src/sequence_containers/queue/custom_queue.h:132 | `size()` is the number of elements |
| CustomQueue.Queue.Push | src/sequence_containers/queue/custom_queue.h:139 | `push(v)` appends v, which becomes `back()` |
| CustomQueue.Queue.Pop | src/sequence_containers/queue/custom_queue.h:146 | `pop()` removes the front element and keeps the rest in order (first in, first out); on an empty queue it fails and changes nothing |
| CustomQueue.Queue.Swap | src/sequence_containers/queue/custom_queue.h:153 | `swap` exchanges contents |
| CustomQueue.Queue.EmplaceBack | src/sequence_containers/queue/custom_queue.h:161-163 | `emplace_back(args...)` pushes each argument in order |
| CustomStack.Stack.constructor | src/sequence_containers/stack/custom_stack.h:21 | a new stack is empty |
| CustomStack.Stack.FromList | src/sequence_containers/stack/custom_stack.h:30-31 | `Stack(items)` pushes the items in order, so the last one is on top |
| CustomStack.Stack.Copy | src/sequence_containers/stack/custom_stack.h:40 | a copy has the same elements |
| CustomStack.Stack.Move | src/sequence_containers/stack/custom_stack.h:49 | a move takes the elements and leaves the source empty |
| CustomStack.Stack.MoveAssign | src/sequence_containers/stack/custom_stack.h:64-67 | move assignment takes the other's elements and empties it |
| CustomStack.Stack.CopyAssign | src/sequence_containers/stack/custom_stack.h:76-79 | copy assignment gives the other's elements |
| CustomStack.Stack.Top | src/sequence_containers/stack/custom_stack.h:88 | `top()` is the most recently pushed element still there |
| CustomStack.Stack.Empty | src/sequence_containers/stack/custom_stack.h:105 | `empty()` iff there are no elements |
| CustomStack.Stack.Size | src/sequence_containers/stack/custom_stack.h:113 | `size()` is the number of elements |
| CustomStack.Stack.Push | src/sequence_containers/stack/custom_stack.h:121 | `push(v)` puts v on top |
| CustomStack.Stack.Pop | src/sequence_containers/stack/custom_stack.h:128 | `pop()` removes the top, so the element pushed before it is on top again (last in, first out); on an empty stack it fails and changes nothing |
| CustomStack.Stack.Swap | src/sequence_containers/stack/custom_stack.h:136 | `swap` exchanges contents |
| CustomStack.Stack.EmplaceFront | src/sequence_containers/stack/custom_stack.h:144-146 | `emplace_front(args...)` pushes each argument in order, so the last one ends on top |

## Left out

- The template bodies (`.tpp` files) are not part of this model. Each operation follows its declaration, its doc comment and the repository's gtest expectations. For the tree, its algorithm also follows the declared private helpers (`find_suitable_node`, `insert_new_node`, the four `erase_case_*`).
- Element types are `int` throughout, and tree keys are `int` under `std::less`. `Map` is generic in its mapped type. Other comparators and the `const_iterator` variants are not modelled; the latter behave as the iterators.
- `max_size()` is left out of every container: it is a platform constant. The Vector errors tied to it are dropped with it: `reserve(n)` beyond the maximum capacity (`kMaxCapacityMsg`) and `push_back` with no capacity left (`kMaxCapacityReachedMsg`), both at custom_vector.h:102-107.
- CustomVector.Vector.Reserve: accepts every `n` and never fails; the `kMaxCapacityMsg` error (custom_vector.h:104-105) is not modelled.
- CustomVector.Vector.PushBack: always succeeds, because capacity is unbounded; the `kMaxCapacityReachedMsg` error (custom_vector.h:106-107) is not modelled.
- `data()` and raw addresses are left out. So is the allocator (`src/misc/custom_sequence_allocator.h`). Vector iterators are indices.
- Exceptions become `Result`/`Outcome` failures. `std::bad_alloc` is not modelled.
- Destructors and memory release are not modelled; Dafny is garbage-collected.
- Tree node identity is a path from the root. Map keys and values are read off that structure, and writing through an iterator is `Update`.
- BinaryTree.SortedBinaryTree.Erase: iterators to the remaining nodes are not preserved. Because a node is identified by its path, erasing a node with one child lifts that child's subtree one level. Erasing a node with two children moves the successor's value to the erased node's path. An iterator held on a surviving node can then show another element or no node at all, whereas the relinking code keeps it on its node. The model proves only what happens to the in-order sequence (`TreeMutation.EraseAtIndex`). For insert, node preservation is proved (`TreeMutation.InsertKeepsNodes`).
- BinaryTree.SortedBinaryTree.Erase, CustomSet.Set.Erase, CustomMultiset.Multiset.Erase, CustomMap.Map.Erase and CustomMap.Map.EraseKey: that `erase(end())` fails and changes nothing is a modelling choice. The tree's `erase` body is not part of this model, and no test erases `end()` from these containers. `Map.EraseKey` reaches that case for an absent key, because it erases `find(k)` (custom_map.h:208).
- BinaryTree.SortedBinaryTree.Find: returns the last element of the run of equal keys. The declaration does not say which equal node `find` stops at. The choice follows from `count_and_find_last` (custom_multiset.h:205-227), which counts by walking backwards from `find(k)`, together with the multiset count tests that expect the full multiplicity (multiset_tests.h:376-379).
- BinaryTree.SortedBinaryTree.SamePosition: model iterators compare by node and by owning tree object, whereas the source (custom_binary_tree.h:97-99) compares the node address and the root address stored when the iterator was made. Two differences follow, and neither is modelled. First, the `end()` iterators of two different empty trees (null node, null root) compare equal in the source. Second, an iterator taken before the tree's root changes keeps the old root. Examples are `end()` of an empty tree taken before the first insert, and any iterator taken before the root is erased. Such an iterator compares unequal in the source to a fresh iterator at the same place.
- CustomList.List.Merge: requires `other != this`. A list merged with itself is not modelled.
- CustomList.List.Splice: requires `other != this`. Values are copied into this list's node arena rather than relinked, so node identity and O(1) cost across lists are not modelled.
- CustomList.List.Merge: `MergeSeq` is total, so the result on unsorted inputs is still determined. The sortedness of the result is proved only for sorted inputs.
- CustomList.List.Sort: rewrites the values in place instead of relinking nodes. Iterators keep their positions, not their values.
- CustomList.List.Emplace: for an empty argument list it returns `pos` unchanged. The no-argument `emplace()` overload (custom_list.h:123) is a no-op and is left out.
- CustomList.List.PopBack: popping an empty list is modelled as a failure. The body (custom_list.h:110) is not shown; `pop_back` presumably erases `--end()`, which for an empty list is `end()` and fails as `erase(end())` does. This is a modelling choice.
- CustomList.List.PopFront: popping an empty list is modelled as a failure. The body (custom_list.h:112) is not shown; `pop_front` presumably erases `begin()`, which for an empty list is `end()`. This is a modelling choice.
- CustomList.List.Erase: erasing `end()` is a failure.
- `insert_after` (custom_list.h:131): only its declaration is visible. It is presumably the helper behind `insert` and the push operations, and it is not a separate member; `Insert` models the public behaviour directly.
- CustomVector.Vector.Insert: takes the position as an index (`pos <= size`) rather than an iterator. Reallocation invalidating iterators is therefore not modelled.
- CustomVector.Vector.Emplace: requires at least one argument, as the declared `emplace_helper` does.
- CustomVector.Vector.CopyAssign: always allocates a buffer of exactly the other's size. Reusing a large enough existing buffer, as `std::vector` may, is not modelled.
- Out-of-range `operator[]` on Vector and Array is undefined behaviour. Vector.Get and Array.Get require a valid index instead.
- CustomVector.Vector.Erase: requires `pos < size`. `erase(end())` and any position past the end are undefined behaviour in the source and are not modelled.
- CustomArray.Array.constructor: models only the value-initialised form `Array<int, N>{}`, whose slots are zero. The default-initialised form `custom::Array<int, 5> a;` (array_tests.h:57) leaves the slots indeterminate and is not modelled.
- CustomArray.Array.FromList: requires at most `N` items. The list constructor (custom_array.h:35) accepts any `std::initializer_list`, and its body is not part of this model. It may throw on an over-long list (the header includes `<stdexcept>`), but that case is excluded here. Zero-filling the slots after the items follows `std::array` and is a modelling choice.
- CustomArray.Array.AssignList: requires at most `N` items, for the same reason as `FromList` (custom_array.h:39). An over-long list is excluded, and zero-filling the slots after the items is a modelling choice.
- CustomMap.Map.Index: takes the default mapped value as a parameter, since Dafny has no generic `mapped_type()`.
- CustomMultiset.Multiset.UpperBound: requires the key to be present. For an absent key, `upper_bound` applies `++` to `end()` (custom_multiset.h:186-188, 209-213). The declarations do not determine the result of that increment, so that case is not modelled.
- CustomMultiset.Multiset.LowerBound: returns `end()` for an absent key, as the code does (custom_multiset.h:176-178, 209-213). Its doc comment (custom_multiset.h:170-175) promises the first value not less than the key, which for an absent key inside the range would be an element.
- CustomMultiset.Multiset.EqualRange: returns `(find(k), lower_bound(k))`, i.e. (last copy, first copy), as the code does. Its doc comment describes the usual half-open range.
- BinaryTree.SortedBinaryTree.Merge: requires `other != this`. The same holds for CustomSet.Set.Merge, CustomMap.Map.Merge and CustomMultiset.Multiset.Merge, which require two different underlying trees. Self-merge is not modelled.
- Queue and Stack: the second template argument (`Container`) is fixed to `List`.
