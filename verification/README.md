# Travel diary system: a Dafny model of its core

This project models the core of a travel-diary and scenic-spot system in Dafny. The system is a Python server with JavaScript pages. The model covers:

- the hand-written data structures of the server:
  - stack, integer set, binary min-heap and the score-ordered top-k heap;
  - k-way merge, merge sort and quick sort;
  - KMP search and Huffman coding;
  - the character hash table, the word trie and the user-name trie;
  - the B-tree of spots and the red-black tree of reviews;
  - the Dijkstra route planner over an abstract graph, with its tour heuristics.
- the spot index (`Spot_class.py`): lookup by id and name, classification by type, and cached top lists per type.
- the records (`Model.py`): diaries, spots and their reviews, with their dictionary form.
- the route-point editor of the map page (`map.js`).
- the logic of the other pages: diary search and its history, paged diary loading with the image cache, the spot page's reviews and stars, the register and new-diary forms, the home page tabs, the spot search page and the image viewers.

Each source file is one module. Operations are pure functions over immutable datatypes, or methods where the source loops. Python exceptions, and the outcomes of requests the pages send, are `Result` and `Option` values. Every operation is paired with a partner: an inverse, an invariant it keeps, or a reference definition. Lemmas connect the two for all inputs.

Integers are unbounded, as Python's are. Scores and visit counts are whole numbers. The star rows of the pages take `real` ratings.

## Model

| member | source | states |
|---|---|---|
| Stack.Push | module/data_structure/stack.py:23-30 | pushing grows the size by one and makes the pushed element the top |
| Stack.Pop | module/data_structure/stack.py:32-44 | an empty stack raises IndexError and only then; otherwise the size drops by one and pushing the popped element back rebuilds the stack |
| Stack.Peek | module/data_structure/stack.py:46-58 | raises IndexError exactly on an empty stack |
| Stack.Clear | module/data_structure/stack.py:69-73 | the cleared stack is empty |
| Stack.PushPop | module/data_structure/stack.py:23-44 | `pop` after `push(x)` returns `x` and the previous stack |
| Stack.PeekIsPopped | module/data_structure/stack.py:32-58 | `peek` succeeds exactly when `pop` does and returns the element `pop` would remove |
| IntSet.AddInt | module/data_structure/set.py:15-25 | adding an int keeps the list duplicate-free, adds exactly that member, leaves a set that has it unchanged and otherwise appends it at the end |
| IntSet.Add | module/data_structure/set.py:15-25 | a non-int raises TypeError and only then; an element already present leaves the set unchanged; otherwise the members are the old ones plus the element |
| IntSet.RemoveFirst | module/data_structure/set.py:27-37 | dropping a present element shortens the list by one, keeps every other element and leaves no copy of the dropped one |
| IntSet.Remove | module/data_structure/set.py:27-37 | an absent element raises ValueError and only then; otherwise the size drops by one and exactly that member goes |
| IntSet.Discard | module/data_structure/set.py:39-46 | an absent element is a no-op; otherwise exactly that member goes |
| IntSet.FromList | module/data_structure/set.py:5-25 | the constructor raises TypeError exactly when some element is not an int; otherwise it yields a duplicate-free set whose members are exactly the listed ints |
| IntSet.FromInts | module/data_structure/set.py:5-13 | on a list of ints the constructor yields a duplicate-free set whose members are exactly the listed elements |
| IntSet.FromListInts | module/data_structure/set.py:5-13 | on a list of ints the constructor never raises and gives the set of the ints added in order |
| IntSet.Union | module/data_structure/set.py:56-65 | the members are those of either set |
| IntSet.Intersection | module/data_structure/set.py:67-77 | the members are those of both sets |
| IntSet.Difference | module/data_structure/set.py:79-89 | the members are those of the first set missing from the second |
| IntSet.Clear | module/data_structure/set.py:91-96 | the cleared set has size 0 and no member |
| IntSet.IntersectionOrder | module/data_structure/set.py:67-77 | the intersection lists the members of `self` that the other set holds, in `self`'s order |
| IntSet.DifferenceOrder | module/data_structure/set.py:79-89 | the difference lists the members of `self` that the other set lacks, in `self`'s order |
| IntSet.UnionOrder | module/data_structure/set.py:56-65 | the union lists `self`'s members, then the other set's new members in their order |
| IntSet.FromListOfValid | module/data_structure/set.py:5-13 | building a set from the element list of a valid set gives that set back |
| IntSet.FromIntsOfValid | module/data_structure/set.py:56-65 | `IntSet(self.elements)`, the first step of `union`, copies a valid set exactly |
| IntSet.SizeIsCardinality | module/data_structure/set.py:98-103 | in a duplicate-free set `size()` is the number of distinct members |
| MinHeap.Swap | module/data_structure/heap.py:17-18 | the two positions trade elements, every other position is kept, and the contents are a permutation of the old ones |
| MinHeap.SiftUp | module/data_structure/heap.py:20-26 | sifting up only permutes the heap |
| MinHeap.SiftDown | module/data_structure/heap.py:28-41 | sifting down only permutes the heap and leaves the positions before `i` alone |
| MinHeap.Smallest | module/data_structure/heap.py:28-41 | the index `_sift_down` moves to is `i` itself or one of its children |
| MinHeap.SiftUpHeap | module/data_structure/heap.py:20-26 | when only the edges into `i` may be out of order, `_sift_up(i)` restores the heap property |
| MinHeap.SiftDownHeap | module/data_structure/heap.py:28-41 | when only the edges out of `i` may be out of order, `_sift_down(i)` restores the heap property below the sifted range |
| MinHeap.Push | module/data_structure/heap.py:43-46 | the size grows by one and the contents gain exactly the pushed item |
| MinHeap.PushHeap | module/data_structure/heap.py:20-46 | `push` keeps `heap[parent(i)] <= heap[i]` for every i |
| MinHeap.Pop | module/data_structure/heap.py:48-60 | an empty heap raises IndexError and only then; otherwise the size drops by exactly one and the popped element plus what remains is the old contents |
| MinHeap.Peek | module/data_structure/heap.py:62-66 | an empty heap raises IndexError and only then |
| MinHeap.RootMin | module/data_structure/heap.py:62-66 | the root of a heap is not greater than any of its elements |
| MinHeap.PopMin | module/data_structure/heap.py:48-66 | on a non-empty heap `pop` succeeds, `peek` returns the element `pop` returns, that element is not greater than any element of the heap, and what remains is a heap |
| MinHeap.Heapify | module/data_structure/heap.py:68-74 | `heapify` yields a heap holding exactly the input multiset |
| MinHeap.Drain | module/data_structure/heap.py:48-60 | popping until empty yields the heap's multiset, one element per pop |
| MinHeap.DrainSorted | module/data_structure/heap.py:48-60 | popping a heap until empty yields its elements in ascending order |
| MinHeap.HeapSort | module/data_structure/heap.py:105-113 | `heapify` then repeated `pop` yields the input multiset in ascending order |
| Ranking.Compare | module/data_structure/indexHeap.py:129-135 | `_compare` is positive exactly when `a` ranks strictly above `b` by score, then visited time; zero exactly on equal keys |
| Ranking.HigherIsTotalPreorder | module/data_structure/indexHeap.py:129-135 | the ranking is a total preorder, so the heap results apply to it |
| TopKHeap.Swap | module/data_structure/indexHeap.py:123-127 | `_swap` swaps two positions and keeps `index_map[heap[i].id] == i` for every position |
| TopKHeap.SiftUp | module/data_structure/indexHeap.py:86-95 | `_siftUp` moves elements as the binary heap's sift-up under the ranking and keeps the index map consistent |
| TopKHeap.Largest | module/data_structure/indexHeap.py:97-110 | the child `_siftDown` picks is the best-ranked of the node and its children, the left one on ties |
| TopKHeap.SiftDown | module/data_structure/indexHeap.py:97-121 | `_siftDown` on the real heap moves elements as the binary heap's sift-down and keeps the index map consistent |
| TopKHeap.Insert | module/data_structure/indexHeap.py:50-56 | the size grows by one, the heap gains exactly the new item, and for a fresh id the index map stays consistent |
| TopKHeap.InsertValid | module/data_structure/indexHeap.py:50-95 | inserting a fresh id keeps the max-heap order and `index_map[heap[i].id] == i` for every position |
| TopKHeap.PopN | module/data_structure/indexHeap.py:34-46 | extracting `n` items from a copy of the heap gives the first `n` items of popping the whole copy |
| TopKHeap.GetTopK | module/data_structure/indexHeap.py:21-48 | `[]` when `k <= 0` or the heap is empty, otherwise exactly `min(k, size)` items taken from the heap; the heap itself is a value and so is left unchanged |
| TopKHeap.GetTopKBest | module/data_structure/indexHeap.py:21-48 | the result is non-increasing by score then visited time, and every item left out ranks no higher than every item returned |
| TopKHeap.ItemAtIdPosition | module/data_structure/indexHeap.py:50-56 | in a consistent heap every item sits at the position the index map gives for its id |
| TopKHeap.UpdateScore | module/data_structure/indexHeap.py:58-72 | an unknown id returns False and changes nothing; otherwise True, and the item under that id now carries the new score with nothing else changed |
| TopKHeap.UpdateScoreValid | module/data_structure/indexHeap.py:58-72 | sifting up on a raised score and down otherwise keeps the max-heap order and the index map |
| TopKHeap.UpdateVisitedTime | module/data_structure/indexHeap.py:74-84 | an unknown id returns False and changes nothing; otherwise True, and the visited time is overwritten with the argument rather than added to |
| TopKHeap.UpdateVisitedTimeValid | module/data_structure/indexHeap.py:74-84 | the heap order survives when the new visited time is not lower than the old one |
| TopKHeap.UpdateVisitedTimeBreaksOrder | module/data_structure/indexHeap.py:74-84 | a lowered visited time followed by sift-up only leaves a heap that is out of order |
| TopKHeap.UpdateVisitedTimeRestoring | module/data_structure/indexHeap.py:74-84 | the corrected update: same result and same bookkeeping as the original |
| TopKHeap.UpdateVisitedTimeRestoringValid | module/data_structure/indexHeap.py:74-84 | the corrected update keeps the heap order for every new visited time |
| KWayMerge.KOrderIsTotalPreorder | module/data_structure/kwaymerge.py:45-51 | the heap tuples `(-value1, -value2, list, position)` are ordered by a total preorder |
| KWayMerge.OrderStep | module/data_structure/kwaymerge.py:55-71 | the tuple popped from the heap is the current head of its list, and it comes no earlier in tuple order than anything popped before it |
| KWayMerge.PushHeads | module/data_structure/kwaymerge.py:34-52 | the heap starts out holding exactly the first item of every non-empty list |
| KWayMerge.PopRound | module/data_structure/kwaymerge.py:55-71 | one round pops the least tuple, appends its item and pushes the next item of the same list, keeping the loop invariant and leaving fewer items to take |
| KWayMerge.Finish | module/data_structure/kwaymerge.py:55-73 | once the heap is empty every item of every list has been output, and with sorted inputs the output is sorted |
| KWayMerge.KWayMergeDescending | module/data_structure/kwaymerge.py:13-73 | `[]` for no lists; the output is a permutation of the concatenated lists, so empty lists add nothing and its length is the sum of theirs; with every list sorted descending by (value1, value2) the output is too, equal keys coming out by list index and then by position |
| MergeSort.Merge | module/data_structure/merge.py:2-35 | the merge is a permutation of `left ++ right` and has the sum of their lengths |
| MergeSort.MergeSorted | module/data_structure/merge.py:10-30 | two lists sorted descending by (score, visited_time) merge into a list sorted the same way |
| MergeSort.MergeTiesLeft | module/data_structure/merge.py:25-27 | on fully equal keys the merge takes everything from `left` first |
| MergeSort.TiesConcat | module/data_structure/merge.py:33-34 | the elements tied with a key in `a + b` are those of `a`, then those of `b` |
| MergeSort.NoTies | module/data_structure/merge.py:10-30 | a best-first list whose head ranks below a key holds no element tied with it |
| MergeSort.MergeStable | module/data_structure/merge.py:10-35 | the merge is stable: the elements tied on any key come out as those of `left` in their order, then those of `right` in theirs |
| MergeSort.StableLeftStep | module/data_structure/merge.py:15-27 | taking the head of `left` on a tie or a better key keeps the tied elements in `left`-then-`right` order |
| MergeSort.StableRightStep | module/data_structure/merge.py:18-30 | the head of `right` is taken only when it ranks strictly above the head of sorted `left`, so no element of `left` ties with it and the tied order is kept |
| MergeSort.MergeSort | module/data_structure/merge.py:37-49 | lists of length at most one come back unchanged; the result is a permutation of the input sorted descending by (score, visited_time) |
| MergeSort.MergeSortStable | module/data_structure/merge.py:37-49 | `merge_sort` is stable: elements with equal keys keep their input order |
| QuickSort.PartitionSwap | module/data_structure/quicksort.py:16-20 | a swap for an element with visited_time at least the pivot's keeps the partition invariant |
| QuickSort.PartitionSkip | module/data_structure/quicksort.py:16-18 | skipping an element below the pivot keeps the partition invariant |
| QuickSort.Partition | module/data_structure/quicksort.py:1-23 | `low <= p <= high`; only `[low, high]` is permuted; the pivot lands at `p`, with visited_time at least the pivot's before it and below it after it |
| QuickSort.QuickSortRange | module/data_structure/quicksort.py:25-40 | the range is permuted in place into non-increasing visited_time order and nothing outside it moves |
| QuickSort.QuickSort | module/data_structure/quicksort.py:42-58 | `[]` for an empty list; otherwise a permutation of the input in non-increasing visited_time order |
| Kmp.BorderOfBorder | module/data_structure/KMP.py:20-21 | a border of a border is a border, which is why falling back to `next[j - 1]` stays on borders |
| Kmp.FallBack | module/data_structure/KMP.py:20-21 | one fallback step of `build_next` moves to the next shorter border and skips none |
| Kmp.NextEntry | module/data_structure/KMP.py:23-26 | the value `build_next` records at `i` is the longest proper border of `pattern[..i + 1]` |
| Kmp.BuildNext | module/data_structure/KMP.py:1-28 | `[]` for an empty pattern; otherwise one entry per character, each the length of the longest proper prefix of `pattern[0..i]` that is also its suffix (so `next[0] == 0` and `next[i] <= i`) |
| Kmp.ScanFallBack | module/data_structure/KMP.py:50-51 | one fallback step of the search keeps a partial match and skips no longer one |
| Kmp.ScanEntry | module/data_structure/KMP.py:53-54 | after reading a text character, `j` is the longest partial match ending there |
| Kmp.ScanChar | module/data_structure/KMP.py:49-54 | the loop body over one text character keeps `j` the longest partial match ending at the next position |
| Kmp.OccursIsMatch | module/data_structure/KMP.py:56-57 | a full-length partial match is an occurrence of the pattern |
| Kmp.Search | module/data_structure/KMP.py:30-59 | True iff the pattern is non-empty and occurs as a contiguous substring of the text, so False for an empty pattern and for a pattern longer than the text |
| Huffman.Bump | module/data_structure/HuffmanTree.py:68 | counting one more occurrence raises that character's count by one and leaves every other count alone |
| Huffman.Count | module/data_structure/HuffmanTree.py:68 | the frequency table (`Counter(data)`) has one entry per distinct character of the data, holding its number of occurrences |
| Huffman.HOrderIsTotalPreorder | module/data_structure/HuffmanTree.py:21-22 | the heap tuples `(freq, idx, node)` are ordered by a total preorder |
| Huffman.InitialHeap | module/data_structure/HuffmanTree.py:15-22 | the initial heap holds one leaf per table entry, and a one-entry table gives a one-leaf heap |
| Huffman.MergeRound | module/data_structure/HuffmanTree.py:25-36 | one round pops two trees and pushes their merge, so the heap shrinks by one, keeps the same leaves, and every internal node's frequency is the sum of its children's |
| Huffman.BuildHuffmanTree | module/data_structure/HuffmanTree.py:13-41 | None exactly for an empty table; otherwise the tree's leaves are exactly the table entries, every internal node's frequency is the sum of its children's, and a one-entry table gives a lone leaf |
| Huffman.CodesFrom | module/data_structure/HuffmanTree.py:48-57 | the codes collected below a node are the leaves' characters, each with its path from that node appended to the prefix |
| Huffman.GenerateCodes | module/data_structure/HuffmanTree.py:44-60 | codes exist only for leaf characters, each being its path with left = `0` and right = `1`; no tree gives no codes, and a lone leaf gets the empty code |
| Huffman.PrefixFree | module/data_structure/HuffmanTree.py:44-60 | no character's code is a prefix of another's |
| Huffman.CodeNonEmpty | module/data_structure/HuffmanTree.py:53-57 | in a tree that is not a lone leaf every code is non-empty |
| Huffman.HuffmanDecoding | module/data_structure/HuffmanTree.py:79-96 | `""` for empty data or no tree; a lone-leaf tree has no children, so a non-empty bit string raises AttributeError |
| Huffman.WalkCode | module/data_structure/HuffmanTree.py:86-94 | the decoding loop reads one character's code and emits that character, restarting at the root |
| Huffman.WalkEncode | module/data_structure/HuffmanTree.py:63-96 | decoding the encoding of any data over the tree's characters gives the data back |
| Huffman.NodeIffTwoChars | module/data_structure/HuffmanTree.py:25-41 | the root is an internal node exactly when there are at least two distinct characters |
| Huffman.HuffmanEncoding | module/data_structure/HuffmanTree.py:63-76 | `("", None)` for empty data; otherwise the tree's leaves are the data's characters with their counts, decoding the bits with ≥ 2 distinct characters gives the data back, and with one distinct character the bits are empty and the tree is a lone leaf |
| Huffman.SingleCharacterLost | module/data_structure/HuffmanTree.py:53-59 | data made of one repeated character encodes to `""`, which decodes to `""` instead of the data |
| Huffman.CorrectedCodes | module/data_structure/HuffmanTree.py:44-60 | the corrected code table gives a lone leaf the code `0`; every code is non-empty, and for any other tree it is the original table |
| Huffman.CorrectedDecoding | module/data_structure/HuffmanTree.py:79-96 | the corrected decoder never fails; it agrees with the original on other trees and emits one copy of a lone leaf's character per bit |
| Huffman.CorrectedEncoding | module/data_structure/HuffmanTree.py:63-76 | with the corrected table, decoding the encoding gives every input back, single-character data included |
| HashTable.New | module/data_structure/hashtable.py:2-11 | a fresh table has the requested number of buckets and every search finds nothing |
| HashTable.Hash | module/data_structure/hashtable.py:13-20 | the bucket index `ord(key) % size` lies in `[0, size)` |
| HashTable.AddId | module/data_structure/hashtable.py:45-47 | the id is listed afterwards, nothing listed is lost, and an id already listed is not added again |
| HashTable.Remove | module/data_structure/hashtable.py:92-93 | one copy of the id is removed and nothing else; an absent id leaves the list as it was |
| HashTable.BucketInsertOk | module/data_structure/hashtable.py:38-53 | the bucket loop of `insert` keeps one node per character, each with a non-empty duplicate-free id list |
| HashTable.BucketDeleteOk | module/data_structure/hashtable.py:89-99 | the bucket loop of `delete` keeps that shape, because a node whose list becomes empty is dropped from its bucket |
| HashTable.LookupInsert | module/data_structure/hashtable.py:38-73 | after the bucket loop of `insert` the searched character's ids gain the id and every other character's ids stay |
| HashTable.LookupDelete | module/data_structure/hashtable.py:67-99 | after the bucket loop of `delete` the character's ids lose the id and every other character's ids stay |
| HashTable.SearchNoDup | module/data_structure/hashtable.py:55-73 | in a valid table no id is listed twice for a character |
| HashTable.InsertSearch | module/data_structure/hashtable.py:22-53 | after `insert`, every character of the name lists the id (once, however often it is inserted) and every other character's list is unchanged |
| HashTable.InsertValid | module/data_structure/hashtable.py:22-53 | `insert` keeps the table valid |
| HashTable.DeleteSearch | module/data_structure/hashtable.py:75-99 | after `delete`, every character of the name has lost the id and every other character's list is unchanged |
| HashTable.DeleteValid | module/data_structure/hashtable.py:75-99 | `delete` keeps the table valid, emptied nodes included |
| HashTable.DeleteRemovesId | module/data_structure/hashtable.py:75-99 | after `delete(id, name)` no character of the name lists the id |
| HashTable.InsertDelete | module/data_structure/hashtable.py:22-99 | deleting what was just inserted for a fresh id restores every search result |
| Trie.Empty | module/data_structure/trie.py:18-20 | a fresh trie finds no word |
| Trie.Lower | module/data_structure/trie.py:39 | lower-casing keeps the length of the word |
| Trie.SetChild | module/data_structure/trie.py:40-41 | adding a child under a character makes that character lead to it and leaves the other children alone |
| Trie.RemoveChild | module/data_structure/trie.py:180-181 | `del node.children[char]` removes exactly that character's child |
| Trie.FindNodeAppend | module/data_structure/trie.py:75-92 | walking `p + s` is walking `p`, then `s` from where `p` ends |
| Trie.InsertNode | module/data_structure/trie.py:36-54 | the node walk of `insert` reports a new word exactly when the word was not stored |
| Trie.InsertNodeGet | module/data_structure/trie.py:36-49 | after the walk the word maps to the new data and every other word keeps its data |
| Trie.Insert | module/data_structure/trie.py:22-54 | an empty word returns False and changes nothing; otherwise True exactly when the lower-cased word was absent, and `size` grows by one exactly then |
| Trie.InsertSearch | module/data_structure/trie.py:22-73 | after `insert(w, d)`, `search(v)` returns `d` for every non-empty `v` with `lower(v) == lower(w)` and what it returned before for every other `v` |
| Trie.InsertWF | module/data_structure/trie.py:22-54 | `insert` keeps the children of every node keyed by distinct characters |
| Trie.DeleteNode | module/data_structure/trie.py:149-186 | `_delete_helper` unmarks a word exactly when it is stored, and asks its parent to drop a node only when that node holds no word and no child |
| Trie.DeleteNodeGet | module/data_structure/trie.py:149-186 | after `_delete_helper` the deleted word is gone and every other word keeps its data, pruned nodes included |
| Trie.DeleteNodeWF | module/data_structure/trie.py:149-186 | deleting keeps the children of every node keyed by distinct characters |
| Trie.Delete | module/data_structure/trie.py:134-168 | an empty word returns False and changes nothing; `size` drops by one exactly when the word was stored; True is returned only when the root is left with no child |
| Trie.DeleteSearch | module/data_structure/trie.py:134-186 | after `delete(w)` the word and its case variants are gone and every other word keeps its data, so an absent word leaves every search as it was |
| Trie.DeleteWF | module/data_structure/trie.py:134-186 | `delete` keeps the trie well formed |
| Trie.DeleteReportsFalse | module/data_structure/trie.py:178-186 | deleting `"a"` from a trie holding `"a"` and `"b"` removes the word and lowers `size`, yet returns False |
| Trie.DeleteCorrected | module/data_structure/trie.py:134-186 | the corrected `delete` returns True exactly when the word was stored, with the same resulting trie |
| Trie.CollectSpec | module/data_structure/trie.py:116-132 | `_collect_words(node, cur)` lists exactly the pairs of words extending `cur` that are stored below the node, with their data |
| Trie.StartsWithSpec | module/data_structure/trie.py:94-132 | `starts_with("")` is empty; otherwise it lists exactly the stored words with the lower-cased prefix, each with its data |
| Trie.AllWordsSpec | module/data_structure/trie.py:188-197 | `get_all_words` lists exactly the stored words with their data |
| Trie.InsertUser | module/data_structure/trie.py:236-261 | an existing username returns False and changes nothing; otherwise True, the id maps to the name, and `search_by_id(id)` returns `{id, name}` for a non-empty name |
| Trie.EmptyUsernameAccepted | module/data_structure/trie.py:247-261 | the empty username is accepted with True and mapped to the id, but `search_by_id` then finds nothing |
| Trie.InsertUserChecked | module/data_structure/trie.py:236-261 | the corrected `insert_user` returns True exactly for a non-empty new name, and then `search_by_id(id)` returns `{id, name}`; otherwise nothing changes |
| Trie.DeleteUser | module/data_structure/trie.py:290-312 | an unknown username returns False and changes nothing; otherwise the name is deleted from the trie |
| Trie.DeleteUserCorrected | module/data_structure/trie.py:290-312 | with the corrected `delete`, True exactly for a known name, after which the name is gone and so is its id |
| Trie.FindUsersByPrefix | module/data_structure/trie.py:314-325 | the users with a prefix are the data of `starts_with(prefix)`, in its order |
| Lex.Transitive | module/data_structure/btree.py:36-73 | Python's string order, which the tree compares names with, is transitive |
| Lex.Total | module/data_structure/btree.py:36-68 | any two names are equal or one is below the other |
| Lex.LessEqTotalPreorder | module/data_structure/btree.py:68-74 | "not above" is a total preorder on names |
| BTree.Empty | module/data_structure/btree.py:19-26 | a fresh tree is one empty leaf with the given minimum degree |
| BTree.FirstNotLess | module/data_structure/btree.py:34-37 | the scan of `_search_node` stops at the first key whose name is not below the searched one |
| BTree.SearchNode | module/data_structure/btree.py:32-48 | a key `_search_node` returns carries the searched name |
| BTree.Search | module/data_structure/btree.py:28-30 | a key `search` returns carries the searched name |
| BTree.InsertPos | module/data_structure/btree.py:63-70 | the leaf insertion point comes after every key not above the new name and before every key above it |
| BTree.InsertAt | module/data_structure/btree.py:70 | `list.insert(i, x)` puts `x` at `i` and shifts the rest by one |
| BTree.SplitChild | module/data_structure/btree.py:87-103 | the median key moves into the parent at `index`; the old child keeps the first `t - 1` keys and the new sibling the last `t - 1`; an inner child's children are split `t`/`t` |
| BTree.SplitChildBalanced | module/data_structure/btree.py:87-103 | splitting a full child keeps every leaf at the same depth |
| BTree.SplitChildInorder | module/data_structure/btree.py:87-103 | splitting a full child keeps the in-order key sequence |
| BTree.SplitChildBounded | module/data_structure/btree.py:87-103 | splitting a full child of a non-full parent leaves no node over `2t - 1` keys, and neither half full |
| BTree.InsertNonFull | module/data_structure/btree.py:61-85 | inserting into a leaf adds exactly the new key |
| BTree.InsertPosFits | module/data_structure/btree.py:68-70 | the leaf insertion keeps the node's keys sorted by name |
| BTree.InsertNonFullBalanced | module/data_structure/btree.py:61-85 | `_insert_non_full` keeps every leaf at the same depth |
| BTree.InsertNonFullInorder | module/data_structure/btree.py:61-85 | `_insert_non_full` puts the key somewhere in the in-order sequence, at a place that keeps a sorted sequence sorted |
| BTree.InsertNonFullBounded | module/data_structure/btree.py:61-85 | `_insert_non_full` into a node with room leaves no node over `2t - 1` keys |
| BTree.LiftBalanced | module/data_structure/btree.py:53-57 | a full root put under a new root and split keeps its keys, and the tree becomes one level taller |
| BTree.Insert | module/data_structure/btree.py:50-59 | `insert` keeps the tree's minimum degree |
| BTree.InsertPlaced | module/data_structure/btree.py:50-85 | after `insert` the tree is balanced at the new height, no node exceeds `2t - 1` keys, and the key sits in its place in the in-order sequence |
| BTree.PlacedMultiset | module/data_structure/btree.py:50-85 | the inserted key is the only one added, and a sorted sequence stays sorted |
| BTree.InsertValid | module/data_structure/btree.py:50-85 | `insert` keeps the tree valid; the height grows by one exactly when the root was full; the key sequence gains exactly the new key, at its sorted position |
| BTree.SearchNodeSound | module/data_structure/btree.py:32-48 | a key `_search_node` returns is one of the subtree's keys |
| BTree.SearchNodeComplete | module/data_structure/btree.py:32-48 | in a sorted tree, `_search_node` finds every name the subtree holds |
| BTree.SearchSpec | module/data_structure/btree.py:28-48 | in a valid tree `search(name)` succeeds exactly when some key has that name, and returns such a key; so a name never inserted gives None |
| BTree.SearchAfterInsert | module/data_structure/btree.py:28-85 | after `insert(data)`, `search(data["name"])` returns a key with that name, and the names found are the old ones plus that one |
| RbTree.InorderTraversal | module/data_structure/rb_tree.py:278-292 | `inorder_traversal` lists every node's key and value in in-order, one entry per item |
| RbTree.AllKeys | module/data_structure/rb_tree.py:294-307 | `get_all_keys` lists the keys in the same order as `inorder_traversal`, i.e. by value |
| RbTree.Locate | module/data_structure/rb_tree.py:24-34 | the descent of `search` stops at the sentinel or at a node holding the value |
| RbTree.Search | module/data_structure/rb_tree.py:24-34 | a node `search` returns holds the searched value |
| RbTree.LocateSpec | module/data_structure/rb_tree.py:24-34 | the descent keeps the whole tree, with smaller values behind it on the left and larger ones on the right |
| RbTree.SearchSpec | module/data_structure/rb_tree.py:24-34 | in an ordered tree `search(v)` finds a node exactly when `v` is stored, and returns the TNULL sentinel (None here) otherwise |
| RbTree.SearchIsItem | module/data_structure/rb_tree.py:24-34 | in an ordered tree `search(v)` returns the one stored pair with value `v` |
| RbTree.Recolor | module/data_structure/rb_tree.py:127-153 | case 1 of `_insert_fixup` leaves the grandparent red |
| RbTree.InsertFixupItems | module/data_structure/rb_tree.py:122-160 | `_insert_fixup` only recolours and rotates: the in-order items do not change |
| RbTree.InsertExistingItems | module/data_structure/rb_tree.py:94-97 | inserting a value already present replaces that node's key and nothing else |
| RbTree.InsertItems | module/data_structure/rb_tree.py:78-120 | `insert(k, v)` puts `(k, v)` into the ascending item sequence, replacing the key of an item with the same value |
| RbTree.InsertOrdered | module/data_structure/rb_tree.py:88-106 | after `insert` the values are still strictly ascending, with no duplicate, and the items are the old ones with `(k, v)` in place of any item of value `v` |
| RbTree.InsertExistingShape | module/data_structure/rb_tree.py:94-97 | inserting a value already present changes only that node's key: colours, values, shape and size stay |
| RbTree.InsertFixupRB | module/data_structure/rb_tree.py:122-160 | `_insert_fixup` turns a tree whose only fault is a red node under a red parent into a red-black tree with a black root |
| RbTree.InsertRB | module/data_structure/rb_tree.py:78-160 | after `insert` the root is black, no red node has a red child, and every path has the same black height |
| RbTree.InsertValid | module/data_structure/rb_tree.py:78-160 | every `insert` keeps the tree an ordered red-black tree with a black root |
| RbTree.SearchAfterInsert | module/data_structure/rb_tree.py:78-120 | after `insert(k, v)`, `search(v)` returns `(k, v)` and every other search answers as before |
| RbTree.LocateMin | module/data_structure/rb_tree.py:174-180 | `_minimum` stops at a node with no left child |
| RbTree.MinItems | module/data_structure/rb_tree.py:174-180 | the node `_minimum` finds holds the subtree's first item, and its right child can take its place |
| RbTree.UnlinkItems | module/data_structure/rb_tree.py:162-214 | the `_transplant` steps of `delete` take out the node's own item and keep every other item in place |
| RbTree.DeleteFixupItems | module/data_structure/rb_tree.py:222-276 | `_delete_fixup` only recolours and rotates: the in-order items do not change |
| RbTree.DeleteItems | module/data_structure/rb_tree.py:182-220 | `delete(v)` removes the item of value `v` and keeps every other item, in order |
| RbTree.DeleteOrdered | module/data_structure/rb_tree.py:182-220 | after `delete(v)` the values are still strictly ascending, `v` is no longer among them, and every other pair remains |
| RbTree.DeleteAbsent | module/data_structure/rb_tree.py:186-189 | deleting an absent value leaves the tree exactly as it was |
| RbTree.SearchAfterDelete | module/data_structure/rb_tree.py:182-220 | after `delete(v)`, `search(v)` finds nothing and every other search answers as before |
| RbTree.HeightBound | module/data_structure/rb_tree.py:309-317 | in a red-black tree no path (`get_height`) is more than twice the black height, plus one for a red root |
| RbTree.SizeBound | module/data_structure/rb_tree.py:309-317 | a red-black tree of black height `h` holds at least `2^h - 1` items, so its height is logarithmic in its size |
| Router.ValidWeights | module/data_structure/dijkstra.py:71-75 | the weights kept over parallel edges are exactly the non-negative `length` (else `weight`, else 1) values of the edges |
| Router.MinOf | module/data_structure/dijkstra.py:76 | `min(weights)` is one of the weights and not above any of them |
| Router.EdgeWeight | module/data_structure/dijkstra.py:59-92 | `_get_edge_weight` is infinite exactly when there is no edge between the nodes |
| Router.EdgeWeightParallel | module/data_structure/dijkstra.py:70-76 | over several parallel edges the weight is the least valid one, or 1 when none is valid |
| Router.WalkStep | module/data_structure/dijkstra.py:123-128 | a walk of weight `w` to `u` followed by an edge is a walk of weight `w` plus the edge weight |
| Router.RankUpdate | module/data_structure/dijkstra.py:127-130 | after a relaxation every predecessor is still strictly below its successor in the order of (distance, time of last update) |
| Router.RelaxEdge | module/data_structure/dijkstra.py:123-130 | relaxing one neighbour keeps every recorded distance the weight of a real walk from the start and every predecessor link an edge, records the neighbour, raises no distance, leaves the neighbour at most the distance through the current node, and queues every distance it changes |
| Router.RelaxNeighbors | module/data_structure/dijkstra.py:119-130 | `_relax_neighbors` records every neighbour at most at the distance through the current node, raises no recorded distance, queues every distance it changes, and keeps the search invariant and the ranking of predecessors |
| Router.PopQueue | module/data_structure/dijkstra.py:161-174 | popping the queue yields a recorded node whose recorded distance is at most the popped one, and shrinks the queue |
| Router.SkipSettled | module/data_structure/dijkstra.py:168-174 | dropping the entry of a visited node or a stale entry leaves every unvisited recorded node queued at its recorded distance |
| Router.VisitSettled | module/data_structure/dijkstra.py:176-180 | after a node is visited and its neighbours relaxed, every neighbour of a visited node is recorded and every unvisited recorded node is queued at its recorded distance |
| Router.Visit | module/data_structure/dijkstra.py:176-180 | visiting a node popped at its recorded distance keeps the search invariants and the ranking, and every neighbour of a visited node is recorded |
| Router.SearchStep | module/data_structure/dijkstra.py:161-180 | one pass of the main loop either pops the end node, which is recorded, or keeps every unvisited recorded node queued while it visits a new node or shrinks the queue |
| Router.Exhausted | module/data_structure/dijkstra.py:161 | once the queue is empty every node reachable from the start has been visited |
| Router.SearchLoop | module/data_structure/dijkstra.py:151-180 | after the main loop every recorded distance is the weight of a real walk from the start, every predecessor link is a graph edge, predecessors are ranked below their successors, and the end node is recorded whenever it is reachable from the start |
| Router.ReconstructPath | module/data_structure/dijkstra.py:94-117 | `[]` exactly when the end has no predecessor and is not the start; otherwise a path ending at the end node whose first node has no predecessor and each of whose nodes is the predecessor of the next; a cycle or an overlong chain raises ValueError, which never happens on ranked predecessors of recorded graph nodes |
| Router.ChainExtend | module/data_structure/dijkstra.py:103-110 | on ranked predecessors the node that follows a descending chain is not on it yet, so the cycle check never fires |
| Router.DistinctCard | module/data_structure/dijkstra.py:112-114 | a chain of distinct nodes of the graph is no longer than the node count, so the length check never fires |
| Router.PredChain | module/data_structure/dijkstra.py:94-117 | a chain of predecessor links back from a recorded node starts at the start node and runs along graph edges |
| Router.Dijkstra | module/data_structure/dijkstra.py:132-188 | an endpoint missing from the graph raises ValueError; `(0, [start])` when start equals end; `(inf, [])` exactly when the end is unreachable; otherwise a finite distance and a non-empty path from start to end along graph edges, the distance being the weight of a real walk between them |
| Router.RecordTarget | module/data_structure/dijkstra.py:704-705 | a settled target is recorded with the weight of a real walk from the start, and only valid targets are recorded |
| Router.MultiTargetStep | module/data_structure/dijkstra.py:691-718 | one round of the multi-target loop keeps the search invariants and the found distances real, records a visited valid target, and either stops with every valid target found or keeps the search settled while visiting a new node or shrinking the queue |
| Router.PopFresh | module/data_structure/dijkstra.py:691-698 | popping the least entry either exposes an unvisited node at its recorded distance, whose entry leaves the queue, or skips a visited node or stale entry while every unvisited recorded node stays queued |
| Router.SmallerSubset | module/data_structure/dijkstra.py:691 | when every found target is valid, fewer found than valid targets means some valid target is still missing |
| Router.MultiTargetLoop | module/data_structure/dijkstra.py:685-720 | every target distance the loop finds belongs to a valid target and is the weight of a real walk from the start, and every valid target reachable from the start is found |
| Router.DijkstraMultiTarget | module/data_structure/dijkstra.py:664-720 | no valid targets give an empty result; otherwise a start missing from the graph raises ValueError; the result holds exactly the valid targets reachable from the start, each with the weight of a real walk from the start |
| Router.TourDistanceInf | module/data_structure/dijkstra.py:358-375 | a tour's distance is infinite exactly when one of its legs is |
| Router.CalculateTourDistance | module/data_structure/dijkstra.py:358-375 | `_calculate_tour_distance` returns inf exactly when some leg is missing or infinite, and the sum of the legs otherwise |
| Router.Nearest | module/data_structure/dijkstra.py:309-312 | `min` with the distance key picks a candidate no farther than any other, the first such one on ties |
| Router.Dedup | module/data_structure/dijkstra.py:304 | `set(waypoints)` holds each waypoint once and nothing else |
| Router.NearestTour | module/data_structure/dijkstra.py:307-316 | the greedy loop visits exactly the unvisited nodes, each as often as it is listed |
| Router.NearestTourGreedy | module/data_structure/dijkstra.py:307-316 | each step of the tour goes to a nearest node among those not yet visited |
| Router.NearestNeighborTsp | module/data_structure/dijkstra.py:291-318 | the tour starts at the start node |
| Router.NearestNeighborSpec | module/data_structure/dijkstra.py:291-318 | after the start the tour holds each waypoint exactly once and nothing else, chosen greedily |
| Router.Reversal | module/data_structure/dijkstra.py:343 | reversing `tour[i..j]` keeps the length, the multiset of nodes and everything before `i` |
| Router.FirstImprovement | module/data_structure/dijkstra.py:337-354 | a move the double loop accepts keeps the first node and the nodes and strictly shortens the tour; when it finds none, no remaining reversal of the scan shortens it |
| Router.TwoOptOptimize | module/data_structure/dijkstra.py:320-356 | `_two_opt_optimize` keeps `tour[0]` and the tour's nodes, never lengthens the tour, and stops only when no reversal of a segment of at least three nodes after the first shortens it |
| Router.ConstructCompletePath | module/data_structure/dijkstra.py:377-406 | an empty tour raises IndexError; a leg with no path raises ValueError; otherwise the path starts at `tour[0]` and the total is its number of hops |
| Router.CompletePathSpec | module/data_structure/dijkstra.py:377-406 | when every leg's path runs along graph edges between its endpoints, the stitched path does too, passes every tour node and ends at the last one |
| Router.AllPairs | module/data_structure/dijkstra.py:268-279 | an endpoint outside the graph raises ValueError; every recorded path runs along graph edges between its two keys; between points that reach one another every ordered pair of distinct positions gets a non-empty path |
| Router.PairsFrom | module/data_structure/dijkstra.py:272-277 | the inner precomputation loop gives, between mutually reachable points, a non-empty path for every pair starting at position `i`, and fails only with ValueError |
| Router.TourLegs | module/data_structure/dijkstra.py:281-289 | every leg of a rearranged nearest-neighbour tour joins the points at two different positions of `[start] + waypoints`; a leg from a node to itself needs that node to be both the start and a waypoint |
| Router.RepeatedLeg | module/data_structure/dijkstra.py:281-289 | a tour leg from a node to itself can only happen when that node is both the start and one of the waypoints |
| Router.LegsRecorded | module/data_structure/dijkstra.py:268-289 | once every pair of distinct positions has a path, so does every leg of the improved tour |
| Router.SolveTsp | module/data_structure/dijkstra.py:258-289 | the route starts at the start node, runs along graph edges, passes every waypoint, and its total is its hop count; when all points are graph nodes that reach one another a route is returned |
| Router.PlanRoute | module/data_structure/dijkstra.py:227-256 | fewer than two points, or a point matched to no node, raise ValueError; a returned path starts at the first point, runs along graph edges and passes every other point; when every point is matched to a node and they all reach one another, a finite distance and a non-empty path are returned |
| SpotIndex.OfKind | module/Spot_class.py:81-90 | the spots filed under a type are exactly the spots of that type |
| SpotIndex.TableSize | module/Spot_class.py:19 | the name table has `max(1000, 2 * counts)` buckets: at least 1000 and at least twice the count, and one of the two |
| SpotIndex.BuildTable | module/Spot_class.py:20-22 | inserting the spots keeps the table's bucket count and shape |
| SpotIndex.BuildTableSearch | module/Spot_class.py:20-22 | after the spots are inserted, a character's bucket lists an id exactly when it listed it before or a spot with that id has the character in its name |
| SpotIndex.BuildTableValid | module/Spot_class.py:20-22 | inserting the spots keeps the table's invariant |
| SpotIndex.InitTypes | module/Spot_class.py:25-32 | every known spot type starts with no ids, no cached top list and an empty heap |
| SpotIndex.Place | module/Spot_class.py:82-92 | filing one spot creates its type when new, appends its id, adds its entry to the type's heap and leaves every other type alone |
| SpotIndex.Classify | module/Spot_class.py:77-93 | after `classify` the types are the known ones plus those of the spots |
| SpotIndex.ClassifyEntry | module/Spot_class.py:77-93 | after `classify` each type lists the ids of its spots in order and its heap holds exactly their entries |
| SpotIndex.Build | module/Spot_class.py:13-35 | the constructor keeps the spots and count, sizes the table, and gives each type the ids of its spots in order, an empty cache and a heap of exactly their entries |
| SpotIndex.BuildValid | module/Spot_class.py:13-35 | with distinct spot ids, every type's heap built by the constructor keeps the heap order and the index invariant holds |
| SpotIndex.GetSpot | module/Spot_class.py:37-43 | `None` exactly for an id outside `1..counts`; IndexError when the id is within the count but past the list; otherwise one of the spots |
| SpotIndex.GetSpotById | module/Spot_class.py:37-43 | when spot `i` sits at position `i - 1` and the count is the list length, every id in range yields the spot with that id |
| SpotIndex.Narrow | module/Spot_class.py:62-69 | the intersection loop keeps exactly the ids that are in the starting set and in the bucket of every remaining character |
| SpotIndex.GetSpotByName | module/Spot_class.py:45-75 | empty keys give `[]`; otherwise the result lists each id once, and an id exactly when every character of the keys lists it |
| SpotIndex.SearchByName | module/Spot_class.py:45-75 | on a freshly built index, an id is found exactly when the keys are non-empty and every character of them occurs in the name of a spot with that id |
| SpotIndex.SearchByNameDistinct | module/Spot_class.py:45-75 | with distinct ids, an id is found exactly when the one spot with that id has every character of the keys in its name |
| SpotIndex.GetTopKByType | module/Spot_class.py:105-126 | an unknown type gives `[]` and changes nothing; a non-empty cache of exactly `k` entries is returned as is; otherwise the heap's top `k` is computed, cached and returned |
| SpotIndex.TopKByTypeFresh | module/Spot_class.py:105-126 | on a consistent index the answer is the heap's top `k`, sorted best first, each ranking at least as high as every entry left out, and the index stays consistent |
| SpotIndex.GetTopKForEachType | module/Spot_class.py:95-103 | `getTopKForEachType` caches each type's top `k`, changes nothing else, and a later `getTopKByType` with the same `k` returns the cache |
| SpotIndex.TopKForEachTypeValid | module/Spot_class.py:95-103 | refreshing every cache keeps the index invariant |
| SpotIndex.AddScore | module/Spot_class.py:129-138 | an unknown type raises KeyError; otherwise only that type's heap changes, by `updateScore`, and its cached top list is left as it was |
| SpotIndex.AddVisitedTime | module/Spot_class.py:140-149 | an unknown type raises KeyError; otherwise only that type's heap changes, by `updateVisitedTime`, and its cached top list is left as it was |
| SpotIndex.AddScoreKeepsCache | module/Spot_class.py:118-126 | after `addScore`, a cached top list of `k` entries is still what `getTopKByType(type, k)` returns |
| SpotIndex.StaleTopAfterAddScore | module/Spot_class.py:129-138 | with park 1 at score 5 and park 2 at score 3 and a cached top 1, raising park 2 to 9 still reports park 1 although the heap's top 1 is park 2 |
| SpotIndex.AddScoreCorrected | module/Spot_class.py:129-138 | as `addScore`, but the type's cached top list is cleared |
| SpotIndex.AddVisitedTimeCorrected | module/Spot_class.py:140-149 | as `addVisitedTime` with the heap order restored, and the type's cached top list cleared |
| SpotIndex.AddScoreCorrectedFresh | module/Spot_class.py:105-138 | after the corrected `addScore` the index stays consistent and `getTopKByType` returns the heap's current top `k` |
| SpotIndex.AddVisitedTimeCorrectedFresh | module/Spot_class.py:105-149 | after the corrected `addVisitedTime` the index stays consistent and `getTopKByType` returns the heap's current top `k` |
| Records.NewDiary | module/Model/Model.py:6-26 | the constructor stamps today's date when no (or an empty) time is given, and turns missing image and video lists into empty ones |
| Records.Strings | module/Model/Model.py:88-89 | a list of strings is read back exactly when every element is a string, element by element |
| Records.StringsRoundTrip | module/Model/Model.py:88-111 | writing a list of strings into a dictionary and reading it back gives the same list |
| Records.DiaryFromDict | module/Model/Model.py:95-114 | `Diary.from_dict` succeeds exactly on a well-typed dictionary; a missing or empty time becomes today's date, a present one is kept; missing `user_name`, `score` and `visited_time` default to `""`, 0 and 0 |
| Records.DiaryDictFields | module/Model/Model.py:70-92 | `Diary.to_dict` stores id, user name, user id, spot id, content, title and time under their keys |
| Records.DiaryDictCounts | module/Model/Model.py:70-92 | `Diary.to_dict` stores score, score count, visit count, image list, video list, compressed flag and `scoreToSpot` under their keys |
| Records.DiaryRoundTrip | module/Model/Model.py:70-114 | `Diary.from_dict(d.to_dict())` gives back every field of a diary with a time |
| Records.DiaryVisited | module/Model/Model.py:130-134 | `visited()` adds exactly 1 to the visit count and changes nothing else |
| Records.DiaryVisitsCount | module/Model/Model.py:130-134 | `n` visits add exactly `n` to the visit count and change nothing else |
| Records.DiaryVisitedStored | module/Model/Model.py:130-134 | the dictionary of a visited diary differs from the old one only in `visited_time`, one higher |
| Records.NewReviews | module/Model/Model.py:158-166 | the constructor keeps the total it is given |
| Records.NewReviewsSpec | module/Model/Model.py:158-166 | the constructor's tree stores every id under itself, in key order, and holds exactly the given ids |
| Records.InsertAllSpec | module/Model/Model.py:164-166 | inserting ids as their own values keeps the tree ordered and holds exactly the old items and the new ids |
| Records.GetDiaryIds | module/Model/Model.py:186-190 | `getDiaryIds` lists the stored ids in strictly ascending order, and exactly the stored ids |
| Records.AddOne | module/Model/Model.py:191-196 | `addOne` raises the total by exactly 1 |
| Records.AddOneSpec | module/Model/Model.py:191-196 | after `addOne` the stored ids are the old ones plus the new id, which `getDiaryIds` lists, and the tree stays ordered |
| Records.DeleteOne | module/Model/Model.py:197-202 | `deleteOne` lowers the total by exactly 1, whatever the id |
| Records.DeleteOneSpec | module/Model/Model.py:197-202 | after `deleteOne` the stored ids are the old ones without the id, which `getDiaryIds` no longer lists, and the tree stays ordered |
| Records.DeleteAbsentStillCounts | module/Model/Model.py:197-202 | deleting an id that is not stored still lowers the total, and leaves the listed ids as they were |
| Records.ReviewsFromDict | module/Model/Model.py:176-185 | `Reviews.from_dict` reads the total (0 when missing; TypeError when not a number) and builds an ordered tree of the ids |
| Records.ReviewsRoundTrip | module/Model/Model.py:168-185 | `Reviews.from_dict(r.to_dict())` keeps the total and the listed ids |
| Records.SpotFromDict | module/Model/Model.py:326-343 | `Spot.from_dict`: a missing or non-integer id is a TypeError, `reviews` that is not a dictionary is an AttributeError; missing `score` and `visited_time` default to 0; missing reviews give an empty record |
| Records.SpotDictFields | module/Model/Model.py:308-324 | `Spot.to_dict` stores id, name, score, type and the reviews' dictionary under their keys |
| Records.SpotDictExtras | module/Model/Model.py:308-324 | `Spot.to_dict` stores url, image, info, introduction, visit count and location under their keys |
| Records.SpotRoundTrip | module/Model/Model.py:308-343 | `Spot.from_dict(s.to_dict())` keeps every scalar field, the reviews' total and the listed diary ids |
| Records.SpotVisited | module/Model/Model.py:360-364 | `visited()` adds exactly 1 to the spot's visit count and changes nothing else |
| Records.SpotDiaryList | module/Model/Model.py:386-390 | `getDiaryList` lists the spot's diary ids in strictly ascending order, and exactly those |
| RoutePoints.Initial | app/static/js/map.js:386-419 | the empty waypoint list with no markers satisfies the list's invariant |
| RoutePoints.OnRoute | app/static/js/map.js:388 | a point counts as on the route exactly when some waypoint has its latitude and longitude |
| RoutePoints.AddPoint | app/static/js/map.js:386-419 | a point already on the route changes nothing; a new one is appended and gets a marker numbered by its new position |
| RoutePoints.AddPointValid | app/static/js/map.js:386-419 | adding a point keeps the invariant: no two waypoints on one spot, one marker per waypoint, each numbered by its position |
| RoutePoints.Renumber | app/static/js/map.js:542-560 | `updateRouteMarkerIndices` touches only existing markers |
| RoutePoints.RenumberSpec | app/static/js/map.js:542-560 | after renumbering, the marker of each waypoint carries its position (number `i + 1`, remove index `i`), and markers of no waypoint are untouched |
| RoutePoints.RemovePoint | app/static/js/map.js:458-479 | an index out of range changes nothing; otherwise the waypoint is spliced out and its marker dropped |
| RoutePoints.RemovePointValid | app/static/js/map.js:458-479 | removing a waypoint keeps the invariant |
| RoutePoints.RemoveRenumbers | app/static/js/map.js:458-479 | after a removal every remaining waypoint's marker shows its new position, and the removed one has no marker |
| RoutePoints.Clear | app/static/js/map.js:484-501 | clearing leaves no waypoints, no markers and no route layer, which satisfies the invariant |
| RoutePoints.ExportRoute | app/static/js/map.js:506-537 | nothing is exported exactly when there are no waypoints; otherwise one entry per waypoint, numbered from 1, with its name and coordinates, and the total is the number of waypoints |
| RoutePoints.FormInputs | app/static/js/map.js:624-630 | with fewer than two inputs nothing is written; otherwise the first input gets the first waypoint's name and the second the last one's when there are two or more, else `""` |
| RoutePoints.PlanRequest | app/static/js/map.js:634-671 | fewer than two waypoints send nothing; otherwise the request holds each waypoint's coordinates in order and the checked method, `distance` when none is checked |
| RoutePoints.RoundMinutes | app/static/js/map.js:733 | `Math.round(x / 60)` is the whole number of minutes within half a minute of `x` seconds |
| RoutePoints.DurationParts | app/static/js/map.js:730-742 | the hours are the whole hours of the duration and hours and minutes together are within half a minute of it, but the minutes may reach 60 |
| RoutePoints.SixtyMinutes | app/static/js/map.js:730-742 | 3599 seconds read "60 分钟" and 7199 seconds "1 小时 60 分钟" |
| RoutePoints.DurationPartsCorrected | app/static/js/map.js:730-742 | rounding to minutes first keeps the minutes below 60, still within half a minute of the duration |
| RoutePoints.CorrectedAgrees | app/static/js/map.js:730-742 | the corrected split differs from the shown one only where the shown minutes reach 60, and there carries them into the hours |
| RoutePoints.CorrectedText | app/static/js/map.js:730-742 | the corrected text matches the shown one whenever the minutes are below 60, and reads 3599 seconds as "1 小时 0 分钟" |
| SpotInfo.Clamp | app/static/js/spot_info.js:425 | `Math.min(5, Math.max(1, score))` lies in 1..5, keeps a score already there, and maps scores above 5 to 5 and below 1 to 1 |
| SpotInfo.ReviewScore | app/static/js/spot_info.js:421-425 | the shown score lies in 1..5; a missing, zero, empty or unparsable score shows as 5; any other number, or parsed text, is clamped |
| SpotInfo.Repeat | app/static/js/spot_info.js:491-504 | the star loops add exactly `n` copies of the star, none for a negative count |
| SpotInfo.CreateStarsShape | app/static/js/spot_info.js:485-507 | for a score from 0 to 5 `createStarsHTML` draws exactly five stars: filled below the whole part, a half star just after it when the fraction is at least one half, hollow after that |
| SpotInfo.Preview | app/static/js/spot_info.js:434-436 | content of at most 100 characters is shown whole; longer content shows its first 100 characters followed by "..." |
| SpotInfo.InitialReviews | app/static/js/spot_info.js:356-371 | the first load shows the first three reviews (all when fewer), and "load more" is enabled exactly when there are more than three |
| SpotInfo.LoadMore | app/static/js/spot_info.js:569-612 | an offset past the end loads nothing and finishes; otherwise the next batch is the next up to five reviews from the offset, never empty, and the list is finished exactly when the batch reaches the end |
| SpotInfo.LoadMoreContinues | app/static/js/spot_info.js:569-612 | when the shown reviews are a prefix of all of them, a "load more" extends that prefix by up to five, and reports the end exactly when all are shown |
| SpotInfo.LoadUntilDoneShowsAll | app/static/js/spot_info.js:569-612 | pressing "load more" until it reports the end, from any shown prefix, shows every review in order |
| SpotInfo.InitialThenLoadAll | app/static/js/spot_info.js:569-612 | the first three reviews followed by "load more" until the end show every review in order |
| SpotInfo.NotIn | app/static/js/spot_info.js:727-728 | the filter keeps exactly the reviews whose id is not already cached |
| SpotInfo.MergeReviews | app/static/js/spot_info.js:722-730 | with no cache the answer becomes the cache; otherwise the cache is kept in front and followed by exactly the answer's reviews with new ids |
| SpotInfo.MergeIdempotent | app/static/js/spot_info.js:722-730 | merging the same answer a second time changes nothing |
| SpotInfo.LastSegment | app/static/js/spot_info.js:235-238 | `getSpotIdFromUrl` returns a suffix of the path with no `/`, which is the whole path or follows a `/` |
| SpotInfo.LastSegmentAfterSlash | app/static/js/spot_info.js:235-238 | the id after the last `/` of `/spot/<id>` is read back exactly |
| DiarySearch.Without | app/static/js/diary_search.js:580 | the filter keeps exactly the entries other than the term |
| DiarySearch.WithoutKeepsOrder | app/static/js/diary_search.js:580 | the filtered history keeps the old order |
| DiarySearch.Take | app/static/js/diary_search.js:582 | `slice(0, n)` is the longest prefix of at most `n` entries |
| DiarySearch.SaveSearchTerm | app/static/js/diary_search.js:576-585 | a blank term leaves the history alone; otherwise the term comes first, exactly once, followed by the first nine other entries in their old order, ten at most |
| DiarySearch.SaveKeepsOrder | app/static/js/diary_search.js:576-585 | the entries after the saved term appear in the old history in the same order |
| DiarySearch.SaveKeepsDistinct | app/static/js/diary_search.js:576-585 | a history without repeats stays without repeats |
| DiarySearch.SaveTwice | app/static/js/diary_search.js:576-585 | saving the same term twice in a row is saving it once |
| DiarySearch.ValidateSearchInput | app/static/js/diary_search.js:603-612 | the box is valid exactly when the keyword has at most 100 characters, and otherwise carries the too-long message |
| DiarySearch.HeaderSearch | app/static/js/diary_search.js:172-186 | a blank box does nothing; for diaries the trimmed keyword is searched on the page, for spots the page moves to the spot search with the encoded trimmed keyword; any other type does nothing |
| DiarySearch.HeaderSearchStable | app/static/js/diary_search.js:172-186 | searching the keyword a diary search put in the box searches it again unchanged |
| DiarySearchOptimized.Trunc | app/static/js/diary_search_optimized.js:509 | the integer part toward zero, as JavaScript's `%` keeps the sign of the dividend |
| DiarySearchOptimized.FracPart | app/static/js/diary_search_optimized.js:509 | `rating % 1` lies strictly between -1 and 1 and is the fractional part for a non-negative rating |
| DiarySearchOptimized.GenerateStars | app/static/js/diary_search_optimized.js:506-522 | five icons: icon `i` is full exactly when `i` is below the whole part, and half exactly at the whole part when `rating % 1` is at least one half |
| DiarySearchOptimized.StarsAgree | app/static/js/diary_search_optimized.js:506-522 | for ratings from 0 to 5 the result agrees star by star with the spot page's `createStarsHTML` |
| DiarySearchOptimized.NegativeRatingHollow | app/static/js/diary_search_optimized.js:506-522 | a negative rating draws five hollow stars |
| DiarySearchOptimized.CacheSet | app/static/js/diary_search_optimized.js:252-258 | a cached source keeps its place; a new one is appended, and at 100 entries the oldest is evicted |
| DiarySearchOptimized.CacheSetOk | app/static/js/diary_search_optimized.js:252-258 | the cache never holds a source twice nor more than 100 sources, and never shrinks |
| DiarySearchOptimized.CacheAlwaysBounded | app/static/js/diary_search_optimized.js:252-258 | after any sequence of loads the cache still holds at most 100 distinct sources |
| DiarySearchOptimized.LoadImage | app/static/js/diary_search_optimized.js:223-270 | an image with no source, or already loading or loaded, is left alone; a cached source is shown at once; a fresh one is shown and cached when it loads, and marked failed otherwise |
| DiarySearchOptimized.LoadImageSettles | app/static/js/diary_search_optimized.js:223-270 | loading keeps the cache bounded, and loading an image that has been shown again changes nothing |
| DiarySearchOptimized.UpdatePagination | app/static/js/diary_search_optimized.js:599-609 | with no pagination nothing changes; otherwise "more" and the button follow `has_next`, and the next page is taken when there is one |
| DiarySearchOptimized.HandleLoadMore | app/static/js/diary_search_optimized.js:332-363 | ignored while loading or when there is no more; never leaves the page loading; the diaries only grow; an empty or failed answer ends the paging, a non-empty one is appended; an error keeps everything |
| DiarySearchOptimized.NoMoreStaysDone | app/static/js/diary_search_optimized.js:332-363 | once there is no more, later scrolls change nothing |
| DiarySearchOptimized.LoadAllAppends | app/static/js/diary_search_optimized.js:332-363 | over any sequence of scrolls the shown diaries keep the old ones as a prefix |
| DiarySearchOptimized.ValidateSearchInput | app/static/js/diary_search_optimized.js:823-832 | the box is valid exactly when the keyword has at most 100 characters, the same check as the plain search page |
| PageCommon.SpotTypesDistinct | app/static/js/register.js:3-7 | the tag list names thirteen distinct spot types, the last being shows |
| PageCommon.FirstFailure | app/static/js/register.js:64-83 | a chain of early-returning checks reports nothing exactly when every check passes, and otherwise the message of a failing check all of whose predecessors pass |
| PageCommon.FirstFailureStops | app/static/js/register.js:64-83 | the chain stops at the first failing check, whatever follows it |
| PageCommon.FillStars | app/static/js/diary_add.js:327-338 | a star is filled exactly when its `data-rating` is at most the rating |
| PageCommon.FiveStarsFill | app/static/js/diary_add.js:327-338 | on the five stars rated 1 to 5, a rating from 0 to 5 fills exactly the first `floor(rating)` of them |
| Register.Initial | app/static/js/register.js:12-13 | the page starts with no tag chosen, which satisfies its bookkeeping |
| Register.Remove | app/static/js/register.js:30 | the filter keeps exactly the chosen tags other than the clicked one |
| Register.RemoveDistinct | app/static/js/register.js:30 | dropping a tag from a list without repeats removes exactly one entry when present, nothing otherwise |
| Register.Toggle | app/static/js/register.js:27-48 | a chosen tag is dropped; another is appended while fewer than five are chosen; at five only the warning is shown; the hidden input is rewritten after every change |
| Register.ToggleValid | app/static/js/register.js:27-48 | a click keeps the choice free of repeats, at most five tags, equal to the marked elements, and the hidden input holding it |
| Register.ToggleTwice | app/static/js/register.js:27-48 | choosing a tag and clicking it again restores the choice |
| Register.ClicksStayValid | app/static/js/register.js:27-48 | whatever the visitor clicks, at most five distinct tags are chosen and the hidden input holds them |
| Register.Submit | app/static/js/register.js:52-89 | the form is sent only with a non-empty trimmed user name, a trimmed password of at least six characters equal to the trimmed confirmation, and at least one tag; a blank user name is refused first |
| Register.SubmitFirstFailure | app/static/js/register.js:60-83 | the handler refuses with the message of the first failing check in the order user name, password, length, confirmation, tags, and sends exactly when none fails |
| DiaryAdd.Submit | app/static/js/diary_add.js:223-261 | the form is sent only with a spot, a non-blank title and at least 50 characters of trimmed content; a refusal leaves the submitting flag alone, sending sets it; a missing or non-positive rating is sent as 3 |
| DiaryAdd.SubmitFirstFailure | app/static/js/diary_add.js:223-245 | the form is refused with the message of the first failing check in the order spot, title, content, length, and sent exactly when none fails |
| DiaryAdd.UntouchedRatingDefaults | app/static/js/diary_add.js:248-257 | a form sent with the rating left at its initial 0 is sent with rating 3 |
| DiaryAdd.HighlightStars | app/static/js/diary_add.js:327-338 | five stars, star `i` filled exactly when `i + 1` is at most the rating |
| DiaryAdd.DefaultShowsThree | app/static/js/diary_add.js:251-256 | the default rating lights the first three stars, the initial rating none |
| DiaryAdd.LeavePrompt | app/static/js/diary_add.js:562-577 | leaving asks for confirmation exactly when the form is not being submitted and the title or content holds non-blank text |
| DiaryAdd.SentFormLeavesQuietly | app/static/js/diary_add.js:562-577 | once the form is sent leaving no longer asks, though it would have asked for the same text before |
| GalleryModal.IndexOf | app/static/js/test_modal.js:23 | `indexOf` is -1 exactly when the image is absent, and otherwise the first position holding it |
| GalleryModal.Open | app/static/js/test_modal.js:20-48 | with the modal present the viewer takes the gallery and the clicked image's position, which holds that image when it is in the gallery; without it nothing changes |
| GalleryModal.Navigate | app/static/js/test_modal.js:70-90 | an empty gallery is left alone; otherwise the position stays in range, moves by the step when that stays in range, wraps past the end to the first image and before the start to the last |
| GalleryModal.StepsAdd | app/static/js/test_modal.js:70-90 | `a` steps followed by `b` steps are `a + b` steps |
| GalleryModal.ForwardNoWrap | app/static/js/test_modal.js:70-90 | `n` forward steps from an image with at least `n` after it land `n` places on |
| GalleryModal.FullRound | app/static/js/test_modal.js:70-90 | as many forward steps as there are images return to the starting image |
| GalleryModal.BackUndoesForward | app/static/js/test_modal.js:70-90 | a step back undoes a step forward, wrapping included |
| DiaryDetail.PressKey | app/static/js/diary_detail.js:186-208 | ArrowLeft moves to the previous image unless the current one is first or unknown, ArrowRight to the next unless it is last; any other key, or a blocked move, keeps the image |
| DiaryDetail.FindDistinct | app/static/js/diary_detail.js:194 | in a gallery of distinct images `findIndex` finds an image at its own position |
| DiaryDetail.ArrowsNoWrap | app/static/js/diary_detail.js:186-208 | in a gallery of distinct images the arrows never wrap: the first image stays on ArrowLeft, the last on ArrowRight, and a step right is undone by a step left |
| DiaryDetail.UnknownImage | app/static/js/diary_detail.js:186-208 | an image not in the gallery goes to the first image on ArrowRight and stays on ArrowLeft |
| DiaryDetail.UpdateStars | app/static/js/diary_detail.js:292-303 | five stars; star `i` is filled exactly when the value is non-empty and starts with a character no smaller than the star's `data-value` digit, since the string comparison decides on the first character |
| DiaryDetail.OneCharLessEq | app/static/js/diary_detail.js:295 | a one-character string is at most another string exactly when that string starts with the same or a later character |
| DiaryDetail.ScoreStars | app/static/js/diary_detail.js:286-303 | the stars a parsed score stands for: star `i` is filled exactly when the score is a number of at least `i + 1` |
| DiaryDetail.DigitStars | app/static/js/diary_detail.js:292-303 | on a single digit the string comparison fills the same stars as the numeric one |
| DiaryDetail.ClickFillsStars | app/static/js/diary_detail.js:253-265 | clicking star `k` writes its `data-value` and fills exactly the first `k` stars |
| DiaryDetail.ZeroPaddedScore | app/static/js/diary_detail.js:286-303 | `"10"` fills one star, and `"04"` or `" 4"` fill none, although the form sends `"04"` as the score 4, which stands for four stars |
| DiaryDetail.ScoreAccepted | app/static/js/diary_detail.js:306-314 | the rating form is sent exactly when the score parses to a number from 0 to 5 |
| DiaryDetail.AcceptedScoreStars | app/static/js/diary_detail.js:306-314 | under the numeric reading of the stars (`ScoreStars`, the corrected display), every score the form accepts fills as many stars as its whole part |
| IndexPage.TabParams | app/static/js/index.js:45-77 | every tab but shows excludes shows, only shows asks for them, only the recommended tab asks for the user's preference, the star tabs ask for their score bands, and an unknown tab sends no filter |
| IndexPage.TabsApart | app/static/js/index.js:55-72 | two different star tabs never ask for the same lower score bound, and none asks for shows |
| IndexPage.TabCards | app/static/js/index.js:87-100 | cards are shown exactly for a successful non-empty answer: the first ten spots, all of them when fewer |
| IndexPage.SearchQuery | app/static/js/index.js:260-278 | a blank keyword sends nothing; otherwise the query starts with the trimmed keyword and asks for diaries exactly when diaries are selected |
| IndexPage.Fresh | app/static/js/index.js:434-435 | the filter keeps exactly the diaries not already on the grid, in order |
| IndexPage.LoadDiaries | app/static/js/index.js:368-490 | a first load replaces the grid, an appending one adds only new diaries after the old cards; fewer diaries than asked for, with something shown, or an append with nothing new, disables the button as "no more"; an empty first load hides it; a failure restores the button |
| IndexPage.Opened | app/static/js/index.js:344-348 | the page asks for eight diaries as it opens |
| IndexPage.ViewMore | app/static/js/index.js:349-364 | a click on the disabled button does nothing; otherwise eight more diaries are asked for and the old cards stay in front |
| IndexPage.ViewMoreDistinct | app/static/js/index.js:427-444 | when the server sends each diary once, the grid never shows a diary twice |
| IndexPage.NoMoreIsFinal | app/static/js/index.js:352-353 | once the button is disabled, later clicks change nothing |
| IndexPage.ShortAnswerEnds | app/static/js/index.js:446-451 | a click answered with fewer diaries than asked for, some of them new, is the last click that does anything |
| SpotSearch.ApplyUrl | app/static/js/spotSearch.js:366-377 | a non-empty `keyword` in the address fills the search box; a `type` fills the filter only when it names a spot type; the sort is untouched |
| SpotSearch.ApplyUrlKeepsType | app/static/js/spotSearch.js:366-377 | a filter that held a spot type or nothing still does after the address is applied |
| SpotSearch.Query | app/static/js/spotSearch.js:389-396 | the request asks for the trimmed keyword exactly when it is not blank, the type exactly when one is chosen, and the sort exactly when it is not the default, and no other parameter is empty |
| SpotSearch.Fetch | app/static/js/spotSearch.js:383-421 | nothing happens without a results list or while a request is in flight; otherwise the page ends idle, showing the answer's spots with the title and count for the search, or no spots after a failure |
| SpotSearch.FetchesSettle | app/static/js/spotSearch.js:383-421 | after any sequence of searches from an idle page the page is idle again |
| SpotSearch.ResultsTitle | app/static/js/spotSearch.js:444-453 | with neither keyword nor type the title is "推荐景区"; otherwise it starts with "搜索结果" and then names the quoted keyword and the type, each when present |
| SpotSearch.TitleNamesSearch | app/static/js/spotSearch.js:444-453 | the keyword and the type can be read back from the title |
| SpotSearch.CountTextInjective | app/static/js/spotSearch.js:455-457 | different result counts give different count texts |
| SpotSearch.Resize | app/static/js/spotSearch.js:356-363 | at 768 pixels or less the list view switches to the grid view; wider windows keep the view |
| SpotSearch.ResizeIdempotent | app/static/js/spotSearch.js:356-363 | resizing twice to the same width is resizing once |

## Left out

- File and JSON persistence (`spotIo`, `fileIo`, `saveTypeIndex`, the image and video files of a diary) is not modelled. Values those calls return, such as a new score, are parameters of the operations.
- Logging and printing are not modelled; they have no effect on results.
- Floating-point arithmetic is not modelled. Scores and visit counts are integers. The stars of the pages use exact `real` numbers, so rounding at a half is exact.
- Records.DiaryFromDict: a field that is missing without a default, or holds a value of the wrong kind, is refused with TypeError. Python would store `None` or the ill-typed value and fail only later.
- Records.SpotFromDict: refuses missing or ill-typed fields with TypeError in the same way, where Python stores them as given.
- Records: `.copy()` of dictionaries and lists is not modelled separately, because every value in the model is immutable.
- `Spot.addDiary`, `Spot.deleteDiary` and `Spot.updateScore` are not modelled: they are float averaging (`deleteDiary` also divides by zero when `total` is 1).
- `Diary.updateScore`, `Diary.compress`, `Diary.getContent` and `Diary.delete` are not modelled: they are float averaging and file I/O.
- The `User` class, `user_class.py`, `diary_class.py` and `spotSort.py` are not part of this model. They are glue over global managers, or duplicate `Spot_class.classify` with broken imports.
- The spot and diary iterator classes of `heap.py` are not modelled; they only re-expose manager state.
- Stack: the shared mutable default argument of the constructor is not modelled; each stack starts from its own list.
- HashTable.New requires a positive size. With size 0 every operation raises ZeroDivisionError in Python.
- Trie.Search: a word inserted with `data=None`, the default of `insert`, is reported by Python's `search` as `None`, the same answer as for an absent word. The model stores the data of every word, so `None` data is a value of its own there.
- Trie.Lower lower-cases ASCII letters only. Python's `str.lower` also folds other alphabets.
- RbTree: the test `x == x.parent.left` is read from the position on the path. The two differ only when `x` and its sibling are both the TNULL sentinel, which no valid red-black tree has.
- RbTree: after a deletion the red-black colour properties are not proved. The items left and their order are proved (RbTree.DeleteItems, RbTree.DeleteOrdered).
- RbTree: node values are integers. Reviews stores diary ids as both key and value.
- Router.Dijkstra: optimality of the distances is not claimed. Every reported distance is proved to be the weight of a real path, and every returned path follows graph edges.
- Router: edge weights are natural numbers rather than floats; `float('inf')` is the explicit distance `Inf`.
- Router: the `MySet` that `dijkstra.py` imports is not defined in `set.py`; the visited collection is a set.
- Router: errors of the graph library (such as an unknown start node) are modelled as a ValueError result.
- Router: map loading, the nearest-node lookup, plotting and the haversine distance are not modelled; they need external libraries and floats.
- Router: iteration over a Python set is modelled as first-occurrence order of the waypoints. Python's order depends on hashes.
- Router.SolveTsp: a route is promised only when all the points reach one another. When some pairs do not, the source still succeeds if the improved tour avoids those legs; the model does not characterise those cases.
- Router.PlanRoute: the same condition as Router.SolveTsp for more than one waypoint.
- Router.ConstructCompletePath: the total it reports is the hop count of the path, as the source computes it, not a distance.
- RoutePoints: durations are whole seconds.
- RoutePoints: the map page's code is followed where the description of its route service differs: one polyline, no speed segments and no vehicle option.
- JavaScript strings are sequences of code points. UTF-16 surrogate pairs are not modelled.
- The DOM, `fetch`, timers, debounce and throttle, animations and the IntersectionObserver are not modelled. Their outcomes are parameters: the answer a request gets, whether an element exists, the window width.
- DiaryAdd.HighlightStars compares each star's `data-rating` with the rating as numbers. On the page both are strings, compared character by character. The two orders agree here only because every value the page passes is a single digit from "0" to "5".
- DiarySearchOptimized.LoadImage assumes the cache holds only images whose preload finished, as the page only adds them on load. A cached image is therefore complete.
- The purely cosmetic pages (`user_diaries.js`, `error.js`, `login.js`, `lazy-load-fix.js`) are not part of this model.

## Findings

| source | as written | input that shows it | evidently intended | confidence | as-written member | corrected member |
|---|---|---|---|---|---|---|
| module/data_structure/indexHeap.py:74-84 | `updateVisitedTime` overwrites the visit count and then only sifts up | ids 1 and 2 both at score 5, with visits 10 and 8; set id 1's visits to 1 | the heap order is restored in both directions | not executed | TopKHeap.UpdateVisitedTimeBreaksOrder | TopKHeap.UpdateVisitedTimeRestoringValid |
| module/data_structure/HuffmanTree.py:44-60 | a lone root leaf gets the empty code | data made of n copies of one character: it encodes to "" and decodes to "" | every character gets a code, so decoding gives the data back | not executed | Huffman.SingleCharacterLost | Huffman.CorrectedEncoding |
| module/data_structure/trie.py:161-186 | `delete` returns the helper's prune flag | words "a" and "b" stored; delete "a" removes it but returns False | True exactly when the word was stored | not executed | Trie.DeleteReportsFalse | Trie.DeleteCorrected |
| module/data_structure/trie.py:247-261 | `insert_user` with an empty name reports success but stores nothing | insert_user(id, "") returns True; search_by_id(id) then gives None | the empty name is refused | not executed | Trie.EmptyUsernameAccepted | Trie.InsertUserChecked |
| module/Spot_class.py:118-149 | `addScore` and `addVisitedTime` update the heap but not the cached top list | park 1 at score 5 and park 2 at score 3, top 1 cached; addScore(2, "park", 9) | getTopKByType reflects the new score | not executed | SpotIndex.StaleTopAfterAddScore | SpotIndex.AddScoreCorrectedFresh |
| app/static/js/map.js:730-742 | minutes are the rounded remainder and can reach 60 | 3599 seconds reads "60 分钟" | minutes stay below 60 and carry into the hours | not executed | RoutePoints.SixtyMinutes | RoutePoints.CorrectedText |
| app/static/js/diary_detail.js:286-303 | `updateStars` compares the score field's text with each star's `data-value` as strings | the score typed as `04`, which the form accepts as 4, shows no star when the pointer leaves the stars | the stars show the score's value, four stars for 4 | not executed | DiaryDetail.ZeroPaddedScore | DiaryDetail.ScoreStars |
