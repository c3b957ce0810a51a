# Join indexes and hash tables, verified

This project models the data structures of a C++ benchmark of hash tables and join indexes, and proves what they are
for. Where the source updates state in place, so does the model: nodes of the radix tree, hash buckets and overflow
chains are heap objects, and the learned sort works on arrays. Each such method is proved against a specification on
values, and the properties of the system are lemmas about that specification.

- **Adaptive radix tree** (`ArtTrie`, `ArtLayout`, `ArtNode`, `ArtTree`, `ArtIndex`, `Bytes`). `ArtTrie` defines what it
  means for a path-compressed trie to represent a set of tuples, and proves that there is exactly one such trie. The four
  node kinds, with sign-flipped bytes in 16-way nodes and an index in 48-way nodes, are read as a map from byte to child.
  The heap operations are proved to compute the trie operations, through every growth, shrinkage, prefix split and prefix
  concatenation. `ArtIndex` states the result for integer keys. Key length is a parameter, so that the 32-bit and the
  64-bit tree are one model.
- **Learned sort** (`SortSpec`, `Shelves`, `CountingSort`, `LearnedSort`, `RepeatedKeys`, `TrainedSort`). The predictors
  are functions about which nothing is assumed, clamped as the source clamps them. The two rounds of bucketing share one
  array between unread input and finished output, and the counting sort computes with 32-bit counters that wrap around.
- **Cuckoo hashing** (`PairBuckets`, `Cuckoo`). Two arbitrary hash functions, both kicking strategies, any random
  numbers, any limit on the kicks.
- **Concurrent hash join** (`NpjJoin`, `NpjInvariant`, `NpjSafety`, `NpjInsertion`, `NpjRuns`, `NpjResult`,
  `NpjThreads`, `NpjSingle`, `NpjEnds`). A state machine whose steps are the accesses to latches, counts, links and
  tuples, for any number of threads and any interleaving, with the barrier between building and probing.
  `NpjThreads` adds the sequential code around it: the slices, the overflow buffers, the probe loop and the sum of the results, and
  `NpjSingle` the probe loop for buckets of one tuple. `NpjEnds` shows that the join ends.
- **Probing through a learned index** (`RmiProbe`): the window of the prediction, the branchless search, the count.
- **Linear probing** (`LinearProbing`) with insertion and lookup windows that may differ, and the **monotone chained
  table** (`MonotoneRows`, `MonotoneTable`, `Tape`) with its iterator over directory buckets and overflow chains.

`Gates` holds predicates that keep definitions closed until a proof opens them.

## Model

| member | source | states |
|---|---|---|
| ArtTrie.Table.Canonical | code/include/join/utils/art32_tree.h:447-744 | Two path-compressed tries of the same tuples are equal: prefixes, branching bytes and subtrees. |
| ArtTrie.Table.RunsConverge | code/include/join/utils/art32_tree.h:447-744 | Any two runs of insertions of absent keys and of erasures that leave the same tuples leave the same trie, whatever their order and length. |
| ArtTrie.Table.EraseUndoesInsert | code/include/join/utils/art32_tree.h:447-744 | Erasing the key just inserted gives back the trie as it was. |
| ArtTrie.Table.InsertRepresents | code/include/join/utils/art32_tree.h:447-554 | Inserting an absent tuple turns the trie of `s` into the trie of `s + {tid}`, through leaf splits, prefix splits and descents. |
| ArtTrie.Table.EraseRepresents | code/include/join/utils/art32_tree.h:659-744 | Erasing a key turns the trie of `s` into the trie of `s` without the tuple of that key; a one-way node is merged with its child. |
| ArtTrie.Table.FindCorrect | code/include/join/utils/art32_tree.h:358-425 | The search yields the leaf of the tuple with the key, and nothing exactly when no tuple has it. |
| ArtTrie.Table.LeftmostIsLeast | code/include/join/utils/art32_tree.h:249-282 | The leftmost leaf is the one tuple whose key is below all others. |
| ArtTrie.Table.RightmostIsGreatest | code/include/join/utils/art32_tree.h:284-317 | The rightmost leaf is the one tuple whose key is above all others. |
| ArtTree.Insert | code/include/join/utils/art32_tree.h:447-554 | On the heap, the root returned has the trie of the specified insertion, is a well-formed tree again, and has only old nodes of this tree and new ones. |
| ArtTree.Erase | code/include/join/utils/art32_tree.h:659-711 | On the heap, the root returned has the trie of the specified erasure, and the tree is well-formed again. |
| ArtTree.EraseNode4 | code/include/join/utils/art32_tree.h:713-744 | A 4-way node left with one child is replaced by it, whose prefix becomes the node's prefix, the child's byte and its own prefix; no node is created. |
| ArtTree.SplitLeaf | code/include/join/utils/art64_tree.h:446-553 | A leaf becomes a branch at the first byte in which the two keys differ; the scan for that byte stays within the key. |
| ArtTree.SplitPrefix | code/include/join/utils/art32_tree.h:447-554 | A prefix is broken up where the new key leaves it: the rest of the prefix stays with the old node, below its byte. |
| ArtTree.Lookup | code/include/join/utils/art32_tree.h:358-399 | The optimistic search finds what the specified search finds; since no prefix reaches the maximum it never skips a byte. |
| ArtTree.LookupPessimistic | code/include/join/utils/art64_tree.h:400-424 | The search that compares every prefix finds what the specified search finds. |
| ArtTree.Minimum | code/include/join/utils/art32_tree.h:249-282 | The descent through all four layouts ends at the leftmost leaf. |
| ArtTree.Maximum | code/include/join/utils/art32_tree.h:284-317 | The descent through all four layouts ends at the rightmost leaf. |
| ArtNode.Node.FindChild | code/include/join/utils/art32_tree.h:214-247 | In each layout the slot found holds the child of the byte, and a null child means that the byte has none. |
| ArtNode.Node.InsertNode4 | code/include/join/utils/art32_tree.h:556-581 | The node, or the 16-way node it grows into, has exactly the old children and the new one, laid out right and full enough. |
| ArtNode.Node.InsertNode16 | code/include/join/utils/art32_tree.h:583-615 | The same for a 16-way node, which compares flipped bytes as signed ones, and for its growth into a 48-way node. |
| ArtNode.Node.InsertNode48 | code/include/join/utils/art32_tree.h:617-642 | The same for a 48-way node and for its growth into a 256-way node; the scan for a free slot ends. |
| ArtNode.Node.InsertNode256 | code/include/join/utils/art32_tree.h:644-651 | The same for a 256-way node. |
| ArtNode.Node.EraseNode16 | code/include/join/utils/art32_tree.h:746-766 | The node, or the 4-way node it shrinks into at three children, has exactly the other children. |
| ArtNode.Node.EraseNode48 | code/include/join/utils/art32_tree.h:768-788 | The same for a 48-way node, which becomes a 16-way node, in byte order, at twelve children. |
| ArtNode.Node.EraseNode256 | code/include/join/utils/art32_tree.h:790-809 | The same for a 256-way node, which becomes a 48-way node at 37 children. |
| ArtLayout.FreeSlot | code/include/join/utils/art32_tree.h:617-642 | A 48-way layout with fewer than 48 children has a free child slot, because the index is a partial bijection. |
| ArtLayout.EraseIndexed | code/include/join/utils/art32_tree.h:768-788 | Clearing a byte and its slot in a 48-way layout takes exactly that child out of the map it stands for. |
| ArtIndex.Art.Build | code/include/join/utils/art32_tree.h:132-147 | The index built over a relation with distinct keys holds all its tuples. |
| ArtIndex.Art.InsertTuple | code/include/join/utils/art32_tree.h:447-554 | The index then holds one tuple more, and is valid. |
| ArtIndex.Art.EraseKey | code/include/join/utils/art32_tree.h:659-711 | The index then holds the tuples but for that of the key, and is valid. |
| ArtIndex.Art.EqualityLookup | code/include/join/utils/art32_tree.h:149-156 | The result is the id of the tuple with the key, and the null leaf's value 0 if there is none. |
| ArtIndex.Art.LookupsAgree | code/include/join/utils/art32_tree.h:358-425 | In every valid index both searches return the same for every key. |
| ArtIndex.Art.MinimumTuple | code/include/join/utils/art32_tree.h:186-188 | The minimum is the tuple with the numerically smallest key: byte-swapped keys compare like the numbers. |
| ArtIndex.Art.MaximumTuple | code/include/join/utils/art32_tree.h:284-317 | The maximum is the tuple with the numerically greatest key. |
| ArtIndex.SameTuplesSameTrie | code/include/join/utils/art32_tree.h:447-744 | Two heap indexes over one relation with the same tuples have the same trie, whatever was done to them; only node kinds and slot positions may differ. |
| ArtIndex.EveryNode | code/include/join/utils/art32_tree.h:35-121 | Every node of every index is laid out right, has 2 to 4, 4 to 16, 13 to 48 or 38 to 256 children by its kind, and a prefix of fewer than 9 bytes. |
| Bytes.FlipKeepsOrder | code/include/join/utils/art32_tree.h:181-184 | Flipped bytes compare as signed numbers exactly as the bytes compare as unsigned ones. |
| Bytes.FlipIsXor | code/include/join/utils/art32_tree.h:181-184 | The flip of the model is the exclusive or with 128. |
| Bytes.OrderIsNumeric | code/include/join/utils/art32_tree.h:186-195 | Keys of one length compare byte by byte as the numbers they stand for. |
| Bytes.ValueRoundTrip | code/include/join/utils/art32_tree.h:186-195 | Every key is the byte-swapped form of the number it stands for, which is within the range of its length. |
| CountingSort.RunningTotals | code/include/join/utils/learned_sort.h:897-902 | Although the first counter is decremented first and may wrap around, each running total is, modulo 2^32, one less than the number of predictions up to its own. |
| CountingSort.Scatter | code/include/join/utils/learned_sort.h:904-913 | Exactly the places from `tot` on get a permutation of the minor bucket; nothing else is written. |
| LearnedSort.Shuffle | code/include/join/utils/learned_sort.h:549-578 | Each major bucket holds the first keys predicted to it, in order, and the spill bucket the others, in order, as `FirstFill` says. |
| Shelves.KeepsFirst | code/include/join/utils/learned_sort.h:568-577 | In such a filling, a bucket keeps the first keys that come to it, as many as it has room for. |
| LearnedSort.Nearest | code/include/join/utils/learned_sort.h:565-566 | The buckets and ranks used are the nearest to the predictions among those that exist. |
| LearnedSort.SplitMajor | code/include/join/utils/learned_sort.h:693-793 | A major bucket is split into minor buckets and spilled keys, in batches and a remainder, as one pass in order would. |
| LearnedSort.TouchUp | code/include/join/utils/learned_sort.h:924-935 | Insertion extends the sorted front by the new keys, keeps their multiset and touches nothing after them. |
| LearnedSort.OneMajor | code/include/join/utils/learned_sort.h:693-940 | Writing back bucket `i` stays below the end of bucket `i`: the unread buckets are unchanged, the front is sorted, and placed, spilled and unread keys are conserved. |
| LearnedSort.SecondRound | code/include/join/utils/learned_sort.h:693-940 | After all buckets the front is sorted and, with the spill bucket, is a permutation of what was shuffled; what spills is a function of the keys and predictors. |
| RepeatedKeys.Detect | code/include/join/utils/learned_sort.h:509-525 | The list is strictly ascending and has exactly the values that occur more than 60 times in the sorted sample. |
| RepeatedKeys.LinearOrder | code/include/join/utils/learned_sort.h:967-977 | The exception list is ordered by predicted bucket, and by value within a bucket. |
| RepeatedKeys.MergeInPlace | code/include/join/utils/learned_sort.h:1002-1038 | Merging forward into the array that is still being read gives the merge of the old contents: nothing unread is overwritten, since the gap is always the number of repeated keys still to come. |
| RepeatedKeys.WeaveAscends | code/include/join/utils/learned_sort.h:1012-1038 | With sorted input, the merged result is sorted exactly when no repeated key comes too late. |
| RepeatedKeys.WeaveShowsOrder | code/include/join/utils/learned_sort.h:1012-1038 | A sorted result shows that the input of the merge was sorted. |
| SortSpec.MergeShowsOrder | code/include/join/utils/learned_sort.h:993-995 | A sorted merge shows that both inputs were sorted; with SortSpec.MergeSorts this is an equivalence. |
| TrainedSort.Distribute | code/include/join/utils/learned_sort.h:536-940 | The batches stay inside the input exactly when there are no repeated keys or the input length is a multiple of 100. Then every key is placed, spilled or counted: the counts are the occurrences in the input, and the others are in the sorted front or the spill bucket. |
| TrainedSort.MergeBack | code/include/join/utils/learned_sort.h:963-1038 | The result is a permutation of the input, sorted exactly when the spill bucket was and the repeated keys come in an orderly way. |
| TrainedSort.ShuffleCounting | code/include/join/utils/learned_sort.h:587-650 | The last batch ends beyond the input exactly when the length is no multiple of 100; otherwise repeated keys are counted and the others distributed. |
| TrainedSort.SortTrained | code/include/join/utils/learned_sort.h:444-1040 | The call stays inside the input exactly when no value occurs more than 60 times in the sample or the length is a multiple of 100, and the result is a permutation of the input. On thread 0 and partition 0 it is sorted for all predictions if no value occurs that often, and also if the predictions are monotone on the values that do. In general it is sorted exactly when the buckets predicted for repeated keys do no harm and, on other threads or partitions without the message, the spilled keys happen to be sorted. |
| TrainedSort.MonotoneHarmless | code/include/join/utils/learned_sort.h:536-547 | Predictions that are monotone on the repeated keys do no harm; without repeated keys none are needed. |
| TrainedSort.HarmlessMonotone | code/include/join/utils/learned_sort.h:536-547 | When the sample was drawn from the input, only monotone predictions do no harm. |
| TrainedSort.WrongOrderHarms | code/include/join/utils/learned_sort.h:1012-1024 | A model, a sample and an input for which predictions in the wrong order leave the result unsorted. |
| TrainedSort.OtherThreadsUnsorted | code/include/join/utils/learned_sort.h:942-960 | On any thread and partition but the first, a call without the message leaves four or more descending keys, all predicted to the first bucket, unsorted. |
| Cuckoo.Table.Lookup | code/include/cuckoo.hpp:208-237 | For every key but the reserved one the result is 1 exactly when the table holds the key. |
| Cuckoo.Table.InItsBuckets | code/include/cuckoo_model.hpp:206-240 | A key is in the table exactly when it is in one of its two buckets. |
| Cuckoo.Scheme.TwoHomes | code/include/cuckoo.hpp:349-357 | If there are two buckets, every key has two different ones: that of the first hash and that of the second, or the next one if the hashes agree. |
| Cuckoo.Table.GoalIs | code/include/cuckoo.hpp:46-54 | A pair goes to a bucket with a free slot if one of its two has one: the emptier one, or the first one that has room. |
| Cuckoo.Table.VictimIs | code/include/cuckoo.hpp:104-110 | The victim's bucket is chosen by the last bit of the random number or by comparison with the threshold, its slot by the remainder; nothing else changes. |
| Cuckoo.Table.Kick | code/include/cuckoo.hpp:38-63 | A pair finds a free slot exactly when one of its buckets has one, in the bucket the strategy prefers; otherwise it takes the place of another pair, which is returned. |
| Cuckoo.Table.Insert | code/include/cuckoo.hpp:342-382 | Without a throw the table is the old map with the new pair. No kick is needed exactly when the key is there or one of its buckets has a free slot. At every kick the table and the pair in hand together are that map and the pair's key is not in the table, so that the update branch is not taken again. A throw comes exactly when the kick path from the old table has more forced kicks than the limit, and loses exactly the pair that the path then has in hand, which for limit 0 is not the new one. |
| Cuckoo.Table.Build | code/include/cuckoo.hpp:184-198 | Unless an insertion throws, the two loops leave exactly the keys of the data, each with the payload of its last pair. |
| Cuckoo.Table.DataStatistics | code/include/cuckoo.hpp:245-270 | Reading each bucket up to its first free slot counts all pairs, and those in their first bucket. |
| Cuckoo.Table.OneSlot | code/include/cuckoo.hpp:355-357 | A table of one bucket with one slot holds one key at most: its two buckets are the same. |
| Cuckoo.Table.TakesTurns | code/include/cuckoo.hpp:56-62 | In a table of one slot the pair in the slot and the pair in hand change places with every kick, whatever the random numbers. |
| Cuckoo.LosesOther | code/include/cuckoo.hpp:342-382 | In a table with one slot a second insertion throws; it loses the first pair if the limit is even, and its own if it is odd. |
| Cuckoo.CollidingKeysFit | code/include/cuckoo.hpp:355-357 | Two keys with equal hashes both find room in two buckets of one slot, whatever the limit on kicks. |
| Cuckoo.ReservedFound | code/include/cuckoo.hpp:208-237 | A new table reports the reserved key as present. |
| PairBuckets.Layout.RepresentsOne | code/include/cuckoo.hpp:342-382 | The buckets of a table determine the map it stands for. |
| LinearProbing.Table.Insert | code/include/probe.hpp:93-116 | It throws exactly when every bucket in its window is full of other keys, and then changes nothing; otherwise the pair is in the first bucket that takes it. |
| LinearProbing.Table.Lookup | code/include/probe.hpp:399-454 | The result is 1 exactly when the key is within the lookup window of its home. |
| LinearProbing.Table.EveryKeyWithin | code/include/probe.hpp:399-454 | If the lookup window covers the insertion window, that is membership. |
| LinearProbing.Table.WithinExactly | code/include/probe_model.hpp:416-474 | Otherwise exactly the keys displaced by less than the lookup window are found. |
| LinearProbing.MissesKey | code/include/probe_model.hpp:95-121 | For all windows of which the lookup window is the smaller one there is a table whose lookup misses a key it holds. |
| LinearProbing.Scheme.OnePlace | code/include/probe.hpp:38-67 | Each key of the table is at exactly one distance from its home, and all buckets before are full and without it. |
| LinearProbing.Table.Build | code/include/probe.hpp:157-171 | Unless an insertion throws, the two loops leave exactly the keys of the data, each with the payload of its last pair. |
| LinearProbing.Scheme.ProbeSequence | code/include/probe.hpp:94-110 | The buckets probed are those from the remainder of the hash on, one after the other and around the end. |
| PairBuckets.LastWrittenHasLast | code/include/probe.hpp:163-171 | The map that the insertions build up has the keys of the data, and for each the payload of the last pair with it. |
| PairBuckets.OneLast | code/include/probe.hpp:163-171 | There is only one such map. |
| MonotoneTable.InsertInChain | code/include/monotone_hashtable.hpp:33-53 | The pair comes after all pairs of the chain, in a new bucket if all are full; no other bucket is added or lost. |
| MonotoneTable.Table.Load | code/include/monotone_hashtable.hpp:90-111 | Each chain holds the pairs that the model gives to it, in the order of their keys. |
| MonotoneTable.Search | code/include/monotone_hashtable.hpp:275-288 | The bucket and slot found hold the key; none is found only if the chain lacks it. |
| MonotoneTable.Iterator.Advance | code/include/monotone_hashtable.hpp:136-163 | One step of the iterator drops exactly the first of the cells that remain, across slots, overflow buckets and directory buckets. |
| MonotoneTable.Walk | code/include/monotone_hashtable.hpp:136-163 | Stepping reaches the end and passes the remaining cells in order. |
| MonotoneTable.VisitFrom | code/include/monotone_hashtable.hpp:136-288 | With a monotone model and distinct keys, stepping from the iterator of a key visits the sorted pairs from that key on, plus one cell with the reserved key per empty directory bucket passed; a missing key gives the end. |
| Tape.Tape.Alloc | code/include/support.hpp:45-55 | Each call hands out a place that was not handed out before. |
| NpjResult.RunKeeps | code/include/join/npj_join_runner.cpp:155-209 | Every state of every interleaving satisfies the invariant, and every step on the way accesses only memory that the thread may access then. |
| NpjResult.MutualExclusion | code/include/join/utils/lock.h:31-63 | Two threads never own the same latch, and a latch is set exactly while a thread owns it. |
| NpjResult.NoEarlyProbe | code/include/join/utils/barrier.h:67-83 | When any thread has begun to probe, all have built their whole slices and hold no latch. |
| NpjResult.Conservation | code/include/join/npj_join_runner.cpp:155-209 | In every state, stored, in-flight and pending tuples together are the build relation as a multiset. |
| NpjResult.OneChain | code/include/join/utils/eth_data_structures.h:172-189 | A bucket of the directory has only one chain: two chains that follow its links are the same. |
| NpjResult.ChainShape | code/include/join/npj_join_runner.cpp:185-205 | With no insertion under way on it, a chain of `m` tuples has max(1, ceil(m / capacity)) buckets, all full but possibly the first or second, and holds the tuples inserted so far. |
| NpjResult.Progress | code/include/join/npj_join_runner.cpp:803-904 | Unless all threads have finished, some thread can take a step other than a spin on a latch: no deadlock, at the latches or the barrier. |
| NpjEnds.StepUsesWork | code/include/join/npj_join_runner.cpp:155-209 | A failed attempt at a latch changes nothing, and every other step of any thread strictly decreases a natural number. |
| NpjEnds.RunsAreShort | code/include/join/npj_join_runner.cpp:803-904 | No run has more steps that are not spins than a number given by the threads, the rounds and the sizes of the relations. |
| NpjEnds.Completes | code/include/join/npj_join_runner.cpp:803-904 | Every run can be continued to one in which all threads have finished. |
| NpjResult.Result | code/include/join/npj_join_runner.cpp:310-352 | When all threads have finished, their matches add up to the number of pairs with equal keys. |
| NpjSingle.SinglyComplete | code/include/join/npj_join_runner.cpp:185-205 | While any thread probes a table with one slot in each bucket, only the first bucket of a chain can be empty, and is exactly when no tuple of the build relation belongs there. |
| NpjSingle.ProbeOneFirst | code/include/join/npj_join_runner.cpp:333-348 | The comparison without the count gives the occurrences of the key, and one more exactly when the key is 0 and its bucket is empty. |
| NpjSingle.ProbeSliceFirst | code/include/join/npj_join_runner.cpp:310-352 | The count for a slice is the number of joining pairs plus the number of such keys, so it is right exactly when no probe key is 0 with nothing of the build relation in its bucket. |
| NpjSingle.CountsNothing | code/include/join/npj_join_runner.cpp:335-338 | A table of two buckets that holds one tuple, for which the count is 1 and no pair joins. |
| NpjThreads.Slices | code/include/join/npj_join_runner.cpp:1005-1032 | The slices cut each relation into consecutive parts, equal but for the last, with nothing left out or counted twice. |
| NpjThreads.BucketBuffer.GetNewBucket | code/include/join/utils/eth_data_structures.h:172-189 | Each call hands out a bucket that was not handed out before. |
| NpjThreads.TableComplete | code/include/join/npj_join_runner.cpp:864-890 | While any thread probes, the chain of every key holds exactly the occurrences of that key in the build relation. |
| NpjThreads.ProbeSlice | code/include/join/npj_join_runner.cpp:310-352 | The loop over a slice counts exactly the joining pairs of the slice. |
| NpjThreads.AddResults | code/include/join/npj_join_runner.cpp:1673-1676 | The sum over the threads is the join cardinality. |
| NpjThreads.JoinIsCorrect | code/include/join/npj_join_runner.cpp:1005-1676 | For any two relations, cut into slices, every run makes only safe accesses and, when it has finished, the matches of all threads add up to the number of joining pairs of the relations. |
| NpjEnds.Prepare | code/include/join/npj_join_runner.cpp:1005-1032 | The join of any two relations by any number of threads can be set up, with the relations cut into slices. |
| NpjEnds.JoinEnds | code/include/join/npj_join_runner.cpp:1005-1676 | From every state of every run the join can be brought to its end, and then the matches of all threads add up to the number of joining pairs. |
| RmiProbe.SearchWindow | code/include/join/npj_join_runner.cpp:380-392 | The halving of a window that starts before, within or after the relation: exactly when it ends within the relation, and at which position. |
| RmiProbe.BranchlessBinarySearch | code/include/join/utils/algorithms.h:19-45 | The search stays within the relation exactly when the window starts there or right after it, or starts before it and the least position probed on the way left has a key not above. It then stops at the first occurrence of the key exactly when one is in the part of the window within the relation or directly before it, and otherwise at the last key not above. |
| RmiProbe.ProbeSlice | code/include/join/npj_join_runner.cpp:372-405 | If guess minus error lies within the relation for every probe key, and a key that occurs does so no further from the guess than the error, the matches are the join cardinality; if a key occurs but only further away, and not directly before, they are fewer. For every index, the search and the comparison stay within the relation exactly when `Index.Safe` holds of each probe key, and the count is then right exactly when each key that occurs does so in its window or directly before it. The counting loop reads one key beyond the relation exactly when it counts the last key. |
| RmiProbe.ShortWindowMisses | code/include/join/npj_join_runner.cpp:374-378 | A window that is too short misses a key that is there. |
| RmiProbe.BelowAllLeaves | code/include/join/npj_join_runner.cpp:375-394 | If the error exceeds the guess, the search for a key below all others leaves the relation. |
| RmiProbe.MostlyBeforeLeaves | code/include/join/npj_join_runner.cpp:375-394 | So does every search with more of its window before the relation than in it. |
| RmiProbe.FirstKeyLeaves | code/include/join/npj_join_runner.cpp:375-394 | So may the search for a key whose window covers it: guess 1, error 5, the first of seven keys or more. |

## Findings

Places where the code does less than one would expect. The model follows the code.

- **Spill bucket of other threads** (code/include/join/utils/learned_sort.h:942-960). The statement that tests
  `thread_id` and `partition_id` was meant for a message. Without the message (`PRINT` is 0 in
  code/masters_thesis.hpp, or undefined) it governs the next statement, which sorts the spill bucket, so all
  other threads and partitions merge an unsorted one. `TrainedSort.SortTrained` says exactly when the result is sorted,
  and `TrainedSort.OtherThreadsUnsorted` gives a family of inputs for which it is not.
- **Repeated keys and bucket predictions** (code/include/join/utils/learned_sort.h:536-547, 1012-1038). Repeated keys are
  merged in the order of their predicted buckets, not of their values. `TrainedSort.HarmlessFor` is the exact condition
  on the model, the sample and the input; `TrainedSort.WrongOrderHarms` fails it.
- **Whole batches only** (code/include/join/utils/learned_sort.h:587-650). With repeated keys the input is read in
  batches of 100. The last one ends beyond the input exactly when the length is no multiple of 100: the first clause of
  `TrainedSort.SortTrained`.
- **A throw may lose another pair** (code/include/cuckoo.hpp:342-382). When the limit on kicks is reached, the pair in
  hand is lost, which need not be the one to be inserted. `Cuckoo.Table.Insert` gives it exactly, as the end of the kick
  path that the table, the pair and the random numbers determine. With limit 0 it is never the new pair; beyond the
  first kick the random numbers decide. In a table of one slot they do not matter and the parity of the limit decides:
  `Cuckoo.LosesOther`.
- **Two probe windows** (code/include/probe_model.hpp:95-121, 416-474). Insertion probes 5,000,000 buckets and lookup
  50,000. Exactly the keys displaced by less than 50,000 are found: `LinearProbing.Table.WithinExactly`. For these and
  all other windows with a smaller one for lookup, `LinearProbing.MissesKey` is a table with a key that is not found.
- **The reserved key in lookups** (code/include/cuckoo.hpp:208-237). The cuckoo table reports the reserved key as present
  exactly when one of its buckets has a free slot: the last clause of `Cuckoo.Table.Lookup`. Every new table does:
  `Cuckoo.ReservedFound`.
- **Window of the learned index** (code/include/join/npj_join_runner.cpp:374-397). The bounds are unsigned, so that the
  test for a negative start never holds. With an error above the guess the start wraps around, and the search leaves
  the relation unless it happens to enter it from below: `RmiProbe.Index.Safe` is the exact condition, and
  `RmiProbe.BelowAllLeaves`, `RmiProbe.MostlyBeforeLeaves` and `RmiProbe.FirstKeyLeaves` are inputs that fail it. A window
  that starts after the relation fails it, too, but for one case. Inside the relation, a window that leaves out a key
  misses its matches: `RmiProbe.ProbeSlice` says exactly when the count is right.
- **Reading before testing** (code/include/join/npj_join_runner.cpp:400). The counting loop reads a key before it tests
  the bound, so it reads one beyond the relation exactly when it counts the last key: the last clause of
  `RmiProbe.ProbeSlice`. What it reads does not change the count.
- **Comparing without the count** (code/include/join/npj_join_runner.cpp:335-338). With one tuple per bucket, a probe for
  key 0 counts a match at an empty bucket, whose memory is zero. `NpjSingle.ProbeSliceFirst` says exactly when the count
  is right: no probe key is 0, or some tuple of the build relation has the bucket of 0. `NpjSingle.CountsNothing` is a
  table for which it is wrong.

## Left out

- TrainedSort.SortTrained: what the code does after a read beyond the input; the model stops there.
- ArtIndex.Art.Build: key lengths above 9 bytes, where prefixes could be longer than a node stores; the two trees have
  keys of 4 and 8 bytes.
- RmiProbe.ProbeSlice: what the code does after a read outside the relation; the model stops there. The length of
  the window is taken to fit its 32-bit variable, and the sum of guess and error its 64-bit one; positions before the
  relation are negative numbers.
- Vector code (AVX) for sorting, merging and searching; the scalar paths are modelled, comparisons of many lanes as
  loops.
- Training of the models, hash functions and random number generators: arbitrary functions, clamped or reduced as the
  callers do.
- Library sort and merge: `SortSpec.Sort` and `SortSpec.Merge`, the latter by the usual loop also when an input is not
  sorted.
- The caching of hyperparameters in static variables: each call has its own parameters.
- Fixed integer widths, except for the wrapping counters of the counting sort, the threshold, the bytes of keys and the
  unsigned start of the window of the learned index.
- Arrays inside C++ structs are sequences stored in a field; a write to one element replaces the sequence.
- Ids of tuples are positions in the relation: `loadKey` needs the payload of a tuple to be its position.
- Spurious wake-ups of `pthread_cond_wait`: a waiting thread is woken by the broadcast only. The memory is sequentially
  consistent.
- Fairness: `NpjEnds.RunsAreShort` bounds the steps that are not spins; that a thread does not spin on a latch for
  ever is left to the scheduler.
- The build driven by morsels, the task queues, prefetching, timing, performance counters, NUMA and processor affinity.
- `chained_model.hpp`, whose insertion and lookup use different directory buckets, and `chained.hpp`,
  `chained_exotic.hpp` and `mmphf_table.hpp`, easier relatives of the tables modelled.
- The gapped learned index and the CSS tree.
- Byte counts, deallocation and `destructTree`, file input, data generation and scripts.
