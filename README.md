# Programming assignments in Dafny

A Dafny model of six Java programs from one collection of data-structure and
networking assignments, with the properties each program promises proved
about the model. Each program keeps its own structure, and its own state where
it updates state in place:

- `longest_substring.dfy` (`asg1.java`). The longest phrase shared by two
  texts. The two files are joined around an `@` separator, and every suffix is
  a `TheString` view of the joined text. The suffixes are sorted. The longest
  common prefix of each suffix with the one before it is counted only when the
  two suffixes start in different files, and the largest of those counts is
  found. `lex.dfy` holds the order of `String.compareTo` and a sort proved to
  order and permute its input. That sort is the model of `Arrays.sort`.
- `boggle.dfy` (`asg2.java`). A Boggle solver. A board of letters is checked
  for shape. A sorted dictionary keeps only the words longer than two letters.
  A backtracking depth-first search uses binary search to prune prefixes. It
  records, for each dictionary word the board spells along a path of
  distinct neighbouring cells, one such path. The points per word follow a
  table indexed by length, and the points are summed over the answers.
- `hashmap.dfy` and `hashmap_object.dfy` (`MyHashMap.java`). A separate-chaining
  hash map with two hash functions. `put` links a new key into the shorter of
  its two chains. The table grows fourfold once it holds more items than
  buckets. `remove` searches both chains, while `get` searches only the chain
  that is shorter at the time of the call. `hashmap.dfy` holds the table as a
  value together with its invariant: every key sits once, in one of its two
  chains. `hashmap_object.dfy` is the class with the bucket array and the
  iterator, and every method there is proved equal to the value-level
  operation.
- `depq.dfy`, `list_depq.dfy`, `tree_depq.dfy` and `depq_agree.dfy`
  (`DoubleEndedPriorityQueue.java` and the two implementations). A
  double-ended priority queue of integers:
  - as a sorted doubly linked list, whose `Node` objects are relinked in place;
  - as a binary search tree whose nodes hold lists of equal items.

  Both are proved to meet the queue contract: the least and the greatest
  element are found and deleted, and an empty queue is reported with `None`,
  which stands for `UnderflowException`. `depq_agree.dfy` proves that the list
  and the tree list the same values and stay in step through every operation.
- `grid_paths.dfy` (`PQ.java`). A grid of cell costs, and two priority-queue
  sweeps from a start cell. Each sweep sets a square's distance and its
  predecessor the first time the square is reached:
  - the cheapest path adds the entered cell's cost;
  - the bottleneck path keeps the smaller of the distance and the cost, with
    the lower right cell treated as `INFINITY`.

  The sweeps are proved to reach every square. Where no sum can decrease, the
  sweeps are proved optimal: the predecessor chain that `createPath` follows
  is a path whose value is the square's distance, and no path from the start
  does better.
- `ftp_server.dfy` (`myftpserver.java`). The control connection of one
  server thread. The commands are USER, PASS, XMKD, CWD, XPWD, EPRT, RETR,
  STOR, DELE and QUIT, with the 502 reply for anything else. The login state,
  the directory and the transfer address are updated command by command. An
  uncaught exception ends the thread. The filesystem, name resolution and the
  data socket are an environment of oracles, supplied per input line.

`wrappers.dfy` holds `Option`, which also stands for a Java reference that
may be null.

## Model

| member | source | states |
|---|---|---|
| Lex.CompareZeroIffEqual | Data-Structures/LongestSubstring/asg1.java:86-147 | the string comparison is zero exactly when the two strings are equal |
| Lex.CompareAntisymmetric | Data-Structures/LongestSubstring/asg1.java:86-147 | swapping the operands negates the comparison |
| Lex.CompareTransitive | Data-Structures/LongestSubstring/asg1.java:86-147 | the order is transitive |
| Lex.CompareTotal | Data-Structures/LongestSubstring/asg1.java:86-147 | any two strings are ordered one way or the other |
| Lex.PrefixSortsFirst | Data-Structures/Boggle/asg2.java:266-274 | a prefix sorts no later than the word, and strictly earlier when shorter |
| Lex.BetweenKeepsPrefix | Data-Structures/Boggle/asg2.java:266-274 | a string sorted between a prefix and a word carrying it also carries it, so the insertion point decides whether any word has the prefix |
| Lex.CompareAfterCommonPrefix | Data-Structures/LongestSubstring/asg1.java:86-147 | after a common prefix, the comparison is that of the rests |
| Sorting.Sort | Data-Structures/LongestSubstring/asg1.java:268 | `Arrays.sort` under a total preorder: the result is sorted and a permutation of the input |
| Sorting.InsertSorted | Data-Structures/LongestSubstring/asg1.java:268 | inserting into a sorted sequence keeps it sorted and adds exactly that element |
| LongestSubstring.Whole | Data-Structures/LongestSubstring/asg1.java:16-21 | the view of a whole string reads that string, and is valid when the string is non-empty |
| LongestSubstring.TheString.Substring | Data-Structures/LongestSubstring/asg1.java:28-35 | a suffix view shares the text and the length, starts at the index, and reads the suffix from there |
| LongestSubstring.TheString.CompareTo | Data-Structures/LongestSubstring/asg1.java:86-147 | the character loop returns the lexicographic comparison of the two viewed suffixes |
| LongestSubstring.CompareZeroIffSameStart | Data-Structures/LongestSubstring/asg1.java:86-147 | two suffixes of one text compare equal exactly when they start at the same index, and the comparison is antisymmetric |
| LongestSubstring.LongestPrefix | Data-Structures/LongestSubstring/asg1.java:187-203 | the count is the longest common prefix of the two suffixes without their last character if they start on opposite sides of the separator, and 0 otherwise |
| LongestSubstring.LongestCommonPrefixUnique | Data-Structures/LongestSubstring/asg1.java:187-203 | the longest-common-prefix length is unique |
| LongestSubstring.CompileFiles | Data-Structures/LongestSubstring/asg1.java:212-243 | the joined text is the first file's tokens, `@`, then the second file's tokens; the separator index is the length of the first part; with an empty second file the `@` is trimmed off |
| LongestSubstring.AllSuffixes | Data-Structures/LongestSubstring/asg1.java:255-263 | one valid suffix view per index, starting at that index |
| LongestSubstring.SuffixLeIsTotalPreorder | Data-Structures/LongestSubstring/asg1.java:268 | the suffix order is a total preorder, so sorting the suffixes is well defined |
| LongestSubstring.PermutedSuffixesValid | Data-Structures/LongestSubstring/asg1.java:260-268 | every element of a permutation of the suffixes is a valid view |
| LongestSubstring.SortedSuffixesStrictlyIncrease | Data-Structures/LongestSubstring/asg1.java:268 | the sorted suffixes are strictly increasing, since no two suffixes are equal |
| LongestSubstring.FillLcp | Data-Structures/LongestSubstring/asg1.java:273-278 | entry 0 is 0 and entry i is the cross-file common prefix length of suffix i and suffix i-1 |
| LongestSubstring.MaxLcpIndex | Data-Structures/LongestSubstring/asg1.java:282-289 | the index holds a largest entry and is the first such index |
| LongestSubstring.FindLongestRepeat | Data-Structures/LongestSubstring/asg1.java:253-289 | the suffixes sorted and permuted, the LCP array, and the first index of its maximum |
| BoggleSolver.CheckPuzzle | Data-Structures/Boggle/asg2.java:159-171 | the puzzle is accepted exactly when it has a line and all its lines have one length |
| BoggleSolver.Load | Data-Structures/Boggle/asg2.java:146-216 | a malformed puzzle gives None (the exception); otherwise a fresh game whose board holds the puzzle's letters and whose dictionary is the sorted long words |
| BoggleSolver.LongWordsMembers | Data-Structures/Boggle/asg2.java:201-203 | a word is kept exactly when it is in the file and longer than two letters |
| BoggleSolver.SortedDictionary | Data-Structures/Boggle/asg2.java:205-208 | the dictionary is sorted and a permutation of the kept words |
| BoggleSolver.LeIsTotalPreorder | Data-Structures/Boggle/asg2.java:208 | the string order is a total preorder |
| BoggleSolver.CollectLongWords | Data-Structures/Boggle/asg2.java:193-204 | the doubling read loop leaves the kept words, in file order, at the front of the array |
| BoggleSolver.CopyPrefix | Data-Structures/Boggle/asg2.java:197-198 | `System.arraycopy` into a fresh array of the new length preserves the first n entries |
| BoggleSolver.LoadDictionary | Data-Structures/Boggle/asg2.java:188-208 | the array is exactly the sorted dictionary of kept words |
| BoggleSolver.SortWords | Data-Structures/Boggle/asg2.java:207-208 | sorting the trimmed array yields the kept words in lexicographic order, as a permutation of them |
| BoggleSolver.BinarySearch | Data-Structures/Boggle/asg2.java:260 | `Arrays.binarySearch`: a non-negative result is an index holding the key; a negative result encodes the insertion point, with everything before it smaller and everything from it larger |
| BoggleSolver.InsertionPointDecidesPrefix | Data-Structures/Boggle/asg2.java:266-288 | the word at the insertion point starts with the key exactly when some dictionary word does, which justifies the pruning |
| BoggleSolver.IndividualPoints | Data-Structures/Boggle/asg2.java:335-372 | zero points exactly for words under three letters, fifteen exactly from nine letters |
| BoggleSolver.PointsFollowTable | Data-Structures/Boggle/asg2.java:335-372 | the points are the table entry for the length, capped at nine |
| BoggleSolver.PointsMonotone | Data-Structures/Boggle/asg2.java:335-372 | a longer word never scores fewer points |
| BoggleSolver.SumPointsRemove | Data-Structures/Boggle/asg2.java:316-329 | the total over a set of words is one word's points plus the total of the rest, in any order |
| BoggleSolver.TotalPoints | Data-Structures/Boggle/asg2.java:316-329 | the loop over the answers sums the points of every answer word |
| BoggleSolver.Boggle.constructor | Data-Structures/Boggle/asg2.java:173-208 | for an accepted puzzle, the board has its rows and columns and letters, and the dictionary is the sorted long words |
| BoggleSolver.Boggle.GetNeighbors | Data-Structures/Boggle/asg2.java:44-74 | the neighbours are exactly the in-bounds cells adjacent to the position, each once |
| BoggleSolver.Boggle.Solve | Data-Structures/Boggle/asg2.java:234-247 | every answer is a dictionary word spelled by its recorded path of distinct, adjacent, in-bounds cells |
| BoggleSolver.Boggle.SolveFrom | Data-Structures/Boggle/asg2.java:255-310 | the search restores the path, keeps every recorded answer valid and never drops an answer |
| BoggleSolver.Boggle.Visit | Data-Structures/Boggle/asg2.java:276-307 | entering a cell extends the path by it, records the word when it is one, and searches on from there |
| BoggleSolver.Boggle.Enter | Data-Structures/Boggle/asg2.java:258-300 | the sequence gains the cell's letter, the path gains the cell and still spells the sequence, and a word maps to a copy of the path |
| BoggleSolver.Boggle.Extend | Data-Structures/Boggle/asg2.java:276-277 | adding an unused adjacent cell keeps a path of distinct neighbours spelling the sequence plus its letter |
| BoggleSolver.Boggle.Record | Data-Structures/Boggle/asg2.java:295-300 | the word is mapped to the current path and every answer stays valid |
| BoggleSolver.Boggle.SolveAll | Data-Structures/Boggle/asg2.java:302-307 | the search from every neighbour in turn leaves the path as it was and keeps the answers valid |
| TwoChoiceHashMap.Bucket | Data-Structures/HashMap/MyHashMap.java:112-125 | the chain index is the absolute value of the hash code modulo the table length, and lies in the table |
| TwoChoiceHashMap.EmptyTableValid | Data-Structures/HashMap/MyHashMap.java:59-63 | an empty table of any positive length meets the invariant and holds no node |
| TwoChoiceHashMap.Find | Data-Structures/HashMap/MyHashMap.java:133-145 | the first position in a chain holding the key, or None exactly when the chain lacks it |
| TwoChoiceHashMap.Insert | Data-Structures/HashMap/MyHashMap.java:73-105 | a previous value is returned exactly when either chain already holds the key |
| TwoChoiceHashMap.InsertValid | Data-Structures/HashMap/MyHashMap.java:73-105 | put keeps every key once in one of its two chains; a new key adds exactly one entry; an existing key has its value replaced and the old value returned |
| TwoChoiceHashMap.InsertKeepsValid | Data-Structures/HashMap/MyHashMap.java:73-105 | the node count grows by one exactly when no previous value is returned |
| TwoChoiceHashMap.Rehash | Data-Structures/HashMap/MyHashMap.java:150-172 | the new table is four times as long |
| TwoChoiceHashMap.RehashValid | Data-Structures/HashMap/MyHashMap.java:150-172 | rehashing keeps the invariant, the entries as a multiset and the node count |
| TwoChoiceHashMap.Put | Data-Structures/HashMap/MyHashMap.java:73-105 | the table grows fourfold exactly when it held more items than buckets |
| TwoChoiceHashMap.Remove | Data-Structures/HashMap/MyHashMap.java:197-239 | removal reports true exactly when either chain holds the key, and leaves the table unchanged otherwise |
| TwoChoiceHashMap.RemoveValid | Data-Structures/HashMap/MyHashMap.java:197-239 | remove keeps the invariant and takes away exactly the key's one entry, after which the key is nowhere in the table |
| TwoChoiceHashMap.RemoveKeepsValid | Data-Structures/HashMap/MyHashMap.java:197-239 | the node count drops by one exactly when true is returned |
| TwoChoiceHashMap.MinBucket | Data-Structures/HashMap/MyHashMap.java:246-257 | one of the key's two chains, and no longer than the other |
| TwoChoiceHashMap.Get | Data-Structures/HashMap/MyHashMap.java:264-272 | a value is found exactly when the shorter chain holds the key, and it is that chain's value for the key |
| TwoChoiceHashMap.GetSound | Data-Structures/HashMap/MyHashMap.java:264-272 | a value get returns is stored under the key |
| TwoChoiceHashMap.GetMissesFreshlyPutKey | Data-Structures/HashMap/MyHashMap.java:246-272 | with one hash function sending every key to chain 0 and the other to chain 1, a key put into an empty map is stored but not found by get |
| TwoChoiceHashMap.ValidDistinct | Data-Structures/HashMap/MyHashMap.java:73-105 | under the invariant no key appears twice in the table |
| TwoChoiceHashMap.CountsCoverAllChains | Data-Structures/HashMap/MyHashMap.java:397-407 | when every chain is shorter than the histogram, its counts add up to the number of chains |
| HashMapObject.MyHashMap.constructor | Data-Structures/HashMap/MyHashMap.java:32-37 | a fresh empty table of the default length with the two hash functions |
| HashMapObject.MyHashMap.Clear | Data-Structures/HashMap/MyHashMap.java:51-54 | the map is a fresh empty table of the default length with size 0 |
| HashMapObject.MyHashMap.DoClear | Data-Structures/HashMap/MyHashMap.java:59-63 | the map is a fresh empty table of the default length with size 0 |
| HashMapObject.MyHashMap.MyHash1 | Data-Structures/HashMap/MyHashMap.java:112-115 | the first hash gives an index into the array |
| HashMapObject.MyHashMap.MyHash2 | Data-Structures/HashMap/MyHashMap.java:122-125 | the second hash gives an index into the array |
| HashMapObject.MyHashMap.ListContains | Data-Structures/HashMap/MyHashMap.java:133-145 | the list walk returns the first node holding the key, or null |
| HashMapObject.MyHashMap.IndexSize | Data-Structures/HashMap/MyHashMap.java:179-190 | the walk counts the nodes of the chain |
| HashMapObject.MyHashMap.Put | Data-Structures/HashMap/MyHashMap.java:73-105 | the new table and the returned value are those of the value-level put; the size grows exactly for a new key; a new array exactly when the table grew |
| HashMapObject.MyHashMap.Rehash | Data-Structures/HashMap/MyHashMap.java:150-172 | the array is replaced by the value-level rehash of the old table, and the size is kept |
| HashMapObject.MyHashMap.PutNodes | Data-Structures/HashMap/MyHashMap.java:159-166 | putting one chain's nodes into the new table in list order is reinsertion of those entries |
| HashMapObject.MyHashMap.Remove | Data-Structures/HashMap/MyHashMap.java:197-239 | the new table and the result are those of the value-level remove, and the size drops exactly when something was removed |
| HashMapObject.MyHashMap.FindMinHashCode | Data-Structures/HashMap/MyHashMap.java:246-257 | the index of the key's shorter chain |
| HashMapObject.MyHashMap.Get | Data-Structures/HashMap/MyHashMap.java:264-272 | the value-level get of the current table |
| HashMapObject.MyHashMap.GetLengths | Data-Structures/HashMap/MyHashMap.java:397-407 | entry s of the fresh histogram is the number of chains of length s |
| HashMapObject.MapIterator.constructor | Data-Structures/HashMap/MyHashMap.java:363-366 | a new iterator over the array has consumed nothing |
| HashMapObject.MapIterator.AdvanceToNewList | Data-Structures/HashMap/MyHashMap.java:355-361 | skipping empty chains consumes nothing new: the entries before the current chain are exactly those already returned |
| HashMapObject.MapIterator.HasNext | Data-Structures/HashMap/MyHashMap.java:313-316 | true exactly when fewer entries have been returned than the table holds |
| HashMapObject.MapIterator.Next | Data-Structures/HashMap/MyHashMap.java:318-353 | the next entry in chain-by-chain order, and one more consumed |
| DoubleEndedPriorityQueue.SortedFirstIsMin | Data-Structures/DoubleEndedPriorityQueue/DoubleEndedPriorityQueue.java:14-16 | the front of a sorted sequence is a least element |
| DoubleEndedPriorityQueue.SortedLastIsMax | Data-Structures/DoubleEndedPriorityQueue/DoubleEndedPriorityQueue.java:15-17 | the back of a sorted sequence is a greatest element |
| DoubleEndedPriorityQueue.SortedTails | Data-Structures/DoubleEndedPriorityQueue/DoubleEndedPriorityQueue.java:14-15 | dropping the front or the back keeps a sorted sequence sorted and removes exactly that element |
| DoubleEndedPriorityQueue.SortedUnique | Data-Structures/DoubleEndedPriorityQueue/DoubleEndedPriorityQueue.java:10-19 | a sorted sequence is determined by its multiset |
| ListDepq.InsertPoint | Data-Structures/DoubleEndedPriorityQueue/ListDoubleEndedPriorityQueue.java:98-119 | the new value goes before the first element not smaller than it |
| ListDepq.InsertPointUnique | Data-Structures/DoubleEndedPriorityQueue/ListDoubleEndedPriorityQueue.java:98-119 | that position is the only one with smaller elements before it and no smaller one at it |
| ListDepq.InsertedIsSorted | Data-Structures/DoubleEndedPriorityQueue/ListDoubleEndedPriorityQueue.java:89-124 | inserting keeps the list sorted |
| ListDepq.InsertedAddsOne | Data-Structures/DoubleEndedPriorityQueue/ListDoubleEndedPriorityQueue.java:89-124 | inserting adds exactly one copy of the value |
| ListDepq.ListMeetsContract | Data-Structures/DoubleEndedPriorityQueue/ListDoubleEndedPriorityQueue.java:89-192 | on a sorted list, the first is a least and the last a greatest element, removing either takes exactly it away, and insertion meets the add contract |
| ListDepq.DistinctSplice | Data-Structures/DoubleEndedPriorityQueue/ListDoubleEndedPriorityQueue.java:114-115 | splicing a new node into a list of distinct nodes keeps them distinct |
| ListDepq.ListDoubleEndedPriorityQueue.constructor | Data-Structures/DoubleEndedPriorityQueue/ListDoubleEndedPriorityQueue.java:46-60 | a new queue is an empty well-linked list |
| ListDepq.ListDoubleEndedPriorityQueue.MakeEmpty | Data-Structures/DoubleEndedPriorityQueue/ListDoubleEndedPriorityQueue.java:80-83 | the queue becomes empty |
| ListDepq.ListDoubleEndedPriorityQueue.Add | Data-Structures/DoubleEndedPriorityQueue/ListDoubleEndedPriorityQueue.java:89-124 | the contents become the sorted insertion of the value, and the list stays well linked and sorted |
| ListDepq.ListDoubleEndedPriorityQueue.AddAfterFirst | Data-Structures/DoubleEndedPriorityQueue/ListDoubleEndedPriorityQueue.java:105-122 | past the first node, the value is linked in before the first element at least as large, or appended, and the list stays well linked and sorted |
| ListDepq.ListDoubleEndedPriorityQueue.Prepend | Data-Structures/DoubleEndedPriorityQueue/ListDoubleEndedPriorityQueue.java:100-104 | linking in a new first node puts its value in front |
| ListDepq.ListDoubleEndedPriorityQueue.Locate | Data-Structures/DoubleEndedPriorityQueue/ListDoubleEndedPriorityQueue.java:107-119 | the walk stops at the last node whose value is smaller than the new one |
| ListDepq.ListDoubleEndedPriorityQueue.Splice | Data-Structures/DoubleEndedPriorityQueue/ListDoubleEndedPriorityQueue.java:114-115 | relinking four pointers inserts the node between its two neighbours |
| ListDepq.ListDoubleEndedPriorityQueue.Append | Data-Structures/DoubleEndedPriorityQueue/ListDoubleEndedPriorityQueue.java:120-121 | a fresh last node carries the value at the back |
| ListDepq.ListDoubleEndedPriorityQueue.DeleteMin | Data-Structures/DoubleEndedPriorityQueue/ListDoubleEndedPriorityQueue.java:131-148 | None on an empty queue; otherwise the first value, which leaves the list |
| ListDepq.ListDoubleEndedPriorityQueue.DeleteMax | Data-Structures/DoubleEndedPriorityQueue/ListDoubleEndedPriorityQueue.java:155-174 | None on an empty queue; otherwise the last value, which leaves the list |
| ListDepq.ListDoubleEndedPriorityQueue.FindMin | Data-Structures/DoubleEndedPriorityQueue/ListDoubleEndedPriorityQueue.java:180-183 | the first value, a least element |
| ListDepq.ListDoubleEndedPriorityQueue.FindMax | Data-Structures/DoubleEndedPriorityQueue/ListDoubleEndedPriorityQueue.java:189-192 | the last value, a greatest element |
| ListDepq.ListDoubleEndedPriorityQueue.IsEmpty | Data-Structures/DoubleEndedPriorityQueue/ListDoubleEndedPriorityQueue.java:198-201 | true exactly when the queue holds nothing |
| ListDepq.ListDoubleEndedPriorityQueue.ToSequence | Data-Structures/DoubleEndedPriorityQueue/ListDoubleEndedPriorityQueue.java:207-231 | the values front to back, in sorted order |
| TreeDepq.InsertElements | Data-Structures/DoubleEndedPriorityQueue/TreeDoubleEndedPriorityQueue.java:101-136 | adding puts exactly one more copy of the value in the tree |
| TreeDepq.InsertKeepsBst | Data-Structures/DoubleEndedPriorityQueue/TreeDoubleEndedPriorityQueue.java:116-136 | adding keeps the search-tree order with equal items sharing a node |
| TreeDepq.InsertPushesFront | Data-Structures/DoubleEndedPriorityQueue/TreeDoubleEndedPriorityQueue.java:116-136 | at any depth, add pushes the value onto the front of the items of the node whose head it is, and the items found for every other value stay as they were |
| TreeDepq.InsertNodeCount | Data-Structures/DoubleEndedPriorityQueue/TreeDoubleEndedPriorityQueue.java:100-136 | add makes one new node exactly when no node on the search path has the value as its head, and none otherwise |
| TreeDepq.ItemsOfHoldsAllCopies | Data-Structures/DoubleEndedPriorityQueue/TreeDoubleEndedPriorityQueue.java:116-136 | in a search tree the node found for a value holds every copy of it in the tree and nothing else |
| TreeDepq.InsertPresentKeepsNodeCount | Data-Structures/DoubleEndedPriorityQueue/TreeDoubleEndedPriorityQueue.java:130-135 | adding a value already in the tree makes no new node and pushes the value onto the front of that value's node |
| TreeDepq.MinOfIsMin | Data-Structures/DoubleEndedPriorityQueue/TreeDoubleEndedPriorityQueue.java:243-255 | the leftmost node's value is a least element |
| TreeDepq.MaxOfIsMax | Data-Structures/DoubleEndedPriorityQueue/TreeDoubleEndedPriorityQueue.java:261-269 | the rightmost node's value is a greatest element |
| TreeDepq.RemoveMin | Data-Structures/DoubleEndedPriorityQueue/TreeDoubleEndedPriorityQueue.java:143-186 | the removed value is the leftmost one |
| TreeDepq.RemoveMax | Data-Structures/DoubleEndedPriorityQueue/TreeDoubleEndedPriorityQueue.java:193-237 | the removed value is the rightmost one |
| TreeDepq.RemoveMinBelow | Data-Structures/DoubleEndedPriorityQueue/TreeDoubleEndedPriorityQueue.java:161-186 | the value taken from below a node with a left child is the tree's leftmost value |
| TreeDepq.RemoveMaxBelow | Data-Structures/DoubleEndedPriorityQueue/TreeDoubleEndedPriorityQueue.java:212-237 | the value taken from below a node with a right child is the tree's rightmost value |
| TreeDepq.DeleteMinMeetsContract | Data-Structures/DoubleEndedPriorityQueue/TreeDoubleEndedPriorityQueue.java:143-186 | deleteMin returns a least element, removes exactly one copy of it, and keeps the tree ordered |
| TreeDepq.DeleteMaxMeetsContract | Data-Structures/DoubleEndedPriorityQueue/TreeDoubleEndedPriorityQueue.java:193-237 | deleteMax returns a greatest element, removes exactly one copy of it, and keeps the tree ordered |
| TreeDepq.InOrderElements | Data-Structures/DoubleEndedPriorityQueue/TreeDoubleEndedPriorityQueue.java:284-316 | the in-order listing holds exactly the tree's values |
| TreeDepq.InOrderSorted | Data-Structures/DoubleEndedPriorityQueue/TreeDoubleEndedPriorityQueue.java:284-316 | the in-order listing of an ordered tree is sorted |
| TreeDepq.TreeDoubleEndedPriorityQueue.constructor | Data-Structures/DoubleEndedPriorityQueue/TreeDoubleEndedPriorityQueue.java:61-73 | a new queue is the empty tree |
| TreeDepq.TreeDoubleEndedPriorityQueue.MakeEmpty | Data-Structures/DoubleEndedPriorityQueue/TreeDoubleEndedPriorityQueue.java:92-95 | the queue becomes empty |
| TreeDepq.TreeDoubleEndedPriorityQueue.Add | Data-Structures/DoubleEndedPriorityQueue/TreeDoubleEndedPriorityQueue.java:101-108 | the tree is the insertion of the value and holds one more copy of it |
| TreeDepq.TreeDoubleEndedPriorityQueue.DeleteMin | Data-Structures/DoubleEndedPriorityQueue/TreeDoubleEndedPriorityQueue.java:143-160 | None on an empty tree; otherwise the leftmost value and the tree without it |
| TreeDepq.TreeDoubleEndedPriorityQueue.DeleteMax | Data-Structures/DoubleEndedPriorityQueue/TreeDoubleEndedPriorityQueue.java:193-211 | None on an empty tree; otherwise the rightmost value and the tree without it |
| TreeDepq.TreeDoubleEndedPriorityQueue.FindMin | Data-Structures/DoubleEndedPriorityQueue/TreeDoubleEndedPriorityQueue.java:243-255 | None on an empty tree; otherwise the leftmost value, a least element |
| TreeDepq.TreeDoubleEndedPriorityQueue.FindMax | Data-Structures/DoubleEndedPriorityQueue/TreeDoubleEndedPriorityQueue.java:261-269 | the rightmost value, a greatest element |
| TreeDepq.TreeDoubleEndedPriorityQueue.IsEmpty | Data-Structures/DoubleEndedPriorityQueue/TreeDoubleEndedPriorityQueue.java:275-278 | true exactly when the queue holds nothing |
| TreeDepq.TreeDoubleEndedPriorityQueue.ToSequence | Data-Structures/DoubleEndedPriorityQueue/TreeDoubleEndedPriorityQueue.java:284-316 | the in-order listing, sorted and holding exactly the queue's values |
| TreeDepq.TreeDoubleEndedPriorityQueue.AppendInOrder | Data-Structures/DoubleEndedPriorityQueue/TreeDoubleEndedPriorityQueue.java:300-316 | the accumulated listing followed by the in-order listing of the subtree |
| QueuesAgree.SameListing | Data-Structures/DoubleEndedPriorityQueue/TreeDoubleEndedPriorityQueue.java:284-316 | a tree and a list with the same values list them in the same order |
| QueuesAgree.AddAgrees | Data-Structures/DoubleEndedPriorityQueue/DoubleEndedPriorityQueue.java:13 | add on both keeps them the same queue |
| QueuesAgree.DeleteMinAgrees | Data-Structures/DoubleEndedPriorityQueue/DoubleEndedPriorityQueue.java:14 | deleteMin on both returns the same value and keeps them the same queue |
| QueuesAgree.DeleteMaxAgrees | Data-Structures/DoubleEndedPriorityQueue/DoubleEndedPriorityQueue.java:15 | deleteMax on both returns the same value and keeps them the same queue |
| QueuesAgree.EmptyAgrees | Data-Structures/DoubleEndedPriorityQueue/DoubleEndedPriorityQueue.java:18 | the tree is empty exactly when the list is |
| GridPaths.Grid.constructor | Data-Structures/ShortestPath/PQ.java:155-224 | the grid has the matrix's rows, columns and costs, every distance unset and no predecessor |
| GridPaths.Grid.Adjacents | Data-Structures/ShortestPath/PQ.java:121-136 | exactly the in-bounds cells around the square, in row-major order |
| GridPaths.Grid.ResetDistances | Data-Structures/ShortestPath/PQ.java:233-235 | every square gets the given distance and no predecessor |
| GridPaths.Grid.SetDistance | Data-Structures/ShortestPath/PQ.java:65-69 | one square's distance and predecessor change, and no other square's |
| GridPaths.Grid.SetCost | Data-Structures/ShortestPath/PQ.java:93-96 | one square's cost changes, and no other square's |
| GridPaths.Grid.ExtractBest | Data-Structures/ShortestPath/PQ.java:246 | a queued square with the least distance (the greatest for the bottleneck), removed once from the queue |
| GridPaths.Grid.Reach | Data-Structures/ShortestPath/PQ.java:249-254 | an unreached neighbour gets the step from the popped square as its distance, that square as its predecessor, and joins the queue |
| GridPaths.Grid.ReachedEarlier | Data-Structures/ShortestPath/PQ.java:244-256 | when costs are non-negative, a square reached earlier is no worse than one reached now from the popped square |
| GridPaths.Grid.VisitOne | Data-Structures/ShortestPath/PQ.java:247-255 | one neighbour is reached if it was unset and left alone otherwise |
| GridPaths.Grid.VisitNeighbors | Data-Structures/ShortestPath/PQ.java:247-255 | after the popped square's neighbours all have distances, the sweep invariant holds again |
| GridPaths.Grid.SweepStep | Data-Structures/ShortestPath/PQ.java:246-255 | one pass of the loop keeps the sweep invariant and either reaches a new square or shrinks the queue |
| GridPaths.Grid.RunSweep | Data-Structures/ShortestPath/PQ.java:243-256 | the loop ends with every square reached along predecessor links, and, when no sum can decrease, with no square improvable from a neighbour |
| GridPaths.Grid.ReachedFrom | Data-Structures/ShortestPath/PQ.java:244-256 | once the queue is empty, every square of the grid has been reached |
| GridPaths.Grid.ComputeShortestPath | Data-Structures/ShortestPath/PQ.java:231-257 | from the start, every square gets a finite distance along predecessor links, and with non-negative costs no square can be improved from a neighbour |
| GridPaths.Grid.RestoreKeepsSweep | Data-Structures/ShortestPath/PQ.java:294 | restoring the lower right cost keeps what the sweep established |
| GridPaths.Grid.ComputeBottleNeckPath | Data-Structures/ShortestPath/PQ.java:263-295 | every square gets a nonzero bottleneck along predecessor links, none can be improved from a neighbour, and the costs are restored |
| GridPaths.Grid.CreatePath | Data-Structures/ShortestPath/PQ.java:357-374 | the walk back along the predecessor links, reversed, is the path to the square |
| GridPaths.Grid.PathLinks | Data-Structures/ShortestPath/PQ.java:357-374 | that path ends at the square, starts at a square with no predecessor, and each square's predecessor comes just before it |
| GridPaths.Grid.SweptRanked | Data-Structures/ShortestPath/PQ.java:244-256 | after a sweep, the predecessor links only ever point to squares reached earlier, so the walk back ends |
| GridPaths.Grid.PathEarnsDistance | Data-Structures/ShortestPath/PQ.java:244-256 | the path to a reached square runs from the start through neighbouring squares, and its value is the square's distance |
| GridPaths.Grid.NoPathIsBetter | Data-Structures/ShortestPath/PQ.java:8-16 | when no square can be improved from a neighbour, no path from the start beats the square's distance |
| GridPaths.Grid.BestPath | Data-Structures/ShortestPath/PQ.java:8-16 | the path createPath follows to a reached square is the cheapest path (the widest path for the bottleneck) from the start |
| GridPaths.Grid.NewDistanceFits | Data-Structures/ShortestPath/PQ.java:249-252 | under the cost bound a new distance is never the unset value and stays within the grid's bound |
| FtpServer.TakeToken | Net-Centric/myftpserver.java:240-243 | the next token is the longest run with no delimiter at the front, ending at a delimiter or the end |
| FtpServer.Tokens | Net-Centric/myftpserver.java:120-121 | every token that `StringTokenizer` yields is non-empty and has no delimiter |
| FtpServer.TokensOfJoin | Net-Centric/myftpserver.java:120-121 | tokenizing words joined by spaces gives back the words |
| FtpServer.SplitOfJoin | Net-Centric/myftpserver.java:284-299 | `String.split` of fields joined by the separator gives back the fields when the last one is non-empty |
| FtpServer.ReplaceWithoutOccurrence | Net-Centric/myftpserver.java:170 | replacing a target that does not occur leaves the string unchanged |
| FtpServer.ParseInt | Net-Centric/myftpserver.java:359-375 | a parsed port fits in a 32-bit int |
| FtpServer.ParseIntOfDecimal | Net-Centric/myftpserver.java:359-375 | `Integer.parseInt` reads back any decimal below 2^31 |
| FtpServer.Split | Net-Centric/myftpserver.java:284-299 | `String.split` either yields pieces or the string held a separator, and no piece holds a separator |
| FtpServer.ReplaceAll | Net-Centric/myftpserver.java:170 | replacing a target by itself changes nothing, and a string that starts with the target starts with the replacement afterwards |
| FtpServer.PrevReply | Net-Centric/myftpserver.java:301-325 | `..` answers 250 exactly when the parent path does not sort before the root and can be entered, otherwise 450 |
| FtpServer.Forward | Net-Centric/myftpserver.java:327-347 | a forward segment answers 550 exactly when the subdirectory is missing, 250 exactly when it can be entered, 450 otherwise, and moves only on 250 |
| FtpServer.Walk | Net-Centric/myftpserver.java:284-299 | one reply per segment, each of them 250, 450 or 550 |
| FtpServer.MakeDirectoriesReply | Net-Centric/myftpserver.java:267-282 | 257 with the path exactly when `mkdirs` succeeds, otherwise 450 |
| FtpServer.RetrOutcome | Net-Centric/myftpserver.java:377-406 | 125 first and the session kept; the thread dies exactly when no address is recorded or the port is out of range; 226 exactly when the socket opens, the file is readable and the copy finishes; otherwise 425 |
| FtpServer.StorOutcome | Net-Centric/myftpserver.java:408-443 | 125 first and the session kept; the thread dies exactly when no address is recorded or the port is out of range; once the data socket opens, 450 exactly when the file already exists and 226 exactly when it is created and the copy finishes; otherwise 425 |
| FtpServer.DeleteReply | Net-Centric/myftpserver.java:445-467 | 550 exactly when the file is missing, 250 exactly when it exists and is deleted, otherwise 450 |
| FtpServer.SetupTransferOutcome | Net-Centric/myftpserver.java:359-375 | the thread dies exactly when nothing is printed; 451 keeps the session; 200 exactly when there are at least four fields, the host resolves and the port parses, and then records the host and the port; the login state and directories are kept |
| FtpServer.GuardedStep | Net-Centric/myftpserver.java:144-220 | a guarded verb after login keeps the login, the quit flag, the user name, password and root; only CWD moves the current directory and only EPRT the endpoint |
| FtpServer.StepLogsInOnlyByPassStopsOnlyOnQuit | Net-Centric/myftpserver.java:119-230 | a line logs a user in only as a PASS answered 230, and the loop stops exactly on QUIT |
| FtpServer.TransferKeepsSession | Net-Centric/myftpserver.java:188-208 | RETR and STOR after login change no field, and their first reply is 125 |
| FtpServer.TransferWithoutAddressKillsThread | Net-Centric/myftpserver.java:377-382 | RETR or STOR before a successful EPRT prints 125 and then dies on the null address |
| FtpServer.TransferWithoutAddressEndsRun | Net-Centric/myftpserver.java:107-238 | a session whose next line is such a transfer ends there with that 125 and a dead thread |
| FtpServer.RetrSucceedsIff | Net-Centric/myftpserver.java:377-406 | RETR ends with 226 exactly when the endpoint is usable, the socket opens, the file is readable and the copy finishes |
| FtpServer.StorOntoExistingFileRefused | Net-Centric/myftpserver.java:408-443 | STOR onto an existing file answers 125 then 450 and the thread goes on with the session unchanged |
| FtpServer.DeleAnswers550IffMissing | Net-Centric/myftpserver.java:210-219 | DELE changes no field and answers 550 exactly when the file is missing, 250 exactly when it is deleted, otherwise 450 |
| FtpServer.XmkdAnswers257IffCreated | Net-Centric/myftpserver.java:144-153 | XMKD changes no field and answers 257 with the path exactly when `mkdirs` succeeds, otherwise 450 |
| FtpServer.FullPath | Net-Centric/myftpserver.java:262-265 | the current directory, a backslash, then the subpath |
| FtpServer.RunFromTurn | Net-Centric/myftpserver.java:117-231 | a session is one turn of the loop and then the session from the state that turn leaves |
| FtpServer.GuardedVerbRefusedBeforeLogin | Net-Centric/myftpserver.java:144-220 | before login, every guarded verb gets 530 and changes nothing |
| FtpServer.UserRecordsName | Net-Centric/myftpserver.java:123-128 | USER records the name, answers 331 and keeps the login state |
| FtpServer.PassSucceedsIffNameMatches | Net-Centric/myftpserver.java:130-143 | PASS answers 230 exactly when the password equals the recorded name, logging in at the working directory; otherwise 430 with the login state kept |
| FtpServer.PassBeforeUserKillsThread | Net-Centric/myftpserver.java:250-253 | PASS with no recorded name ends the thread without a reply |
| FtpServer.QuitEndsSession | Net-Centric/myftpserver.java:221-225 | QUIT answers 231, logs out and ends the session, whatever input follows |
| FtpServer.QuitStep | Net-Centric/myftpserver.java:221-225 | QUIT logs out with the 231 reply in any state |
| FtpServer.OtherVerbNotImplemented | Net-Centric/myftpserver.java:226-230 | any other verb gets 502 and changes nothing |
| FtpServer.XpwdAfterLoginShowsHome | Net-Centric/myftpserver.java:166-176 | right after login, XPWD reports `~` |
| FtpServer.UpSegmentKeepsDirectory | Net-Centric/myftpserver.java:301-325 | a `..` segment never changes the current directory and answers 250 or 450 |
| FtpServer.ForwardSegmentMovesOnlyOnSuccess | Net-Centric/myftpserver.java:327-347 | a forward segment moves into the subdirectory exactly when it answers 250, answers 550 exactly when the subdirectory is missing, and stays put otherwise |
| FtpServer.UpOnlyWalkKeepsDirectory | Net-Centric/myftpserver.java:284-299 | a CWD made only of `..` segments leaves the current directory as it was |
| FtpServer.EprtRecordsHostAndPort | Net-Centric/myftpserver.java:354-375 | after login, a well formed EPRT with a resolvable host records the host and the port and answers 200 |
| FtpServer.ServerThread.constructor | Net-Centric/myftpserver.java:93-104 | a new thread is logged out, not quitting, with empty directories and no transfer address |
| FtpServer.ServerThread.DoLogin | Net-Centric/myftpserver.java:255-260 | login sets the login flag and both directories to the working directory |
| FtpServer.ServerThread.DoLogout | Net-Centric/myftpserver.java:469-474 | logout clears the login flag and sets quit |
| FtpServer.ServerThread.GoPrevDirectory | Net-Centric/myftpserver.java:301-325 | the reply of `..`: 450 when the candidate sorts before the root or cannot be entered, 250 otherwise |
| FtpServer.ServerThread.GoFwrdDirectory | Net-Centric/myftpserver.java:327-347 | the current directory and the reply of one forward segment, and nothing else changed |
| FtpServer.ServerThread.ChangeSegment | Net-Centric/myftpserver.java:289-297 | one segment of a CWD path, `..` or forward |
| FtpServer.ServerThread.ChangeDirectory | Net-Centric/myftpserver.java:284-299 | the walk over the backslash-separated segments, with one reply per segment |
| FtpServer.ServerThread.SetupTransfer | Net-Centric/myftpserver.java:359-375 | the EPRT outcome: a crash on missing fields or a bad port, 451 for an unknown host, otherwise the host and the port are recorded with 200 |
| FtpServer.ServerThread.HandleGuarded | Net-Centric/myftpserver.java:144-220 | a guarded verb after login, with the outcome of its handler, including the dead thread of RETR or STOR with no recorded address |
| FtpServer.ServerThread.HandleLine | Net-Centric/myftpserver.java:119-230 | one command line, with the outcome the step function gives |
| FtpServer.ServerThread.Turn | Net-Centric/myftpserver.java:117-231 | one loop turn: a dead thread, or the replies of the line followed by the rest of the session |
| FtpServer.ServerThread.Run | Net-Centric/myftpserver.java:107-238 | the 220 greeting and then the session's replies; the final state and the way the session ended (QUIT or a dead thread) |

## Left out

- File, socket and console I/O are not modelled. The contents of files enter as parameters: the Boggle puzzle lines and dictionary tokens, the cost matrix of the grid, and the token lists of the two texts. The filesystem, `InetAddress` resolution and the data socket of the FTP server are per-line oracles in `Env`. Everything printed is left out: `toString`, `printPath`, `printAnswers` and the server log.
- Timing (`System.currentTimeMillis`), the `main` methods and the server's accept loop (`myftpserver`, `getClientConnections`) are not modelled. The threads run concurrently, and only one thread is modelled.
- The Java comparators become comparisons on `int`. This holds for both priority queues (`myCompare`) and for the grid's subtraction comparators. A subtraction that overflows 32 bits is not modelled.
- 32-bit arithmetic is not modelled, with two exceptions. The grid sweep assumes a ghost bound on the costs, so that no path sum reaches `INFINITY`. The FTP port is parsed into the 32-bit range.
- The Java `PriorityQueue` heap is not modelled. `GridPaths.Grid.ExtractBest` takes the earliest queued best square. The heap may break a tie differently, so the contracts promise only "a best square".
- GridPaths.Grid.constructor: takes the cost matrix as a rectangular parameter with at least one row and one column, and builds a valid grid from it. The Java constructor measures only the lines before the last one. A one-line file therefore gets `numCols` 0, and `squares[numRows - 1][numCols - 1]` throws `ArrayIndexOutOfBoundsException`, while the model builds a 1×n grid. The width of the last line is not checked in Java either.
- GridPaths.Grid.ComputeBottleNeckPath: requires nonzero costs away from the start and the lower right cell. A zero-cost cell takes distance 0, which is also the "not reached" mark, so the Java loop can enqueue two neighbouring zero-cost cells for ever.
- GridPaths.Grid.ComputeShortestPath: requires the ghost cost bound described above. Optimality (`BestPath` through `Relaxed`) is proved only for non-negative costs. For negative costs the model claims only that every square is reached.
- GridPaths.Grid.CreatePath: requires the predecessor links to be ranked, as every sweep leaves them (`SweptRanked`). On links with a cycle the Java loop does not end.
- `Square` objects are modelled as the `dist`, `prev` and `matrix` arrays of the grid, indexed by `Cell`.
- The tree queue is modelled on values: a `Tree` datatype in a field, with no in-place relinking of nodes. The duplicate list of a node is a sequence.
- BoggleSolver.Boggle.Solve: proves that every answer is a dictionary word spelled along its path. It does not prove that every spellable dictionary word is found.
- BoggleSolver.Boggle.constructor: requires an accepted puzzle. `BoggleSolver.Load` models the exception path.
- The Boggle `DictionaryException` for a missing `dict.txt` is not modelled, because the file's tokens are a parameter.
- HashMapObject.MyHashMap.GetLengths: requires every chain to be shorter than the 20-entry histogram. The Java code would throw `ArrayIndexOutOfBoundsException` for a longer chain.
- `Map.Entry.setValue` of the iterator is not modelled.
- TreeDepq.TreeDoubleEndedPriorityQueue.FindMax: requires a non-empty queue. The Java code dereferences a null root there, and does not throw `UnderflowException`.
- ListDepq.ListDoubleEndedPriorityQueue.FindMin: requires a non-empty queue. The Java code dereferences a null `first`.
- ListDepq.ListDoubleEndedPriorityQueue.FindMax: requires a non-empty queue. The Java code dereferences a null `last`.
- LongestSubstring.CompileFiles: requires a first file with at least one token. For an empty first file the Java `setLength(-1)` throws, and `main` does not catch that exception.
- FtpServer.ParseInt: accepts only the ASCII digits `0`-`9`. Java's `Integer.parseInt` also accepts the other Unicode decimal digits (`Character.digit`), whose set depends on the Java version.
- FtpServer.ServerThread.SetupTransfer: a port written in non-ASCII decimal digits, which the Java code accepts with 200, is modelled as a dead thread, through `FtpServer.ParseInt`.
- Strings are sequences of Unicode scalar values, not of UTF-16 code units. `Lex.Compare` and `LongestSubstring.TheString.CompareTo` therefore order a character outside the Basic Multilingual Plane against one in U+E000-U+FFFF differently from the Java code, which compares UTF-16 `char` values and so sees surrogate code units.
- Generic element types become `int` for the queues. The hash map stays generic over keys and values, and its hash functions are parameters.
