# Verified model of the laboratory algorithms

This Dafny project models the algorithmic core of a set of laboratory
exercises and proves properties of it. The Python parts are:

- a red-black tree multimap (`lab2/test.py`) and an unbalanced binary search
  tree (`lab2/algos/bin_tree.py`). Both send equal keys to the right and
  `search` collects every value stored under a key;
- three sorts: heap sort, selection sort and a three-way quicksort
  (`lab1/sorts`). They sort `Flower` records compared lexicographically
  on name, colour and aroma (`lab1/data/flower.py`);
- a chained hash table with a collision counter (`lab2/algos/hash.py`) and a
  multimap of sets (`lab2/algos/multimap.py`);
- the integer state of a Mersenne Twister and of a linear congruential
  generator (`lab3/main.py`).

The C++ part is an adaptive integer set (`lab4/main.cpp`). It switches
between a 100-slot array, a vector and a list by size.

Every data structure is an immutable Dafny value and every operation is a
function or method returning the new value:

- The red-black tree's parent pointers become a zipper. A focus subtree sits
  on a path of frames, so every branch of `fix_insert` is one case of `Fix`.
- The sorts take the comparison as a parameter and work on sequences.
- Python's `%` with a possibly negative divisor is modelled in `PyArith`.
- A raised exception becomes the `Err` case of a `Result`.

One point on ordering: a left subtree is commonly described as holding keys
strictly smaller than its root. In both trees the code only guarantees that
the in-order key sequence is non-decreasing. A key equal to a node's key goes
right, but a later rotation can bring an equal key into the left subtree, and
the three-insert demo of `lab2/test.py` does exactly that. The model follows
the code: `Entries.KeysSorted` is the invariant, and
`RedBlackTree.DemoSearch` shows the equal key on the left.

## Model

| member | source | states |
|---|---|---|
| Orders.StrLessIsStrictTotal | lab1/data/flower.py:16-22 | Python's `<` on strings is irreflexive, transitive and total, so the string fields compare as a strict total order |
| Flowers.GreaterIsConverse | lab1/data/flower.py:8-22 | `a > b` holds exactly when `b < a` |
| Flowers.Trichotomy | lab1/data/flower.py:16-35 | of `a < b`, `a == b`, `b < a` at least one holds, `<` is asymmetric, and equal flowers are not less than each other |
| Flowers.LessTransitive | lab1/data/flower.py:16-22 | the lexicographic `<` on (name, colour, aroma) is transitive |
| Flowers.AtMostAtLeast | lab1/data/flower.py:24-35 | `a <= b` holds exactly when `b < a` fails, and `a >= b` exactly when `a < b` fails |
| Flowers.RegionsIgnored | lab1/data/flower.py:30-35 | two flowers differing only in `regions` are equal and neither is less than the other |
| Flowers.FlowerOrd | lab1/data/flower.py:8-35 | `<`, `==`, `>` together are a lawful order: `<` is a strict weak order, `==` means neither is less, `>` is the converse of `<` |
| BinTree.Insert | lab2/algos/bin_tree.py:13-29 | the new tree is the old one with exactly one new leaf holding the pair, hung where the descent ends: left at every node whose key the new key is less than by the given `<`, right at every other node; size grows by one |
| BinTree.InsertAddsOneEntry | lab2/algos/bin_tree.py:13-29 | the in-order entries gain exactly the inserted pair |
| BinTree.InsertIsSortedInsertion | lab2/algos/bin_tree.py:19-29 | on a tree with non-decreasing in-order keys, insert places the pair after every entry with a key not greater than it; the keys stay non-decreasing |
| BinTree.Search | lab2/algos/bin_tree.py:34-46 | every value returned is stored under the key, even in a tree that is not ordered |
| BinTree.SearchFindsAll | lab2/algos/bin_tree.py:31-46 | on an ordered tree, search returns every value stored under the key, counted with repetition |
| BinTree.SearchAfterInsert | lab2/algos/bin_tree.py:13-46 | after inserting (k, d), a search for q returns the old values plus d exactly when q == k |
| BinTree.SearchAfterInserts | lab2/algos/bin_tree.py:13-46 | after inserting a list of pairs, a search returns the old values plus exactly the values inserted under that key |
| RedBlackTree.RotateLeft | lab2/test.py:78-92 | keeps the in-order sequence; the right child y becomes the subtree root and x its left child, keeping their colours; x keeps its left subtree, y keeps its right subtree, and y's old left subtree becomes x's right subtree |
| RedBlackTree.RotateRight | lab2/test.py:94-108 | keeps the in-order sequence; the left child y becomes the subtree root and x its right child, keeping their colours; x keeps its right subtree, y keeps its left subtree, and y's old right subtree becomes x's left subtree |
| RedBlackTree.RotationsAreInverse | lab2/test.py:78-108 | a right rotation undoes a left rotation |
| RedBlackTree.GraftIsPlainInsert | lab2/test.py:18-42 | the descent and attachment of a new red node is the binary-search-tree insert of the colour-erased tree |
| RedBlackTree.Fix | lab2/test.py:46-76 | the fixed-up tree is a node with a black root |
| RedBlackTree.FixKeepsInOrder | lab2/test.py:46-76 | recolouring and rotating leave the in-order entries of the whole tree unchanged |
| RedBlackTree.FixKeepsRedBlack | lab2/test.py:46-76 | starting from a red node whose only possible violation is a red parent, fix-up ends with a red-black tree: black root, no red node with a red child, equal black height on every path |
| RedBlackTree.Insert | lab2/test.py:18-76 | after every insert the root is black |
| RedBlackTree.InsertIsPlainInsertInOrder | lab2/test.py:18-76 | the in-order entries after insert are those of the plain binary-search-tree insert |
| RedBlackTree.InsertAddsOneEntry | lab2/test.py:18-76 | insert adds exactly the one pair to the entries |
| RedBlackTree.InsertIsSortedInsertion | lab2/test.py:18-76 | insert keeps the in-order keys non-decreasing and places the pair after all entries with a key not greater than it |
| RedBlackTree.InsertKeepsRedBlack | lab2/test.py:18-76 | insert into a red-black tree gives a red-black tree |
| RedBlackTree.SizeFromBlackHeight | lab2/test.py:46-76 | a tree with equal black height on every path has at least `2^bh - 1` nodes |
| RedBlackTree.HeightFromBlackHeight | lab2/test.py:46-76 | with no red node under a red node, the height is at most twice the black height, plus one for a red root |
| RedBlackTree.HeightIsLogarithmic | lab2/test.py:46-76 | a red-black tree of `n` nodes has height at most `2 log2(n + 1)`, stated as `2^height <= (n + 1)^2` |
| RedBlackTree.InsertsKeepRedBlack | lab2/test.py:18-76 | any run of `n` inserts into a red-black tree of `m` nodes leaves a red-black tree of `m + n` nodes |
| RedBlackTree.InsertsKeepHeightLogarithmic | lab2/test.py:18-76 | any run of `n` inserts into an empty tree leaves `n` nodes and height at most `2 log2(n + 1)`, stated as `2^height <= (n + 1)^2` (from a red-black tree of `m` nodes, `m + n` nodes and `2^height <= (m + n + 1)^2`) |
| RedBlackTree.Search | lab2/test.py:110-125 | search returns what the binary-search-tree search returns on the colour-erased tree |
| RedBlackTree.SearchFindsAll | lab2/test.py:110-125 | on an ordered tree, search returns every value stored under the key, counted with repetition |
| RedBlackTree.SearchAfterInsert | lab2/test.py:18-125 | after inserting (k, d), a search for q returns the old values plus d exactly when q == k |
| RedBlackTree.SearchAfterInserts | lab2/test.py:18-125 | after a list of inserts, a search returns the old values plus exactly the values inserted under that key |
| RedBlackTree.DemoTree | lab2/test.py:129-136 | the tree built from apple/1, banana/2, apple/3 is a red-black tree |
| RedBlackTree.DemoSearch | lab2/test.py:129-140 | `search("apple")` on the demo tree returns the apple/3 record, then the apple/1 record; the root key is "apple" and so is its left child's key |
| Quick.Part | lab1/sorts/quicksort.py:15-17 | each partition holds only elements on its side of the pivot and no element more often than the input does |
| Quick.PartitionKeepsAll | lab1/sorts/quicksort.py:14-17 | the three partitions together hold exactly the input elements |
| Quick.PivotInMiddle | lab1/sorts/quicksort.py:14-16 | the pivot lands in the middle partition, so both recursive calls get shorter lists |
| Quick.QuickSort | lab1/sorts/quicksort.py:1-19 | the result is a sorted permutation of the input |
| Heap.Heapify | lab1/sorts/heap.py:16-37 | heapify changes only positions `i..n-1` that lie in the subtree of `i`, keeps the first `n` elements as a multiset, and makes the subtree at the start a heap when only `i` was out of place |
| Heap.BuildHeap | lab1/sorts/heap.py:47-50 | the first loop of heap sort yields a max-heap with the same elements |
| Heap.ExtractStep | lab1/sorts/heap.py:52-54 | swapping the root to position k and re-heapifying the prefix keeps the tail from k on sorted and no smaller than the prefix |
| Heap.HeapSort | lab1/sorts/heap.py:40-54 | the result is a sorted permutation of the input |
| Selection.MinIndex | lab1/sorts/selection.py:21-24 | the inner loop finds the first position of a minimum of the suffix |
| Selection.SelectionSort | lab1/sorts/selection.py:18-31 | the result is a sorted permutation of the input |
| SortExamples.HeapSortExample | lab1/sorts/heap.py:9-12 | heap sort of `[4, 10, 3, 5, 1]` is `[1, 3, 4, 5, 10]` |
| SortExamples.SelectionSortExample | lab1/sorts/selection.py:13-14 | selection sort of `[4, 2, 6, 1, 5]` is `[1, 2, 4, 5, 6]` |
| SortExamples.SortsAgree | lab1/sorts/quicksort.py:1-19 | on integers, heap sort, selection sort and quicksort return the same sorted permutation |
| PyArith.Mod | lab2/algos/hash.py:10-11 | Python's `%`: the remainder has the divisor's sign, is smaller in magnitude, and completes the floor-division identity |
| PyArith.ModUnique | lab2/algos/hash.py:10-11 | the remainder is the only value in range that differs from x by a multiple of m |
| HashTable.Create | lab2/algos/hash.py:6-8 | a new table keeps its size and has `max(size, 0)` empty buckets |
| HashTable.HashIndex | lab2/algos/hash.py:10-11 | size 0 raises `ZeroDivisionError`; a positive size gives an index in `[0, size)`, a negative one an index in `(size, 0]` |
| HashTable.ListIndex | lab2/algos/hash.py:13-15 | Python list indexing accepts exactly `-n <= i < n`, counting negative indices from the end |
| HashTable.Slot | lab2/algos/hash.py:13-15 | on a well-formed table a bucket is found exactly when the size is positive, and it is `hash(key) % size` |
| HashTable.Insert | lab2/algos/hash.py:13-15 | insert fails exactly when the index fails, keeps the size, and changes only the key's bucket |
| HashTable.InsertAddsOneEntry | lab2/algos/hash.py:13-15 | a successful insert adds exactly the one pair to the table's contents |
| HashTable.FirstValue | lab2/algos/hash.py:19-22 | the scan gives `None` exactly when no pair in the bucket has the key, and otherwise the value of the earliest pair with the key |
| HashTable.Search | lab2/algos/hash.py:17-22 | search fails exactly when the index fails, with the index's error; otherwise it returns `None` when no pair in the key's bucket has the key, and else the value of the earliest such pair |
| HashTable.FirstValueIsUnique | lab2/algos/hash.py:19-22 | the earliest-pair description admits one result only, so it determines what `search` returns |
| HashTable.SearchAfterInsert | lab2/algos/hash.py:13-22 | after inserting (k, v), search for k gives v if k was absent, and every other search is unchanged |
| HashTable.SearchAfterInserts | lab2/algos/hash.py:13-22 | after inserting a list of pairs, a search returns the first value listed under the key if it was absent before, and is unchanged otherwise |
| HashTable.SearchFresh | lab2/algos/hash.py:6-22 | on a new table of positive size, search returns the first value inserted under the key, or `None` |
| HashTable.BadSizes | lab2/algos/hash.py:6-18 | with size 0 both insert and search raise `ZeroDivisionError`; with a negative size both raise `IndexError` |
| HashTable.CountCollisions | lab2/algos/hash.py:35-40 | the count is the number of pairs minus the number of non-empty buckets, lies between 0 and the number of pairs, and is 0 exactly when no bucket holds two pairs |
| HashTable.CountCollisionsAfter | lab2/algos/hash.py:27-40 | after `size` inserts the count is the number of pairs minus the number of distinct bucket indices they hash to, and 0 for a non-positive size |
| MultiMap.Empty | lab2/algos/multimap.py:5-6 | every key of a new multimap has the empty set |
| MultiMap.Insert | lab2/algos/multimap.py:8-9 | the key's set gains the value, the key becomes present, and every other key keeps its set |
| MultiMap.Search | lab2/algos/multimap.py:11-12 | search returns the key's set (empty for a new key), adds the key, and changes no key's values |
| MultiMap.InsertAddsPair | lab2/algos/multimap.py:8-12 | insert adds exactly the one (key, value) pair, and search adds none |
| MultiMap.InsertIdempotentCommutes | lab2/algos/multimap.py:8-9 | inserting a pair twice is inserting it once, and two inserts commute |
| MultiMap.SearchAfterInserts | lab2/algos/multimap.py:8-12 | after a list of inserts, search returns the old set plus exactly the values inserted under the key |
| AdaptiveSet.Contains | lab4/main.cpp:39-46 | `contains` holds exactly when the value is an element |
| AdaptiveSet.Get | lab4/main.cpp:52-57 | `get(i)` returns the i-th element when `i < size` and raises `out_of_range` otherwise |
| AdaptiveSet.ImplAddSpec | lab4/main.cpp:24-28 | add keeps an implementation free of duplicates and an array within 100 slots; it adds the value unless the array is full, where it changes nothing; size grows by one exactly when the value is new |
| AdaptiveSet.MoveLastSpec | lab4/main.cpp:30-37 | moving the last element into the freed slot removes exactly that element, keeps the rest without duplicates, and shrinks the size by one |
| AdaptiveSet.EraseSpec | lab4/main.cpp:75-80 | erasing at a position removes exactly that element and keeps the rest without duplicates |
| AdaptiveSet.RemoveAll | lab4/main.cpp:113-115 | the list's `remove` keeps exactly the other elements and leaves a list without the value unchanged |
| AdaptiveSet.EraseIsRemoveAll | lab4/main.cpp:75-115 | without duplicates, the vector's erase of the first match equals the list's removal of all matches, so both keep the order of the rest |
| AdaptiveSet.ImplRemoveSpec | lab4/main.cpp:30-115 | remove keeps every implementation valid, removes exactly the value, and shrinks the size by one exactly when the value was there |
| AdaptiveSet.TransferAppends | lab4/main.cpp:155-157 | copying distinct elements into a vector or list appends them all, in order |
| AdaptiveSet.TransferFills | lab4/main.cpp:155-157 | copying distinct elements into an array keeps as many as there are free slots and drops the rest |
| AdaptiveSet.SwitchKeeps | lab4/main.cpp:142-161 | `switchImpl` yields a valid implementation of the picked kind holding the same elements in order, except that an array keeps only the first 100 |
| AdaptiveSet.RemoveFromEmpty | lab4/main.cpp:142-152 | removing from an empty set wraps `0 + (size_t)-1` and leaves an empty list |
| AdaptiveSet.NewSet | lab4/main.cpp:164 | a new set is a valid, empty implementation |
| AdaptiveSet.AddSpec | lab4/main.cpp:170-173 | `Set::add` keeps the set valid and adds the value, except on a full array, where the value is lost |
| AdaptiveSet.RemoveSpec | lab4/main.cpp:175-178 | `Set::remove` keeps the set valid and the value is gone afterwards; it removes exactly the value unless 101 elements remain, when the set becomes an array of the first 100 |
| AdaptiveSet.AddRangeShape | lab4/main.cpp:170-173 | adding `0..n-1` to a new set keeps all of them: an array below 100 elements, a vector from 100 up to 999 |
| AdaptiveSet.AddRangeReachesLoss | lab4/main.cpp:170-173 | adding `0..100` to a new set gives 101 distinct elements without 500 |
| AdaptiveSet.RemoveLosesElement | lab4/main.cpp:175-178 | as written: removing an absent value from a 101-element set loses its 101st element |
| AdaptiveSet.AddAfterRemoveIsLost | lab4/main.cpp:170-178 | as written: after that removal the set is a full array, and adding a new value does not add it |
| AdaptiveSet.NewSetGood | lab4/main.cpp:164 | a new set satisfies the corrected invariant: valid, and an array only while a slot is free |
| AdaptiveSet.AddGood | lab4/main.cpp:170-173 | under the corrected invariant, `add` adds exactly the value, grows the size by one exactly when the value was new, and keeps the invariant |
| AdaptiveSet.FixedRemoveGood | lab4/main.cpp:175-178 | the corrected `remove` removes exactly the value, shrinks the size by one exactly when the value was there, and keeps the invariant |
| AdaptiveSet.FixedRemoveKeepsElement | lab4/main.cpp:175-178 | where the original loses an element, the corrected `remove` keeps all 101 |
| AdaptiveSet.RunMatchesReference | lab4/main.cpp:170-182 | with the corrected `remove`, any run of adds and removes holds exactly the elements of the mathematical set built by the same run |
| MersenneTwister.XorShift30 | lab3/main.py:23 | `x ^ (x >> 30)` on a word stays a word and changes only its two low bits |
| MersenneTwister.SeedWords | lab3/main.py:19-24 | the seeded words are all below 2^32; the first is the seed modulo 2^32 and each later one follows from the one before by the seeding recurrence |
| MersenneTwister.SeedMt | lab3/main.py:19-24 | `seed_mt` fills 624 words below 2^32, starting with the seed masked to 32 bits |
| MersenneTwister.SeedMtDependsOnLowBits | lab3/main.py:19-24 | two seeds give the same state exactly when they agree modulo 2^32 |
| MersenneTwister.Twist | lab3/main.py:40-48 | `twist` rewrites the 624 words in place: each new word mixes the old word, its neighbour and the word 397 on, reading words already rewritten where the indices wrap round |
| MersenneTwister.TwistedFromIsUnique | lab3/main.py:40-48 | the in-place recurrence determines the twisted words completely |
| MersenneTwister.Init | lab3/main.py:9-17 | the constructor leaves `mti` at 625, above N, so the first `random()` twists |
| MersenneTwister.Random | lab3/main.py:26-36 | `random()` twists exactly when `mti >= 624` on entry, leaves `1 <= mti <= 624`, and returns the tempered word just consumed |
| Lcg.New | lab3/main.py:53-58 | the constructor stores the parameters and takes the seed as the state without reducing it |
| Lcg.Default | lab3/main.py:53-58 | the default generator starts at state 1 with modulus 2^32 |
| Lcg.Step | lab3/main.py:60-61 | a zero modulus raises `ZeroDivisionError`; otherwise the new state differs from `a*state + c` by a multiple of m, lies in `[0, m)` for positive m and in `(m, 0]` for negative m, and the parameters stay |
| Lcg.StepsInRange | lab3/main.py:60-61 | with a positive modulus every call succeeds and every state from the first call on lies in `[0, m)` |
| Lcg.SeedOnlyMattersModM | lab3/main.py:53-61 | the unreduced seed and the seed reduced modulo m give the same next state |
| Lcg.DefaultStatesAreWords | lab3/main.py:53-61 | the default generator's states are 32-bit words from the first call on |

## Left out

- Drivers, timing, plotting, printing, file output and CSV input
  (`lab1/main.py`, `lab2/main.py`, the benchmark and report functions of
  `lab3/main.py`, `main` of `lab4/main.cpp`, the data generators). They do
  I/O and measure time.
- `lab2/algos/red_black_tree.py` is not part of this model. The red-black
  tree modelled is the one in `lab2/test.py`.
- Deletion from either tree. The source has none.
- Python's built-in `hash()` becomes a parameter `hash: K -> int`. The random
  key and value choices inside `count_collisions` become the parameter list
  of pairs `xs`.
- The floating-point step of both generators (`y / 0xFFFFFFFF`,
  `state / m`), `generate_samples`, the statistics, the chi-square test and
  the NIST battery. These are floats and foreign libraries; the model keeps
  the integer state and output words.
- The `name()` methods of `lab4/main.cpp`, and C++ allocation and `delete`
  in `switchImpl`. Swapping implementations is modelled as replacing a value.
- Heap.Heapify, Heap.HeapSort, Selection.MinIndex and Selection.SelectionSort
  require the comparison to be a strict weak order. The Python code runs with
  any `<`, but what it computes is only meaningful for such an order. Both
  element types used (integers and `Flower`) satisfy it:
  `Orders.IntOrd` and `Flowers.FlowerOrd` prove it.
- Quick.QuickSort requires the three operators to be lawful (`Orders.Lawful`)
  for the same reason.
- RedBlackTree.Insert requires the tree's root to be black, which every tree
  the class builds satisfies. The Python code would dereference `None` if a
  red root ever had a red child.
- AdaptiveSet.AddSpec and AdaptiveSet.RemoveSpec require the set's size plus
  two to be below 2^64 (`Addressable`). No set held in memory comes near it,
  and above it the `size_t` sum in `switchImpl` would wrap.
- BinTree.Insert and BinTree.Search never fail. The Python `_insert` and
  `_search` recurse once per tree level, so a deep enough tree raises
  `RecursionError` (the driver raises the limit and catches it). The model
  has no stack limit.
- MultiMap.Search returns the key's values as a value. Python returns the
  stored set object itself, so a later `insert` under that key also shows
  up in a set returned earlier. Dafny values are immutable, so this
  aliasing is not modelled.
- MersenneTwister.Random returns the tempered word. The model does not state
  that tempering is invertible: that proof needs bit-vector reasoning beyond
  the solver budget.
- MersenneTwister words are `bv32` in the twist and tempering. This is exact
  because every stored word is below 2^32, which `SeedWords` proves for the
  seeding.

## Findings

| source | as written | input that shows it | evidently intended | confidence | as-written member | corrected member |
|---|---|---|---|---|---|---|
| lab4/main.cpp:175-178 | `Set::remove` calls `switchImpl(-1)` after the removal, so a set left with 101 elements is copied into a 100-slot `ArraySet` and its 101st element is dropped | add 0..100 to a new set, then remove 500: element 100 is gone | choose the implementation as `add` does (`switchImpl(1)`), so that an array is picked only while it keeps a free slot | not executed | AdaptiveSet.RemoveLosesElement | AdaptiveSet.FixedRemoveGood |
| lab4/main.cpp:24-28 | the 100-element `ArraySet` left by that removal ignores `add` of a new value, and the following switch to a vector does not bring it back | add 0..100, remove 500, then add 500: 500 is not in the set | every add of a new value adds it | not executed | AdaptiveSet.AddAfterRemoveIsLost | AdaptiveSet.AddGood |
