# Skiplist, modelled in Dafny

This project models the core of a header-only C++ skiplist container. The
container is an ordered map, or multimap, whose elements sit in a stack of
linked lists ("levels"). The core covered here is:

- level bookkeeping: the size thresholds `countMin` and `countMax`, and
  adding or removing the top level;
- the descent searches: `find`, `at`, `contains`, `lower_bound`,
  `upper_bound`, `equal_range` and `count`;
- the top-down insert, with its rejection of duplicate keys in a map;
- the hinted inserts: the bottom-up insert and `insertAbove`;
- erase by key, by position and by range, with `eraseAbove`;
- `balance()` and the balanced copy constructor, which give every element
  its canonical height;
- the balancing iterator, which fixes one column per step and marks the
  container balanced after a full sweep;
- `operator==` and `operator!=`;
- the debug helpers `Validate` and `CountNodes`.

The pointer graph is abstracted as follows. Every upper level of the source's
node graph is an ordered subsequence of the level below it, and an upper node
always shares its payload with the node under it. A container is therefore
described completely by:

- the level-0 sequence of elements, `cols`;
- the height of each element's column;
- the level count (the height of the sentinel column);
- the `m_balanced` flag;
- whether duplicate keys are allowed.

Level `l` holds exactly the columns taller than `l`. `NextAt` and `PrevAt`
recover the links of any level. Keys and values are integers, and the key
order is `<`.

Modules, in dependency order:

| file | module | contents |
|---|---|---|
| levels.dfy | Levels | thresholds, `2^k`, bit length, the ruler function behind `calcBalancedLevel`, the level choice |
| skiplist.dfy | Skiplists | the state, the validator's invariant, derived links, addLevel/removeLevel, node count |
| search.dfy | Search | the exact and the comparator-driven descents and everything built on them |
| insert.dfy | Insertion | top-down, bottom-up and hinted inserts |
| erase.dfy | Erase | erase by key, position and range; level shrinking; round trips with insert |
| iterator.dfy | Iterators | the balancing iterator's state and its constructors |
| balance.dfy | Balance | balanceWorker, copy constructor, the balancing iterator's steps, node count of a balanced list |
| debug.dfy | Debug | the node-counting walk and `operator==` |

Inputs the source obtains from outside:

- **The random number generator.** It becomes a parameter `draw`:
  `chooseLevel` yields `min(draw + 1, levelCount)`. Its special case for a
  zero random number (return the level count) is covered by a large draw.
- **Floating point.** `pow(2, k)` and `log2(n)` become the exact integer
  functions `Pow2` and `BitLength`.

Where the library's written description and its code disagree, the model
follows the code:

- **Multimap hinted insert.** When the hint is wrong, the code falls back
  according to which side is wrong:
  - the hint element is smaller than the key: the lower bound of the key's
    equal range;
  - the predecessor is greater than the key: the upper bound.

  The description states the two fallbacks the other way round.
- **Iterator without a known index.** An iterator built by the index-less
  constructor at a middle element never balances. The description suggests
  it resumes balancing later.

## Model

| member | source | states |
|---|---|---|
| Levels.SettledIffBitLength | skiplist/Skiplist.hpp:877-882 | a count lies between countMin and countMax of exactly one level count, floor(log2 n) + 1 (0 for an empty list) |
| Levels.CalcBalancedLevel | skiplist/Skiplist.hpp:2338-2353 | the halving loop returns the level count for index 0 and 1 + the number of trailing zero bits otherwise |
| Levels.RulerIsTrailingZeros | skiplist/Skiplist.hpp:2338-2353 | 2^(Ruler(i)-1) divides i and 2^Ruler(i) does not, so the balanced level of i is one more than its trailing zeros |
| Levels.RulerBound | skiplist/Skiplist.hpp:2338-2353 | every index up to countMax gets a balanced level within the level count |
| Levels.ChooseLevel | skiplist/Skiplist.hpp:889-906 | the drawn level never exceeds the level count and is at least 1 once there is a level |
| Skiplists.Empty | skiplist/Skiplist.hpp:419-421 | a default-constructed list has no contents, is flagged balanced, and already satisfies the validator's invariant |
| Skiplists.Validate | skiplist/SkiplistDebug.hpp:181-355 | the validator accepts exactly the lists with a head iff elements, sorted level 0 (strictly for unique keys), heights in 1..levelCount, and canonical heights when flagged balanced |
| Skiplists.LinksConsistent | skiplist/SkiplistDebug.hpp:300-325 | on every level, Prev of Next is the node itself and Next of Prev is the node itself, and Next never decreases the key |
| Skiplists.AddLevel | skiplist/Skiplist.hpp:917-928 | the level count grows by one, columns are untouched, a valid nonempty list stays valid, and the new countMin is one more than the old countMax |
| Skiplists.RemoveLevel | skiplist/Skiplist.hpp:939-959 | with the count below countMin, the top level goes: every column is clipped to the lower top, contents are kept, validity is kept, and the count now fits under countMax |
| Skiplists.CountNodesClosedForm | skiplist/SkiplistDebug.hpp:56-75 | the level-by-level node count equals the level count plus the sum of the column heights |
| Search.Descend | skiplist/Skiplist.hpp:1877-1891 | the comparator descent from the top sentinel ends at the first element that stops it (the end if none) |
| Search.LowerBound | skiplist/Skiplist.hpp:1988-1994 | every element before the result has a smaller key and the element at it has a key not less than x |
| Search.UpperBound | skiplist/Skiplist.hpp:2016-2020 | every element before the result has a key at most x and the element at it has a greater key |
| Search.EqualRange | skiplist/Skiplist.hpp:2041-2045 | an element lies between the two bounds iff its key is x |
| Search.FindFrom | skiplist/Skiplist.hpp:1832-1843 | the exact descent reports an element with key x, or nothing exactly when no element has key x |
| Search.Find | skiplist/Skiplist.hpp:1777-1786 | find returns an element with key x, and returns end iff no element has key x |
| Search.Contains | skiplist/Skiplist.hpp:1955-1958 | contains holds iff some element has key x |
| Search.At | skiplist/Skiplist.hpp:1927-1933 | at returns the value of an element with key x, and throws out_of_range iff there is none |
| Search.EqualRangeCount | skiplist/Skiplist.hpp:1967-1979 | the distance between the two bounds is the number of elements with key x |
| Search.Count | skiplist/Skiplist.hpp:1967-1979 | walking right from the lower bound while the key is x counts exactly the elements with key x |
| Insertion.UpperStopBlocked | skiplist/Skiplist.hpp:1456-1505 | with unique keys, the element before the insertion point has key x iff x is already present |
| Insertion.InsertTopDown | skiplist/Skiplist.hpp:1375-1430 | the insert succeeds iff duplicates are allowed or the key is new; a rejection leaves the list as it was and points at the blocking element; a success places the column at the first stopping position, clears the balanced flag, adds a level exactly when the count passes countMax (forcing the new column to the top), and keeps the list at rest |
| Insertion.Reject | skiplist/Skiplist.hpp:1424-1429 | on the blocked path, the level added up front is removed again and the list is back as it was |
| Insertion.LinkAt | skiplist/Skiplist.hpp:1395-1420 | linking a well-placed column keeps the list sorted and at rest, with the grown level count |
| Insertion.TopDownLinks | skiplist/Skiplist.hpp:1456-1505 | on every level the new column reaches, its Prev is the node the descent stood on and its Next is that node's old Next |
| Insertion.HeadAt | skiplist/Skiplist.hpp:1456-1505 | the node the descent stands on at a level is on that level, is not past the key, and its Next stops the descent |
| Insertion.InsertIntoEmpty | skiplist/Skiplist.hpp:1375-1430 | inserting into an empty list succeeds at position 0, adds the first level, and gives the element height 1 |
| Insertion.Insert | skiplist/Skiplist.hpp:987-992 | insert(value) places the element at the upper bound of its key, after every equal key; the contents become the old contents with the entry spliced in; a map rejects a present key and changes nothing |
| Insertion.InsertKeepsInsertionOrder | skiplist/Skiplist.hpp:987-992 | of two equal keys inserted in turn into a multimap, the later lands after the earlier, which stays in place |
| Insertion.WalkLeft | skiplist/Skiplist.hpp:2468-2510 | walking left along a level stops at the first node with an Up link, and finds none only on the top level |
| Insertion.InsertAbove | skiplist/Skiplist.hpp:2468-2510 | the column grows by the requested depth or up to the top level, and no other column changes |
| Insertion.InsertBottomUp | skiplist/Skiplist.hpp:1670-1709 | the new column goes right after the given predecessor, with the drawn level (or the new top when a level is added), and the list stays at rest |
| Insertion.RaiseNew | skiplist/Skiplist.hpp:1670-1709 | raising the freshly linked column with insertAbove gives exactly the column of the requested height spliced in |
| Insertion.InsertWithHintMap | skiplist/Skiplist.hpp:1561-1606 | a correct hint inserts right at the hint; a key equal to a neighbour of the hint is rejected at that neighbour |
| Insertion.HintedMapMatchesInsert | skiplist/Skiplist.hpp:1561-1606 | for unique keys the hinted insert gives exactly the list and position of the plain insert, whatever the hint |
| Insertion.InsertWithHintMultimap | skiplist/Skiplist.hpp:1624-1657 | a multimap hinted insert always succeeds: at the lower bound when the hint element is smaller, at the upper bound when the predecessor is greater, and at the hint otherwise |
| Erase.ShrinkLevels | skiplist/Skiplist.hpp:2091-2093 | removing levels while the count is below countMin settles the level count at floor(log2 n) + 1, only clipping heights |
| Erase.EqualRun | skiplist/Skiplist.hpp:2107-2169 | the scans left and right from the found element cover exactly the elements with key x |
| Erase.EraseKey | skiplist/Skiplist.hpp:2066-2096 | erase(key) returns the number of elements with key x, leaves exactly the others in order, changes nothing when there are none, and keeps the list at rest |
| Erase.EraseAbove | skiplist/Skiplist.hpp:2517-2533 | the column is cut down to the given level and no other column changes |
| Erase.EraseAboveLinks | skiplist/Skiplist.hpp:2517-2533 | on every level the column leaves, its former Prev now links to its former Next |
| Erase.ErasePos | skiplist/Skiplist.hpp:2179-2223 | erasing the end changes nothing and returns end(); otherwise exactly that element goes, at most one level is removed to keep the list at rest, and the returned iterator is a correct one at the successor's new position (corrected: see Findings) |
| Erase.ErasePosAsWritten | skiplist/Skiplist.hpp:2189-2190 | the list is the same as ErasePos gives; after erasing the last element the iterator is a balancing end iterator whose index is one past the new size; after erasing any other element it never balances and has index 0 |
| Erase.EraseRange | skiplist/Skiplist.hpp:2234-2250 | the elements in [first, last) go, the rest keep their order, and the result is the iterator the index-less constructor builds at last's new position |
| Erase.ErasePosUndoesInsert | skiplist/Skiplist.hpp:2179-2223 | erasing the element an insert just placed restores the contents |
| Erase.EraseKeyUndoesInsert | skiplist/Skiplist.hpp:2066-2096 | in a map, erasing a key just inserted removes one element and restores the contents |
| Balance.BalanceWorker | skiplist/Skiplist.hpp:2379-2456 | balancing keeps the contents and the level count, sets every column to its canonical height, and does nothing to a list already flagged balanced |
| Balance.BalancedShapeUnique | skiplist/Skiplist.hpp:2379-2456 | two balanced lists at rest with the same contents are identical, levels and heights included |
| Balance.BalanceIdempotent | skiplist/Skiplist.hpp:2359-2363 | balancing twice is the same as balancing once |
| Balance.CopyConstruct | skiplist/Skiplist.hpp:444-540 | the copy has the same contents, floor(log2 n) + 1 levels and canonical heights, and equals the balanced form of the original |
| Iterators.CursorOkSteppable | skiplist/Skiplist.hpp:3073-3104 | an iterator whose index is correct can be stepped: its index is never below its position |
| Iterators.Begin | skiplist/Skiplist.hpp:671-676 | begin() starts at the first element with index 0 and balances unless the container is balanced; an empty container gives end() |
| Iterators.EndOf | skiplist/Skiplist.hpp:705-708 | end() stands past the last element with index size() and balances unless the container is balanced |
| Iterators.CursorAt | skiplist/Skiplist.hpp:2940-2966 | the index-less constructor gives a correct iterator, which balances only at the first element or at the end |
| Balance.BalanceAt | skiplist/Skiplist.hpp:3073-3104 | the iterator's balance() sets the current column to calcBalancedLevel(index + 1), capped at the level count, and touches nothing else |
| Balance.BalanceAtIndex | skiplist/Skiplist.hpp:3073-3104 | with the correct index the column gets its canonical height and the list stays valid |
| Balance.FixHeight | skiplist/Skiplist.hpp:3073-3104 | cutting with eraseAbove or growing with insertAbove reaches the desired height, or the top level if lower, and keeps the keys |
| Balance.Increment | skiplist/Skiplist.hpp:3112-3126 | ++ balances the current column by the iterator's own index, keeps the contents, changes nothing when not balancing, and flags the container balanced iff it was or a sweep from the beginning reaches the end |
| Balance.IncrementOk | skiplist/Skiplist.hpp:3112-3126 | ++ keeps a correct iterator correct, so the flag is set only on a canonical list |
| Balance.Decrement | skiplist/Skiplist.hpp:3149-3186 | -- steps left and then balances the new column by its decremented index, keeps the contents, changes nothing when not balancing, and flags the container balanced iff it was or a sweep from the end reaches the first element |
| Balance.DecrementOk | skiplist/Skiplist.hpp:3149-3186 | -- keeps a correct iterator correct |
| Balance.ForwardSweepBalances | skiplist/Skiplist.hpp:3112-3126 | iterating from begin() to end() leaves the container exactly as balance() would |
| Balance.BackwardSweepBalances | skiplist/Skiplist.hpp:3149-3186 | iterating from end() down to the first element leaves the container exactly as balance() would |
| Balance.StaleEraseIteratorMisbalances | skiplist/Skiplist.hpp:2189-2190 | five balanced elements, the last erased, then four decrements from the returned iterator: the list is flagged balanced but fails the validator |
| Balance.EraseLastThenSweepBalances | skiplist/Skiplist.hpp:2179-2223 | with the corrected erase, the iterator returned after erasing the last element is end(), and a backward sweep from it balances the list |
| Balance.ErasedFirstAsWrittenNeverBalances | skiplist/Skiplist.hpp:2950-2961 | as written, a forward sweep from the iterator erase returns after erasing the first element changes nothing and never sets the flag |
| Balance.EraseFirstThenSweepBalances | skiplist/Skiplist.hpp:2179-2223 | with the corrected erase, the iterator returned after erasing the first element is begin(), and a forward sweep from it balances the list |
| Balance.BalancedCountNodes | skiplist/SkiplistDebug.hpp:56-75 | a balanced list of n elements has floor(log2 n) + 1 sentinels plus Ruler(k) nodes for the k-th element |
| Balance.BalancedCountNodesPow2 | tests/UnitMain.cpp:453 | a balanced list of 2^k elements has 2 * 2^k + k nodes |
| Balance.BalancedSixNodes | tests/UnitMain.cpp:414 | a balanced list of six elements has 13 nodes |
| Debug.WalkLevel | skiplist/SkiplistDebug.hpp:65-72 | walking one level from its sentinel through Next counts the sentinel plus every column present on it |
| Debug.CountNodesWalk | skiplist/SkiplistDebug.hpp:56-75 | the walk over all levels counts the level count plus the sum of the column heights |
| Debug.Equal | skiplist/Skiplist.hpp:2612-2631 | operator== holds iff both lists hold the same keys and values in the same order, whatever their structure |
| Debug.NotEqual | skiplist/Skiplist.hpp:2642-2645 | operator!= holds iff the contents differ |

## Left out

- Random source: the generator and its seeding are replaced by the `draw` parameter of the inserts.
- Floating point: `pow` and `log` in updateMinMax and the copy constructor are replaced by exact integers. For realistic sizes the two agree.
- Memory: allocation, deallocation, the allocator lambdas and exception safety are not modelled. Move construction, move assignment and swap only exchange pointers and are left out.
- Pointer-level checks of Validate (Up and Down consistency, the visited set, the breadth-first traversal) are not modelled: they hold by construction in the column abstraction.
- Generic key and value types: keys and values are integers and the comparator is `<`. Custom comparators are left out.
- emplace, try_emplace, operator[], range insert and initializer-list insert are left out. They are thin wrappers over the modelled top-down and hinted inserts.
- pop_front, pop_back, front and back are left out. pop_front erases begin(); pop_back erases an iterator built by the index-less constructor at the tail node; front and back are plain reads.
- for_each, for_each_no_balance: only their balancing part (balanceWorker) is modelled. Applying the user's functor is foreign code.
- Non-balancing iterators, reverse iterators and iterator comparison are left out: they only move along level 0, which the model indexes directly.
- SkiplistPair and the lexicographic comparisons (<, <=, >, >=) are left out.
- Debug printing and the depth statistics of SkiplistDebug are left out.
- The debug asserts against iterators of a foreign container are left out: a position here is an index into the container itself.
- insertAbove: the branch where the walk starts on the lower node itself and that node has an Up link is not reachable from its callers (the bottom-up insert and balance() always pass the column's top node), and it is not modelled.
- Iterators.CursorAt: an iterator with an unknown start keeps the default index 0, as in the source, and it never balances.
- Erase.ErasePos: the source's assertion for erasing end() becomes "nothing changes, end is returned", which is what a release build does.

## Findings

| source | as written | input that shows it | evidently intended | confidence | as-written member | corrected member |
|---|---|---|---|---|---|---|
| skiplist/Skiplist.hpp:2190 | erase(pos) builds the returned iterator before `--m_count` (line 2207). When the last element is erased the successor is null, so the index-less constructor (2945-2949) gives a balancing end iterator whose index is the old size, one past the new one. Every decrement from it then gives a column its successor's canonical height, and reaching the first element still sets `m_balanced`. | a balanced list of 5 elements (heights 1, 2, 1, 3, 1); erase the last; decrement four times from the returned iterator: heights become 2, 1, 3, 1 instead of 1, 2, 1, 3, with the balanced flag set | the returned iterator equals end() of the shortened list, so that a backward sweep from it balances the list | high, not executed | Erase.ErasePosAsWritten, Balance.StaleEraseIteratorMisbalances | Erase.ErasePos, Balance.EraseLastThenSweepBalances |
| skiplist/Skiplist.hpp:2190 | the iterator is built while the erased element is still linked. When the first element is erased, the successor's Prev is that element, not the sentinel, so the constructor (2956-2961) gives an iterator with an unknown start that never balances. | any list of 2 or more elements; erase the first; increment from the returned iterator to the end: nothing is balanced and the flag stays clear | the returned iterator equals begin() of the shortened list, so that a forward sweep from it balances the list | low (only a lost chance to balance), not executed | Erase.ErasePosAsWritten, Balance.ErasedFirstAsWrittenNeverBalances | Erase.ErasePos, Balance.EraseFirstThenSweepBalances |
