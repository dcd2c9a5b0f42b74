# VariousExtensions core, modelled in Dafny

This project models the sequential logic at the heart of the Android helper library
VariousExtensions and proves properties of it:

- **MultiCompare** sorts an array by several keys ("degrees"). `rsort` keeps a list of borders
  `(position, degree)`. For each degree it stably sorts every group between two borders and
  then puts a new border between every two neighbours of a group that differ at that degree.
  `sortNamed` also returns the sorted array with a `SortedBlockName` header in front of every
  block, one header per degree from the border's degree up to the last.
  - `stable_sort.dfy` models `Arrays.sort` on a range as a stable insertion sort.
  - `multi_compare.dfy` holds the passes, their loops and the final-order theorem.
  - `named_blocks.dfy` holds the naming loop and the public `sort`/`sortNamed` overloads.
- **PagerAdapterHandler** keeps a cursor over an adapter's positions. It also caches
  instantiated items for a window of positions around the cursor, which wraps around when the
  handler is cycled.
  - `sparse_array.dfy` models the `android.util.SparseArray` the cache lives in, as a
    key-sorted sequence of slots.
  - `pager_adapter_handler.dfy` models the window, the cursor steps, the preload and destroy
    loops, `setAdapter`, `get` and `getCount`. Adapter and target callbacks are recorded as an
    event log.
- **FilterableArrayList** is an `ArrayList` plus a "filter result": a list of
  `(position, data)` holders for the items that pass a filter. Every mutator must keep it in
  step with the list (`filterable_array_list.dfy`).
  - `Holders` is the reference shape of the filter result.
  - `Coherent` means the filter result equals that reference.
  - The three places where the code breaks the shape take a `Variant` argument: `AsWritten` is
    the code, `Repaired` is the evidently intended code. Coherence is proved for the repaired
    operations. Concrete lemmas exhibit the as-written defects (see Findings).
- **MultiSelectHandler** is a duplicate-free selection plus ordered listeners
  (`multi_select_handler.dfy`). Every operation returns the new state and the listener calls it
  made.
- **MotionController** classifies swipes from a start point, a current point and two axis
  allowances, using Java `int` arithmetic (`motion_controller.dfy`). It is modelled in the state
  where its `Scroller` animation has finished. Differences wrap at 32 bits. `Math.abs` leaves
  `Integer.MIN_VALUE` negative, so a vertical delta of `Integer.MIN_VALUE` loses to a zero
  horizontal delta (`MinValueDelta`).

Some parts of the code are replaced by parameters:

- Comparators, block namers, filters and adapters are function parameters.
- A comparator is only assumed to honour Java's `Comparator` contract in the lemmas about
  order and stability.
- A Java `null` that the code dereferences is an `Option` value. An exception is a `Result`
  failure.

## Model

| member | source | states |
|---|---|---|
| StableSort.SortPermutes | src/main/java/ru/mail/dondokidon/extensions/MultiCompare.java:320 | sorting a range only rearranges it: the result is a permutation of the input |
| StableSort.SortSorted | src/main/java/ru/mail/dondokidon/extensions/MultiCompare.java:320 | with a comparator that honours the contract at degree d, the sorted range is in ascending order at d over every pair of positions |
| StableSort.SortStable | src/main/java/ru/mail/dondokidon/extensions/MultiCompare.java:320 | the sort is stable: elements that compare equal at d keep their relative input order |
| StableSort.SortKeepsFinerClasses | src/main/java/ru/mail/dondokidon/extensions/MultiCompare.java:317-321 | a pass at degree d keeps the relative order of elements that are equal on any range of degrees that includes d |
| StableSort.InsertStable | src/main/java/ru/mail/dondokidon/extensions/MultiCompare.java:320 | inserting into a sorted run places the new element after every element equal to it |
| MultiCompare.SortRange | src/main/java/ru/mail/dondokidon/extensions/MultiCompare.java:320 | `Arrays.sort(mas, lo, hi)` leaves everything outside `[lo, hi)` alone and sorts the inside |
| MultiCompare.SortGroupsUpToPermutes | src/main/java/ru/mail/dondokidon/extensions/MultiCompare.java:318-321 | sorting any number of groups of a pass is a permutation of the array |
| MultiCompare.OtherGroupUnchanged | src/main/java/ru/mail/dondokidon/extensions/MultiCompare.java:318-321 | sorting one group leaves every other group as it was |
| MultiCompare.SortGroupsUpToStable | src/main/java/ru/mail/dondokidon/extensions/MultiCompare.java:318-321 | the sorting loop of a pass is stable for every class of elements equal on a degree range that contains the pass's degree |
| MultiCompare.SplitShape | src/main/java/ru/mail/dondokidon/extensions/MultiCompare.java:326-338 | the borders found in one group are increasing, lie inside the group, carry the pass's degree, and are exactly the neighbours that differ at that degree |
| MultiCompare.RefineShape | src/main/java/ru/mail/dondokidon/extensions/MultiCompare.java:322-339 | after a pass the borders still run from -1 to n-1 strictly increasing, every old border is kept, every new one separates neighbours that differ at the degree, and every such pair gets one |
| MultiCompare.SortPassKeeps | src/main/java/ru/mail/dondokidon/extensions/MultiCompare.java:317-321 | the sorting loop of a pass keeps every border's split and leaves neighbours inside a group ascending at the degree |
| MultiCompare.RefinePassKeeps | src/main/java/ru/mail/dondokidon/extensions/MultiCompare.java:322-339 | after the border scan, neighbours not separated by a border are equal on every degree done so far |
| MultiCompare.PassShape | src/main/java/ru/mail/dondokidon/extensions/MultiCompare.java:317-339 | one degree pass permutes the array and only adds borders of degree below the number of passes done |
| MultiCompare.RSortShape | src/main/java/ru/mail/dondokidon/extensions/MultiCompare.java:294-342 | `rsort` returns a permutation; an empty array gets no borders; otherwise the borders start at -1, end at n-1, increase strictly and have degrees below the degree count |
| MultiCompare.FinalOrder | src/main/java/ru/mail/dondokidon/extensions/MultiCompare.java:13-21 | after all passes, neighbours are in lexicographic order over the degrees, a border sits exactly between neighbours that differ on some degree, and a border of degree g separates neighbours equal below g and smaller at g |
| MultiCompare.RSortOrdered | src/main/java/ru/mail/dondokidon/extensions/MultiCompare.java:294-342 | for a valid comparator: lexicographic order, stability over all degrees, and borders exactly where neighbours differ |
| MultiCompare.SortGroupsLoop | src/main/java/ru/mail/dondokidon/extensions/MultiCompare.java:318-321 | the loop over the groups computes the sorting pass |
| MultiCompare.ScanGroup | src/main/java/ru/mail/dondokidon/extensions/MultiCompare.java:327-338 | the inner scan inserts, in order, a border after every position where the neighbours differ, and advances the insertion counter past them |
| MultiCompare.RefineLoop | src/main/java/ru/mail/dondokidon/extensions/MultiCompare.java:322-339 | the scan over the copied border list computes the refined borders |
| MultiCompare.RSortLoops | src/main/java/ru/mail/dondokidon/extensions/MultiCompare.java:294-342 | the three nested loops of `rsort` compute the degree passes; an empty array returns at once |
| MultiCompare.SortArray | src/main/java/ru/mail/dondokidon/extensions/MultiCompare.java:238-240 | `sort(array)` permutes the array, and for a valid comparator leaves it lexicographically ordered and stable |
| MultiCompare.WriteBack | src/main/java/ru/mail/dondokidon/extensions/MultiCompare.java:252-259 | the list-iterator loop overwrites the list element for element with the sorted array |
| MultiCompare.SortList | src/main/java/ru/mail/dondokidon/extensions/MultiCompare.java:248-260 | `sort(List)` leaves the list holding a permutation of its elements, namely what sorting its array copy gives |
| NamedBlocks.NamedStrip | src/main/java/ru/mail/dondokidon/extensions/MultiCompare.java:213-227 | dropping every `SortedBlockName` from the named result gives exactly the sorted array |
| NamedBlocks.NamedLength | src/main/java/ru/mail/dondokidon/extensions/MultiCompare.java:215-227 | the named result has n elements plus `D - g` headers for every border but the last |
| NamedBlocks.NamedNames | src/main/java/ru/mail/dondokidon/extensions/MultiCompare.java:217-224 | every header is named, at its degree, after the first element that follows it, which is the element that opens its block |
| NamedBlocks.InsertHeaders | src/main/java/ru/mail/dondokidon/extensions/MultiCompare.java:217-224 | the header loop puts headers of degrees g..D-1, in ascending degree, in front of the block's first element |
| NamedBlocks.NameBlock | src/main/java/ru/mail/dondokidon/extensions/MultiCompare.java:216-226 | one turn of the naming loop inserts a block's headers where the shifted border says the block starts, and moves the later borders past them |
| NamedBlocks.NamedLoops | src/main/java/ru/mail/dondokidon/extensions/MultiCompare.java:213-228 | the naming loop with its border shifting computes the named result |
| NamedBlocks.RSortHeadersFit | src/main/java/ru/mail/dondokidon/extensions/MultiCompare.java:225-226 | the borders `rsort` returns have degrees no larger than the degree count, so the border shifts are never negative |
| NamedBlocks.SortNamedArray | src/main/java/ru/mail/dondokidon/extensions/MultiCompare.java:202-229 | `sortNamed(array)` sorts the array in place and returns it with the block headers; an empty array gives an empty result |
| NamedBlocks.SortNamedList | src/main/java/ru/mail/dondokidon/extensions/MultiCompare.java:132-148 | `sortNamed(List)` writes the sorted order back into the list and returns the named result for it |
| SparseArray.Get | src/main/java/ru/mail/dondokidon/extensions/PagerAdapterHandler.java:388 | `get(key)` is non-null exactly for stored keys and returns the value in that key's slot |
| SparseArray.PutGet | src/main/java/ru/mail/dondokidon/extensions/PagerAdapterHandler.java:397 | after `put(k, v)`, `get(k)` is v and every other key reads as before |
| SparseArray.PutValid | src/main/java/ru/mail/dondokidon/extensions/PagerAdapterHandler.java:397 | `put` keeps the keys strictly ascending |
| SparseArray.RemoveGet | src/main/java/ru/mail/dondokidon/extensions/PagerAdapterHandler.java:437 | after `remove(k)`, `get(k)` is null and every other key reads as before |
| SparseArray.RemoveAt | src/main/java/ru/mail/dondokidon/extensions/PagerAdapterHandler.java:424-441 | removing the key of slot i removes exactly that slot, so the next slot moves to index i |
| SparseArray.AppendIsPut | src/main/java/ru/mail/dondokidon/extensions/PagerAdapterHandler.java:471 | on a valid array `append` behaves as `put` |
| SparseArray.IndexOfValue | src/main/java/ru/mail/dondokidon/extensions/PagerAdapterHandler.java:107 | `indexOfValue` is the first slot holding the value, or -1 |
| SparseArray.Put | src/main/java/ru/mail/dondokidon/extensions/PagerAdapterHandler.java:397 | `put(k, v)` leaves a non-empty array whose keys are the old keys plus k |
| SparseArray.Remove | src/main/java/ru/mail/dondokidon/extensions/PagerAdapterHandler.java:437 | `remove(k)` leaves exactly the old keys without k |
| SparseArray.Append | src/main/java/ru/mail/dondokidon/extensions/PagerAdapterHandler.java:471 | `append(k, v)` leaves the old keys plus k, also when k is not above every key |
| PagerAdapterHandler.Attach | src/main/java/ru/mail/dondokidon/extensions/PagerAdapterHandler.java:62-83 | a new handler has no adapter, no items and the cursor at `POSITION_NONE`; it is cycled exactly when `isCycled` is, and its border is the default 1 |
| PagerAdapterHandler.RelativePositions | src/main/java/ru/mail/dondokidon/extensions/PagerAdapterHandler.java:160-187 | the window is empty for an empty data set; otherwise it has no repeats, at most 2B+1 entries, and holds exactly the adjusted positions of the offsets -B..B |
| PagerAdapterHandler.WindowHasMiddle | src/main/java/ru/mail/dondokidon/extensions/PagerAdapterHandler.java:160-187 | a middle position inside the data set is in its own window |
| PagerAdapterHandler.CycledWindowInRange | src/main/java/ru/mail/dondokidon/extensions/PagerAdapterHandler.java:165-180 | cycled, with B < count and the middle in range, every window position is in `[0, count)` |
| PagerAdapterHandler.UncycledWindow | src/main/java/ru/mail/dondokidon/extensions/PagerAdapterHandler.java:165-183 | not cycled, the window is the plain interval around the middle, out-of-range positions included |
| PagerAdapterHandler.NextPosition | src/main/java/ru/mail/dondokidon/extensions/PagerAdapterHandler.java:258-263 | `getNextPosition` steps forward, wrapping or saturating at the last position, and throws without an adapter |
| PagerAdapterHandler.PrevPosition | src/main/java/ru/mail/dondokidon/extensions/PagerAdapterHandler.java:272-277 | `getPrevPosition` steps back, wrapping or saturating at 0; only the cycled wrap needs the adapter, and without one the step is `position - 1`, or 0 when not cycled |
| PagerAdapterHandler.CycledStepsInverse | src/main/java/ru/mail/dondokidon/extensions/PagerAdapterHandler.java:258-277 | cycled, the steps stay in range and undo each other |
| PagerAdapterHandler.UncycledStepsSaturate | src/main/java/ru/mail/dondokidon/extensions/PagerAdapterHandler.java:258-277 | not cycled, the steps move by one and stop at the first and last positions |
| PagerAdapterHandler.PreloadInfo | src/main/java/ru/mail/dondokidon/extensions/PagerAdapterHandler.java:380-382 | `preloadInfo` changes nothing and calls nobody without an adapter or with a middle outside `[0, count]` |
| PagerAdapterHandler.PreloadInfoEffect | src/main/java/ru/mail/dondokidon/extensions/PagerAdapterHandler.java:380-405 | otherwise it calls `startUpdate` first and `finishUpdate` last, instantiates exactly the window positions not held yet, and leaves the old keys plus the window |
| PagerAdapterHandler.DestroyInfo | src/main/java/ru/mail/dondokidon/extensions/PagerAdapterHandler.java:419-421 | `destroyInfo` changes nothing and calls nobody without an adapter or with a middle outside `[0, count]` |
| PagerAdapterHandler.DestroyInfoEffect | src/main/java/ru/mail/dondokidon/extensions/PagerAdapterHandler.java:419-446 | otherwise it calls `startUpdate` first and `finishUpdate` last, destroys every held item outside the window and only such items, and leaves exactly the old keys inside the window |
| PagerAdapterHandler.FillKeys | src/main/java/ru/mail/dondokidon/extensions/PagerAdapterHandler.java:380-405 | after the preload loop the cache holds the old keys plus the window |
| PagerAdapterHandler.FillKeeps | src/main/java/ru/mail/dondokidon/extensions/PagerAdapterHandler.java:388-396 | an item already held is kept as it is |
| PagerAdapterHandler.FillMade | src/main/java/ru/mail/dondokidon/extensions/PagerAdapterHandler.java:395-399 | the preload loop instantiates exactly the window positions not held before |
| PagerAdapterHandler.FillNew | src/main/java/ru/mail/dondokidon/extensions/PagerAdapterHandler.java:395-399 | every newly held position holds the item the adapter instantiated for it |
| PagerAdapterHandler.PruneKeys | src/main/java/ru/mail/dondokidon/extensions/PagerAdapterHandler.java:419-446 | after the destroy loop the cache holds exactly the old keys inside the window |
| PagerAdapterHandler.PruneGet | src/main/java/ru/mail/dondokidon/extensions/PagerAdapterHandler.java:419-446 | the items kept are the ones held before |
| PagerAdapterHandler.PruneDropped | src/main/java/ru/mail/dondokidon/extensions/PagerAdapterHandler.java:434-440 | `destroyItem` is called exactly for the held slots outside the window |
| PagerAdapterHandler.PruneLoop | src/main/java/ru/mail/dondokidon/extensions/PagerAdapterHandler.java:424-441 | the index loop that steps back after each removal visits every slot once and computes the prune |
| PagerAdapterHandler.MoveTo | src/main/java/ru/mail/dondokidon/extensions/PagerAdapterHandler.java:196-211 | a move returns false, changing nothing, only when the position is unchanged and there is no adapter; otherwise the cursor becomes the target; adapter, cycling and border never change |
| PagerAdapterHandler.MoveToWindow | src/main/java/ru/mail/dondokidon/extensions/PagerAdapterHandler.java:380-446 | with an adapter and a target in `[0, count]`, the cache afterwards is exactly the target's window; items that stay are not replaced and the others are fresh |
| PagerAdapterHandler.MoveToNotifies | src/main/java/ru/mail/dondokidon/extensions/PagerAdapterHandler.java:286-300 | `setPosition` notifies `(old, new, false)`, `moveTo` `(old, new, true)`, once; `setPositionWithoutNotification` and a refused move notify nothing |
| PagerAdapterHandler.MoveToInv | src/main/java/ru/mail/dondokidon/extensions/PagerAdapterHandler.java:219-231 | moves keep the cache key-sorted, the border at least 1 and the cache empty without an adapter |
| PagerAdapterHandler.MoveToNext | src/main/java/ru/mail/dondokidon/extensions/PagerAdapterHandler.java:238-240 | `moveToNext` moves to the next position, and throws without an adapter |
| PagerAdapterHandler.MoveToPrev | src/main/java/ru/mail/dondokidon/extensions/PagerAdapterHandler.java:247-249 | `moveToPrev` moves to the previous position, with or without an adapter; only the cycled wrap from 0 throws without one |
| PagerAdapterHandler.SetAdapter | src/main/java/ru/mail/dondokidon/extensions/PagerAdapterHandler.java:100-128 | `setAdapter` as written: the old items are torn down with their slot indices, the cursor becomes 0 or `POSITION_NONE`, and the target hears of the change last; cycling and border are kept |
| PagerAdapterHandler.Teardown | src/main/java/ru/mail/dondokidon/extensions/PagerAdapterHandler.java:104-108 | the teardown loop of `setAdapter` makes one `destroyItem` call per held item, in slot order: call i destroys the item of slot i and reports it at the first slot holding that item |
| PagerAdapterHandler.SwapAdapter | src/main/java/ru/mail/dondokidon/extensions/PagerAdapterHandler.java:100-128 | for any teardown, `setAdapter` installs the new adapter, puts the cursor at 0 or `POSITION_NONE`, opens with `startUpdate` and the teardown when an adapter was set, and reports `onAdapterChanged` last; cycling and border are kept |
| PagerAdapterHandler.SwapAdapterHeld | src/main/java/ru/mail/dondokidon/extensions/PagerAdapterHandler.java:100-128 | after `setAdapter` nothing of the old adapter is held: the cache is empty without a new adapter, otherwise fresh items for the window around 0 |
| PagerAdapterHandler.TeardownSlotIndex | src/main/java/ru/mail/dondokidon/extensions/PagerAdapterHandler.java:104-108 | with distinct items, `setAdapter` passes each item's slot index to `destroyItem` |
| PagerAdapterHandler.SetAdapterReportsSlotIndex | src/main/java/ru/mail/dondokidon/extensions/PagerAdapterHandler.java:107 | an item held for position 5 is reported destroyed at 0 as written, at 5 when corrected |
| PagerAdapterHandler.SetAdapterByKey | src/main/java/ru/mail/dondokidon/extensions/PagerAdapterHandler.java:100-128 | `setAdapter` reporting each item at the position it was instantiated for; cycling and border are kept |
| PagerAdapterHandler.SetAdapterByKeyAgrees | src/main/java/ru/mail/dondokidon/extensions/PagerAdapterHandler.java:434-437 | the corrected teardown makes the same `destroyItem` calls as the destroy loop does for an empty window |
| PagerAdapterHandler.GetItem | src/main/java/ru/mail/dondokidon/extensions/PagerAdapterHandler.java:462-478 | `get` is null without an adapter, throws outside `[0, count)`, and otherwise returns an item and holds that position; cursor, adapter, cycling and border never change |
| PagerAdapterHandler.GetItemHolds | src/main/java/ru/mail/dondokidon/extensions/PagerAdapterHandler.java:466-473 | `get` returns what is now held for the position, instantiates only when nothing was held, and changes no other position |
| PagerAdapterHandler.GetCount | src/main/java/ru/mail/dondokidon/extensions/PagerAdapterHandler.java:502-506 | `getCount` is 0 without an adapter and the adapter's count otherwise |
| PagerAdapterHandler.GetItemInCount | src/main/java/ru/mail/dondokidon/extensions/PagerAdapterHandler.java:464-465 | with an adapter, `get` throws exactly outside `[0, getCount())` |
| PagerAdapterHandler.SetRelativityBorder | src/main/java/ru/mail/dondokidon/extensions/PagerAdapterHandler.java:139-142 | the border becomes `max(b, 1)`, for every b; cursor, cycling and adapter are unchanged |
| PagerAdapterHandler.SetRelativityBorderAdds | src/main/java/ru/mail/dondokidon/extensions/PagerAdapterHandler.java:139-142 | changing the border only preloads: held items stay, and the new window is added |
| FilterableArrayList.FilterResultGet | src/main/java/ru/mail/dondokidon/extensions/FilterableArrayList.java:102-104 | `filterResultGet(k)` is the data of the k-th holder and throws outside the filter result |
| FilterableArrayList.New | src/main/java/ru/mail/dondokidon/extensions/FilterableArrayList.java:34-36 | a new list is empty and coherent, with no filter and an empty filter string |
| FilterableArrayList.FilterResultSize | src/main/java/ru/mail/dondokidon/extensions/FilterableArrayList.java:51-53 | `filterResultSize` is the number of data in the filter result |
| FilterableArrayList.CoherentQueries | src/main/java/ru/mail/dondokidon/extensions/FilterableArrayList.java:51-53 | on a coherent list, `filterResultSize` counts the items that pass and `filterResultGet(k)` is the k-th of them in list order |
| FilterableArrayList.Add | src/main/java/ru/mail/dondokidon/extensions/FilterableArrayList.java:135-141 | `add(o)` appends o, and appends holder `(size-1, o)` exactly when o passes |
| FilterableArrayList.AddCoherent | src/main/java/ru/mail/dondokidon/extensions/FilterableArrayList.java:135-141 | `add(o)` keeps the list coherent |
| FilterableArrayList.AddAt | src/main/java/ru/mail/dondokidon/extensions/FilterableArrayList.java:147-155 | `add(index, e)` throws outside `[0, size]` and inserts e. When e passes, holders at or beyond index move up one and a holder `(index, e)` is inserted among them. When e is rejected, the holders stay as they were as written, and move up one when repaired |
| FilterableArrayList.Shift | src/main/java/ru/mail/dondokidon/extensions/FilterableArrayList.java:150-152 | moving the holders at or beyond an index by d changes only their positions, by exactly d, and leaves the other holders alone |
| FilterableArrayList.AddAtCoherent | src/main/java/ru/mail/dondokidon/extensions/FilterableArrayList.java:147-155 | the repaired `add(index, e)` keeps the list coherent |
| FilterableArrayList.InsertIndex | src/main/java/ru/mail/dondokidon/extensions/FilterableArrayList.java:419-431 | `addFilterResultItem` inserts before the first holder it examines whose position is larger; as written the last holder is never examined |
| FilterableArrayList.Insert | src/main/java/ru/mail/dondokidon/extensions/FilterableArrayList.java:419-430 | `addFilterResultItem` inserts the new holder at one place and keeps every other holder, in order |
| FilterableArrayList.InsertAround | src/main/java/ru/mail/dondokidon/extensions/FilterableArrayList.java:419-431 | into holders ordered around the new position, the new holder lands between the smaller and the larger ones (as written, unless exactly one holder is larger) |
| FilterableArrayList.Find | src/main/java/ru/mail/dondokidon/extensions/FilterableArrayList.java:409-417 | the index of the first holder with the position, or -1 |
| FilterableArrayList.FindAround | src/main/java/ru/mail/dondokidon/extensions/FilterableArrayList.java:433-439 | on holders ordered around a position, finding and removing it hits exactly the holder for it |
| FilterableArrayList.RemoveAt | src/main/java/ru/mail/dondokidon/extensions/FilterableArrayList.java:161-168 | `remove(i)` throws outside `[0, size)`, returns `list[i]`, removes it, and updates the filter result as `Cut` does |
| FilterableArrayList.Cut | src/main/java/ru/mail/dondokidon/extensions/FilterableArrayList.java:161-168 | removing item i drops the first holder for i, if any, and moves every holder above i down one; the others keep their position and data, on any list |
| FilterableArrayList.RemoveHolder | src/main/java/ru/mail/dondokidon/extensions/FilterableArrayList.java:433-439 | `removeFilterResultItem(p)` drops exactly the first holder for p, and changes nothing when there is none |
| FilterableArrayList.CutCoherent | src/main/java/ru/mail/dondokidon/extensions/FilterableArrayList.java:161-168 | removing an item keeps the list coherent |
| FilterableArrayList.RemoveAtCoherent | src/main/java/ru/mail/dondokidon/extensions/FilterableArrayList.java:161-168 | `remove(int)` keeps the list coherent, also when it throws |
| FilterableArrayList.IndexOf | src/main/java/ru/mail/dondokidon/extensions/FilterableArrayList.java:175 | `indexOf(o)` is the first index holding o, or -1 exactly when o is absent |
| FilterableArrayList.RemoveValue | src/main/java/ru/mail/dondokidon/extensions/FilterableArrayList.java:174-184 | `remove(o)` returns false and changes nothing when o is absent, otherwise removes its first occurrence |
| FilterableArrayList.RemoveValueCoherent | src/main/java/ru/mail/dondokidon/extensions/FilterableArrayList.java:174-184 | `remove(o)` keeps the list coherent |
| FilterableArrayList.Clear | src/main/java/ru/mail/dondokidon/extensions/FilterableArrayList.java:190-193 | `clear` empties both the list and the filter result and keeps the criterion |
| FilterableArrayList.AddAll | src/main/java/ru/mail/dondokidon/extensions/FilterableArrayList.java:200-218 | `addAll(c)` appends c, adds one holder per passing item, and returns whether c was non-empty |
| FilterableArrayList.AddAllCoherent | src/main/java/ru/mail/dondokidon/extensions/FilterableArrayList.java:200-218 | `addAll(c)` keeps the list coherent, as written too, since every new holder goes at the end |
| FilterableArrayList.AddAllAppends | src/main/java/ru/mail/dondokidon/extensions/FilterableArrayList.java:200-218 | when every holder points below the end of the list, even on an incoherent list, `addAll(c)` appends the holders `(size + i, c[i])` of the passing items, in order, in both variants |
| FilterableArrayList.InsertEachBetween | src/main/java/ru/mail/dondokidon/extensions/FilterableArrayList.java:205-216 | adding the run's holders `(base + i, t[i])` between holders below base and holders beyond the run puts them between the two, in order; as written only when nothing lies beyond |
| FilterableArrayList.InsertEachCoherent | src/main/java/ru/mail/dondokidon/extensions/FilterableArrayList.java:205-216 | adding holders for the passing items of a run, in order, turns the reference of the list around the run into the reference of the whole list |
| FilterableArrayList.AddAllAt | src/main/java/ru/mail/dondokidon/extensions/FilterableArrayList.java:224-244 | `addAll(index, c)` throws outside `[0, size]`, inserts c at index, and adds one holder per passing item |
| FilterableArrayList.AddAllAtCoherent | src/main/java/ru/mail/dondokidon/extensions/FilterableArrayList.java:224-244 | the repaired `addAll(index, c)` keeps the list coherent |
| FilterableArrayList.AddAllAtInserts | src/main/java/ru/mail/dondokidon/extensions/FilterableArrayList.java:224-244 | on holders ordered around index, `addAll(index, c)` keeps the lower ones, adds `(index + i, c[i])` for the passing items, and moves the rest up by `|c|`; as written only when no holder lies at or beyond index |
| FilterableArrayList.ShiftHolders | src/main/java/ru/mail/dondokidon/extensions/FilterableArrayList.java:226-228 | moving the holders at or beyond an index by d is the reference numbered from d further on |
| FilterableArrayList.Set | src/main/java/ru/mail/dondokidon/extensions/FilterableArrayList.java:110-129 | `set(i, e)` throws outside `[0, size)`, stores e and returns the old item. With a filter: an accepted e replaces the holder for i, or is inserted when there is none; a rejected e drops the old item's holder. Without a filter: the holder for i is replaced, and when there is none the call throws after the list has changed |
| FilterableArrayList.SetCoherent | src/main/java/ru/mail/dondokidon/extensions/FilterableArrayList.java:110-129 | the repaired `set(i, e)` keeps the list coherent and returns the old item |
| FilterableArrayList.FilterContent | src/main/java/ru/mail/dondokidon/extensions/FilterableArrayList.java:441-456 | the rebuilt filter result holds the items that pass, in list order; as written its positions are 0 under the shortcut and ranks otherwise |
| FilterableArrayList.FilterContentCoherent | src/main/java/ru/mail/dondokidon/extensions/FilterableArrayList.java:441-455 | the repaired `filterContent` makes the list coherent whenever no filter is set or a non-empty filter string is |
| FilterableArrayList.SetFilter | src/main/java/ru/mail/dondokidon/extensions/FilterableArrayList.java:384-387 | after `setFilter` the filter result's data are the items the new criterion lets through, in list order |
| FilterableArrayList.SetFilterString | src/main/java/ru/mail/dondokidon/extensions/FilterableArrayList.java:404-407 | likewise after `setFilterString` |
| FilterableArrayList.FromCollection | src/main/java/ru/mail/dondokidon/extensions/FilterableArrayList.java:41-44 | a list built from a collection has every item in its filter result; as written every holder says position 0 |
| FilterableArrayList.HoldersData | src/main/java/ru/mail/dondokidon/extensions/FilterableArrayList.java:449-453 | the reference filter result carries exactly the passing items, in list order |
| FilterableArrayList.AddAtRejectedKeepsPositions | src/main/java/ru/mail/dondokidon/extensions/FilterableArrayList.java:149-154 | inserting a rejected item in front leaves a holder pointing at the wrong index as written; repaired, it moves |
| FilterableArrayList.InsertSkipsLastHolder | src/main/java/ru/mail/dondokidon/extensions/FilterableArrayList.java:422-428 | `add(0, 7)` on `[1]` puts 7's holder behind 1's as written, in front when repaired |
| FilterableArrayList.FilterContentPositions | src/main/java/ru/mail/dondokidon/extensions/FilterableArrayList.java:445-447 | building from `[5, 6]` gives positions `[0, 0]` as written and `[0, 1]` repaired; `set(1, 7)` then throws after storing 7 |
| MultiSelectHandler.Broadcast | src/main/java/ru/mail/dondokidon/extensions/MultiSelectHandler.java:38-64 | a trigger calls every listener once, from the last in the list to the first |
| MultiSelectHandler.Empty | src/main/java/ru/mail/dondokidon/extensions/MultiSelectHandler.java:16-17 | a new handler has no selection and no listeners |
| MultiSelectHandler.RemoveAllListeners | src/main/java/ru/mail/dondokidon/extensions/MultiSelectHandler.java:34-36 | `removeAllListeners` drops every listener and keeps the selection |
| MultiSelectHandler.Trigger | src/main/java/ru/mail/dondokidon/extensions/MultiSelectHandler.java:38-43 | the count-down loop calls the listeners from the end of the list |
| MultiSelectHandler.AddListener | src/main/java/ru/mail/dondokidon/extensions/MultiSelectHandler.java:26-28 | `addListener` puts the listener at the front and keeps the rest |
| MultiSelectHandler.AddListenerHearsLast | src/main/java/ru/mail/dondokidon/extensions/MultiSelectHandler.java:26-28 | a listener added later hears every signal after the listeners added before it |
| MultiSelectHandler.RegistrationOrder | src/main/java/ru/mail/dondokidon/extensions/MultiSelectHandler.java:26-64 | listeners added one by one hear each signal in registration order |
| MultiSelectHandler.RemoveFirst | src/main/java/ru/mail/dondokidon/extensions/MultiSelectHandler.java:30-32 | `remove(Object)` removes one occurrence when there is one and nothing otherwise |
| MultiSelectHandler.RemoveFirstAt | src/main/java/ru/mail/dondokidon/extensions/MultiSelectHandler.java:86 | the occurrence removed is the first one |
| MultiSelectHandler.RemoveListener | src/main/java/ru/mail/dondokidon/extensions/MultiSelectHandler.java:30-32 | `removeListener` drops one registration of the listener and keeps the selection |
| MultiSelectHandler.SelectItem | src/main/java/ru/mail/dondokidon/extensions/MultiSelectHandler.java:71-78 | selecting a selected item changes nothing and calls nobody; otherwise the item is appended, and listeners hear start (for an empty selection) then selected |
| MultiSelectHandler.SelectKeepsNoDup | src/main/java/ru/mail/dondokidon/extensions/MultiSelectHandler.java:71-78 | the selection never gets a repeat |
| MultiSelectHandler.SelectHeard | src/main/java/ru/mail/dondokidon/extensions/MultiSelectHandler.java:72-77 | each registered listener hears `[start, selected(o)]` or `[selected(o)]`, or nothing on a re-select |
| MultiSelectHandler.UnselectItem | src/main/java/ru/mail/dondokidon/extensions/MultiSelectHandler.java:85-90 | `unselectItem` removes the first occurrence, always broadcasts deselected(o), and finish when the selection is then empty |
| MultiSelectHandler.UnselectRemoves | src/main/java/ru/mail/dondokidon/extensions/MultiSelectHandler.java:85-90 | on a repeat-free selection, unselecting o leaves exactly the other items, without repeats |
| MultiSelectHandler.UnselectHeard | src/main/java/ru/mail/dondokidon/extensions/MultiSelectHandler.java:85-90 | each listener hears deselected(o), then finish if the selection is empty, even when o was not selected |
| MultiSelectHandler.UnselectAll | src/main/java/ru/mail/dondokidon/extensions/MultiSelectHandler.java:104-112 | `unselectAll` empties the selection and calls nobody when it was already empty |
| MultiSelectHandler.UnselectAllHeard | src/main/java/ru/mail/dondokidon/extensions/MultiSelectHandler.java:104-112 | each listener hears deselected for every item from the last selected to the first, then finish once |
| MultiSelectHandler.HeardBroadcast | src/main/java/ru/mail/dondokidon/extensions/MultiSelectHandler.java:38-64 | with distinct listeners, a trigger reaches each registered listener exactly once |
| MultiSelectHandler.IsSelected | src/main/java/ru/mail/dondokidon/extensions/MultiSelectHandler.java:97-99 | `isSelected(o)` holds exactly when some selection slot holds o |
| MultiSelectHandler.IsInSelectionMode | src/main/java/ru/mail/dondokidon/extensions/MultiSelectHandler.java:119-121 | selection mode holds exactly when something is selected |
| MultiSelectHandler.SelectionsList | src/main/java/ru/mail/dondokidon/extensions/MultiSelectHandler.java:128-130 | `getSelectionsList` is a copy equal element for element to the selection |
| MultiSelectHandler.SelectionsCount | src/main/java/ru/mail/dondokidon/extensions/MultiSelectHandler.java:137-139 | `getSelectionsCount` is the number of selected items |
| MotionController.Wrap | src/main/java/ru/mail/dondokidon/extensions/MotionController.java:102-103 | an `int` result: unchanged in range, otherwise reduced modulo 2^32 into range |
| MotionController.Abs | src/main/java/ru/mail/dondokidon/extensions/MotionController.java:111 | `Math.abs(int)`: the magnitude, except that `Integer.MIN_VALUE` stays negative |
| MotionController.New | src/main/java/ru/mail/dondokidon/extensions/MotionController.java:25-29 | a new controller has no positions, allows horizontal swipes and forbids vertical ones |
| MotionController.SetStart | src/main/java/ru/mail/dondokidon/extensions/MotionController.java:58-64 | `setStartPointerPosition` sets start and current to the same point and keeps the allowances |
| MotionController.SetCurrent | src/main/java/ru/mail/dondokidon/extensions/MotionController.java:72-77 | `setCurrentPointerPosition` sets only the current point |
| MotionController.SetSwapAllowance | src/main/java/ru/mail/dondokidon/extensions/MotionController.java:86-89 | `setSwapAllowance(h, v)` sets both flags and nothing else |
| MotionController.Reset | src/main/java/ru/mail/dondokidon/extensions/MotionController.java:148-151 | `reset` forgets both points |
| MotionController.DeltaX | src/main/java/ru/mail/dondokidon/extensions/MotionController.java:102 | the horizontal difference throws when a point is missing, is the plain difference when it fits in an `int`, and is otherwise the `int` congruent to it modulo 2^32 |
| MotionController.DeltaY | src/main/java/ru/mail/dondokidon/extensions/MotionController.java:103 | the same for the vertical difference |
| MotionController.DeltaWraps | src/main/java/ru/mail/dondokidon/extensions/MotionController.java:102-103 | a difference above `MAX_VALUE` comes back 2^32 lower and one below `MIN_VALUE` 2^32 higher, so `MAX_VALUE - MIN_VALUE` is -1 |
| MotionController.MoveDirection | src/main/java/ru/mail/dondokidon/extensions/MotionController.java:99-143 | `getMoveDirection` throws without both points, never answers `TO_START_POSITION`, only names an allowed axis, and with one axis allowed follows that axis's sign |
| MotionController.DominantAxis | src/main/java/ru/mail/dondokidon/extensions/MotionController.java:110-124 | with both axes allowed, the direction is the sign of the larger offset component, the vertical one on a tie |
| MotionController.NoSwapIffNoOffset | src/main/java/ru/mail/dondokidon/extensions/MotionController.java:99-197 | away from `Integer.MIN_VALUE`, the direction is `NO_SWAP` exactly when the offset is (0, 0) |
| MotionController.MinValueDelta | src/main/java/ru/mail/dondokidon/extensions/MotionController.java:111 | a vertical delta of `Integer.MIN_VALUE` with no horizontal delta reads as `NO_SWAP` |
| MotionController.Offset | src/main/java/ru/mail/dondokidon/extensions/MotionController.java:164-197 | `getOffset` is the pair of deltas with each disallowed axis at 0; with neither allowed it is (0, 0) and reads no point |
| MotionController.OffsetOfAxes | src/main/java/ru/mail/dondokidon/extensions/MotionController.java:164-239 | `getOffset` agrees with `getHorizontalOffset` and `getVerticalOffset` on the allowed axes |
| MotionController.HorizontalOffset | src/main/java/ru/mail/dondokidon/extensions/MotionController.java:226-239 | `getHorizontalOffset` throws without both points and is the horizontal delta whatever the allowances |
| MotionController.VerticalOffset | src/main/java/ru/mail/dondokidon/extensions/MotionController.java:205-218 | `getVerticalOffset` throws without both points and is the vertical delta whatever the allowances |
| MotionController.HorizontalMoveDirection | src/main/java/ru/mail/dondokidon/extensions/MotionController.java:578-592 | `getHorizontalMoveDirection` throws without both points, and otherwise is the sign of the horizontal delta, whatever the allowances |
| MotionController.VerticalMoveDirection | src/main/java/ru/mail/dondokidon/extensions/MotionController.java:557-571 | `getVerticalMoveDirection` throws without both points, and otherwise is the sign of the vertical delta, whatever the allowances |
| MotionController.AxisDirectionsIgnoreAllowances | src/main/java/ru/mail/dondokidon/extensions/MotionController.java:557-592 | changing the swap allowances changes neither per-axis direction |
| MotionController.SingleAxisDirection | src/main/java/ru/mail/dondokidon/extensions/MotionController.java:126-142 | with one axis allowed, `getMoveDirection` equals that axis's `get…MoveDirection`; with none, it is `NO_SWAP` once both points are set |
| MotionController.StartIsAtRest | src/main/java/ru/mail/dondokidon/extensions/MotionController.java:58-64 | right after `setStartPointerPosition` the offset is (0, 0) and every direction is `NO_SWAP` |
| MotionController.SetCurrentReadsBack | src/main/java/ru/mail/dondokidon/extensions/MotionController.java:72-77 | the getters read back what the setters stored, and the offsets are the distances from the start |
| MotionController.StartPosition | src/main/java/ru/mail/dondokidon/extensions/MotionController.java:246-253 | `getStartPointerPosition` throws without a start point and returns it otherwise |
| MotionController.CurrentPosition | src/main/java/ru/mail/dondokidon/extensions/MotionController.java:284-296 | `getCurrentPointerPosition` throws without a current point and returns it otherwise |
| MotionController.FinishFling | src/main/java/ru/mail/dondokidon/extensions/MotionController.java:396-405 | `finishFling` animates from the current point to the destination, which becomes the current point; it throws without a current point |
| MotionController.FlingOffset | src/main/java/ru/mail/dondokidon/extensions/MotionController.java:403-404 | after `finishFling(x, y)` the offset is the distance from the start to (x, y) |
| MotionController.FinishHorizontalFling | src/main/java/ru/mail/dondokidon/extensions/MotionController.java:417-447 | no-op when horizontal swipes are disallowed or the direction is vertical; otherwise flings to `start.X + offset`, `start.X - offset` or back to the start |
| MotionController.HorizontalFlingLands | src/main/java/ru/mail/dondokidon/extensions/MotionController.java:417-447 | a horizontal fling by a positive offset that fits in an `int` ends on the side its direction names, and a fling to the start ends at rest |
| MotionController.FinishVerticalFling | src/main/java/ru/mail/dondokidon/extensions/MotionController.java:459-489 | the same on the vertical axis |
| MotionController.VerticalFlingLands | src/main/java/ru/mail/dondokidon/extensions/MotionController.java:459-489 | a vertical fling ends on the side its direction names, or at rest |

## Left out

- MultiCompare: `Arrays.sort` may throw `IllegalArgumentException` when a comparator breaks its contract. The model's sort always completes with a permutation and claims order and stability only for a valid comparator.
- MultiCompare: generic casts and `ClassCastException` are not modelled. A `null` comparator is the `FromFirstElement` degree source.
- NamedBlocks.SortNamedArray: requires every element to report the same degree count. The code reads the count from `mas[0]` before sorting (in `rsort`) and again after sorting (in `rsortAndReturnArrayWithNamedBlocks`), so it names blocks with a count from a possibly different element when the counts differ.
- NamedBlocks.SortNamedList: the same requirement, for the same reason.
- PagerAdapterHandler: `invalidateInfo`, `dataSetChanged` and the `DataSetObservable` registration are not modelled. They depend on the adapter's `getItemPosition` and on observer callbacks.
- PagerAdapterHandler: `setCycled`, `getAdapter`, `getPosition` and `getItemPosition` are plain field accessors or delegations.
- PagerAdapterHandler: adapter counts are non-negative and positions are unbounded integers. `position + RelativePosition` overflow is not modelled.
- PagerAdapterHandler: `ItemHolder.position` bookkeeping, `onAttachedToTarget`/`onDetachedFromTarget` details and debug logging are left out.
- FilterableArrayList: `removeRange`, `removeAll` and `retainAll` are not modelled. They are further mutators outside the operations studied here.
- FilterableArrayList: `filterResultContains`, `filterResultIndexOf` and `filterResultLastIndexOf` compare the argument with `DataHolder` objects by Java `equals`. `filterResultSubList` delegates to the backing list.
- FilterableArrayList: `clone` (Java object copying), `isEmpty`, `isFilterResultEmpty`, `getFilter` and `getFilterString` are not modelled.
- FilterableArrayList: `filterContent` lets every item through when a filter is set but the string is null or empty, while the mutators still call the filter. `FilterableArrayList.FilterContentCoherent` therefore excludes that case, and the model records the split as `ContentCriterion`.
- FilterableArrayList: the capacity constructor is not modelled (`New` stands for the no-argument one).
- MultiSelectHandler: the `MultiSelectListener` interface is reduced to the calls made. A listener that changes the handler during a broadcast is not modelled.
- MotionController: the `Scroller`-driven branch is not modelled. It covers `getInterpolatedCurrentPosition`, `isAnimationFinished`, `timePassed`, `abortAnimation` and the animation queries, and involves float interpolation over time. Queries after a fling are therefore those of the finished animation. `getHorizontalOffset` reads the Y coordinate in that branch; this is not modelled.
- MotionController: `getOffsetLength` and the other `double` lengths, `getMotionEventLocationOnView`, the interpolator getter and setter, the fling duration and debug logging are not modelled.

## Findings

| source | as written | input that shows it | evidently intended | confidence | as-written member | corrected member |
|---|---|---|---|---|---|---|
| src/main/java/ru/mail/dondokidon/extensions/PagerAdapterHandler.java:107 | `destroyItem(InfoHolder.indexOfValue(unit), unit)` passes the slot index | one item held for position 5 is reported destroyed at position 0 | pass the item's position `keyAt(i)`, as `destroyInfo` does | not executed | PagerAdapterHandler.SetAdapterReportsSlotIndex | PagerAdapterHandler.SetAdapterByKeyAgrees |
| src/main/java/ru/mail/dondokidon/extensions/FilterableArrayList.java:149-154 | holder positions move up only when the inserted element passes | filter accepting positives, list `[1]`: `add(0, 0)` leaves the holder of 1 at position 0 | move every holder at or beyond the index whether or not the element passes | not executed | FilterableArrayList.AddAtRejectedKeepsPositions | FilterableArrayList.AddAtCoherent |
| src/main/java/ru/mail/dondokidon/extensions/FilterableArrayList.java:422-428 | the loop never compares against the last holder | no filter, list `[1]`: `add(0, 7)` gives holders `(1,1), (0,7)` | insert before the first holder with a larger position, the last one included | not executed | FilterableArrayList.InsertSkipsLastHolder | FilterableArrayList.InsertAround |
| src/main/java/ru/mail/dondokidon/extensions/FilterableArrayList.java:445-453 | the shortcut loop never advances `i`; the filter loop numbers by rank | `new FilterableArrayList([5, 6])` gives positions `0, 0`; `set(1, 7)` then throws after storing 7 | number each holder with its item's list index | not executed | FilterableArrayList.FilterContentPositions | FilterableArrayList.FilterContent |
