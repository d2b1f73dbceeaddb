# embedded-std containers in Dafny

This project models three allocation-free containers of the `estd` library and proves properties about them:
- the intrusive circular doubly linked list (`IntrusiveListNode`, `IntrusiveList`);
- the fixed-capacity doubly linked list (`FixedListImpl`);
- the fixed-size array (`Array`).

The files are:
- `links.dfy` (module `Links`) holds the link-table theory that both lists share. A node is an index into an arena. A `LinkTable` holds every node's back link (`prev`) and forward link (`post`). The predicate `Ring(t, c, broken)` says that the listing `c` is a cycle of `t` whose forward links are all kept and whose back links are kept outside the set `broken`; `IsCycle(t, c)` is a ring with no broken link. A null link is the constant `Null`. The relinking primitives (`link_self`, `insert_before`, `insert_after`, `erase`) are functions on link tables. Lemmas show what each does to a cycle.
- `intrusive_list.dfy` (module `IntrusiveLists`):
  - `NodePool` is an arena of nodes, with arrays `prev` and `post` that the node-level methods update in place. Node `i` is the node embedded in the element whose value is `elem[i]`, so the element-to-node mapping is the identity bijection on indices.
  - `IntrusiveList` is a sentinel node of a pool, a size counter, and the ghost listing `Contents` of its nodes in order.
  - Every method ties the new links to the link function it performs. Its loops carry invariants over ghost listings.
- `fixed_list.dfy` (module `FixedLists`):
  - `FixedList` holds the node storage of N + 1 slots as three arrays (values, back links, forward links), plus `size` and `free`.
  - Slot N is the sentinel. The free chain runs from `free` through the forward links to the sentinel.
  - The ghost fields `live` and `items` list the element slots and their values in list order.
  - The ghost field `broken` is the set of slots whose back link the library leaves wrong: slot 0 after the count or range constructor, whose back link is `BeforeFirst`, and the sentinel after `clear` of a non-empty list, whose back link still names the old last slot.
  - `Valid()` states the storage invariant (`Storage`): the live slots and the sentinel form one ring whose back links are kept outside `broken`; the live slots are exactly `0 .. size - 1`; the free chain is `size -> size + 1 -> ... -> N`; and `free == size`.
- `array.dfy` (module `Arrays`): `Array` wraps a buffer of N elements. `fill` and the variadic initialiser write it in place. Bounds-checked access returns an `Outcome` (an element, or `Abort`). The comparison operators are read-only loops.

`init_free` (src/fixed_list.h:195) gives slot 0 the back link `&storage_[i - 1]` with i == 0. The index is computed on `size_t`, so it wraps to `SIZE_MAX`, and `Array::operator[]` (src/array.h:39) reads `data_[SIZE_MAX]`. That is undefined behaviour; on usual targets the address wraps to one slot before the storage. The model writes this link as the constant `BeforeFirst` (-1), which names no slot.

## Model

| member | source | states |
|---|---|---|
| Links.LinkSelf | src/intrusive_list.h:39-42 | the node becomes a one-node cycle; every other node keeps its links |
| Links.InsertBefore | src/intrusive_list.h:43-49 | x sits between pos's old predecessor and pos; only x, pos and that predecessor change links |
| Links.InsertAfter | src/intrusive_list.h:50-56 | x sits between pos and pos's old successor; only x, pos and that successor change links |
| Links.Erase | src/intrusive_list.h:57-60 | the predecessor and successor are linked to each other; the erased node keeps its own links; a self-linked node is left unchanged |
| Links.InsertBeforeKeepsCycle | src/intrusive_list.h:43-49 | splicing an unlinked node into a cycle before position j gives the cycle with the node listed at j |
| Links.InsertAfterKeepsCycle | src/intrusive_list.h:50-56 | splicing an unlinked node in after position j gives the cycle with the node listed right after j |
| Links.InsertBeforeLinks | src/fixed_list.h:150-153 | the same splice on a ring whose back links are kept only outside a set of broken slots keeps that ring, as long as the insert position is not broken |
| Links.RingEnds | src/fixed_list.h:108-123 | the sentinel's forward link is the first element (or itself) and its back link, when kept, is the last element (or itself) |
| Links.EraseKeepsCycle | src/intrusive_list.h:57-60 | erasing a member of a cycle of two or more nodes leaves the cycle without it, in the same order |
| Links.InsertAgrees | src/intrusive_list.h:43-49 | the splice changes no link outside the three nodes involved |
| Links.EraseAgreesOn | src/intrusive_list.h:57-60 | erasing a cycle member changes no link outside that cycle |
| Links.RotateKeepsCycle | src/intrusive_list.h:102-110 | a cycle listed from any of its members is still the same cycle |
| Links.SurvivorsMembers | src/intrusive_list.h:66-97 | the nodes kept by a removal are exactly the listed nodes whose element does not satisfy the predicate |
| Links.SurvivorsPlusMatching | src/intrusive_list.h:66-97 | every listed node is either counted as removed or kept, never both |
| Links.SurvivorsAppend | src/intrusive_list.h:87-94 | the survivors of a concatenation are the survivors of each part, in order |
| Links.MatchingAppend | src/intrusive_list.h:87-94 | the removal count of a concatenation is the sum of the parts' counts |
| Links.SurvivorsDistinct | src/intrusive_list.h:66-97 | the survivors of a listing without repeated nodes have none either |
| Links.IndexOfSplit | src/intrusive_list.h:196-201 | in a + [x] + b with x not in a, x is found at position \|a\|, and removing it leaves a + b |
| IntrusiveLists.NodePool.constructor | src/intrusive_list.h:37 | every node starts with null back and forward links |
| IntrusiveLists.NodePool.LinkSelf | src/intrusive_list.h:39-42 | the new links are `Links.LinkSelf` of the old ones |
| IntrusiveLists.NodePool.InsertBefore | src/intrusive_list.h:43-49 | the new links are `Links.InsertBefore` of the old ones, written in the source's order |
| IntrusiveLists.NodePool.InsertAfter | src/intrusive_list.h:50-56 | the new links are `Links.InsertAfter` of the old ones |
| IntrusiveLists.NodePool.Erase | src/intrusive_list.h:57-60 | the new links are `Links.Erase` of the old ones |
| IntrusiveLists.NodePool.Size | src/intrusive_list.h:102-110 | walking the cycle once from any member counts exactly its length |
| IntrusiveLists.NodePool.RemoveIf | src/intrusive_list.h:66-97 | the walk terminates; it returns the number of nodes of the cycle whose element satisfies p; if some node survives, the survivors form one cycle in their original order; nodes outside the cycle are untouched |
| IntrusiveLists.NodePool.EraseLeading | src/intrusive_list.h:72-87 | the first loop erases the leading run of matches from `self`; it stops at the first non-match, or at the last node when all match; it counts the run |
| IntrusiveLists.NodePool.SweepFrom | src/intrusive_list.h:88-94 | the second loop keeps the anchor, erases every other match once round, and counts them |
| IntrusiveLists.NodePool.Remove | src/intrusive_list.h:62-64 | `remove_if` with equality to v |
| IntrusiveLists.AllMatching | src/intrusive_list.h:81-84 | when every node matches, none survives and all are counted |
| IntrusiveLists.AnchorSplit | src/intrusive_list.h:87-94 | with a leading run of k matches and then the anchor, the count is k plus the sweep's count, and the survivors are the anchor followed by the sweep's survivors |
| IntrusiveLists.NodeRemoveOdd | src/intrusive_list.h:66-110 | six nodes linked by `link_self` and `insert_after` have size 6; `remove_if` of the odd values from the third node returns 3; walking from the node holding 2 meets 2, 4, 6 and comes back round |
| IntrusiveLists.NodeRemoveAll | src/intrusive_list.h:66-97 | `remove_if` of a predicate all six elements satisfy returns 6 |
| IntrusiveLists.SixLinked | src/intrusive_list.h:39-56 | `link_self` then `insert_after` on the previous node lists the six nodes as one cycle in insertion order |
| IntrusiveLists.IntrusiveList.constructor | src/intrusive_list.h:165-168 | the sentinel is linked to itself; the list is empty with size 0 |
| IntrusiveLists.IntrusiveList.Empty | src/intrusive_list.h:170 | true exactly when the list has no element |
| IntrusiveLists.IntrusiveList.Size | src/intrusive_list.h:171 | the counter equals the number of elements on the ring |
| IntrusiveLists.IntrusiveList.Begin | src/intrusive_list.h:173 | the first element's node, or the sentinel when empty |
| IntrusiveLists.IntrusiveList.End | src/intrusive_list.h:174 | the sentinel, which is never an element |
| IntrusiveLists.IntrusiveList.Advance | src/intrusive_list.h:131-134 | `++it` moves to the next element in list order, or to the sentinel after the last; from the sentinel it moves to the first element |
| IntrusiveLists.IntrusiveList.Insert | src/intrusive_list.h:184-189 | the node is placed immediately before pos (the end for the sentinel); the size grows by one; the result is the inserted node; other nodes are untouched |
| IntrusiveLists.IntrusiveList.Erase | src/intrusive_list.h:196-201 | exactly that element is removed; the size drops by one; the result is its former successor |
| IntrusiveLists.IntrusiveList.PushBack | src/intrusive_list.h:207-211 | the elements become the old ones followed by the node |
| IntrusiveLists.IntrusiveList.PushFront | src/intrusive_list.h:216-220 | the elements become the node followed by the old ones |
| IntrusiveLists.IntrusiveList.PopBack | src/intrusive_list.h:225-228 | on a non-empty list, the last element is removed |
| IntrusiveLists.IntrusiveList.PopFront | src/intrusive_list.h:233-236 | on a non-empty list, the first element is removed |
| IntrusiveLists.IntrusiveList.RemoveIf | src/intrusive_list.h:242-253 | the elements become exactly the non-matching ones in their order; the result (old size minus new size) is the number of matches; the counter stays equal to the length |
| IntrusiveLists.IntrusiveList.Remove | src/intrusive_list.h:238-240 | `remove_if` with equality to v |
| IntrusiveLists.ListInsert | src/intrusive_list.h:184-189 | inserting before a member or the sentinel keeps the sentinel ring, with the node at pos's position |
| IntrusiveLists.ListErase | src/intrusive_list.h:196-201 | erasing an element keeps the sentinel ring without it, and its forward link was its successor |
| IntrusiveLists.WithoutEnds | src/intrusive_list.h:225-236 | removing the last or first element of a list without repetitions is dropping its last or first entry |
| FixedLists.Splice | src/fixed_list.h:150-153 | `insert`'s four writes: x's forward link is pos and pos's back link is x; x's back link is pos's old predecessor, whose forward link becomes x |
| FixedLists.SpliceFrame | src/fixed_list.h:150-153 | the splice changes no back link but x's and pos's, and no forward link but x's and pos's old predecessor's |
| FixedLists.InitFreeLinks | src/fixed_list.h:191-198 | `init_free` chains the slots forward to the sentinel, gives slot 0 the back link `BeforeFirst`, and leaves the sentinel's links alone |
| FixedLists.PreAllocLinks | src/fixed_list.h:199-209 | as written: for a non-empty list the last element links forward to the sentinel and the sentinel links to the first and last elements, while slot 0's back link is untouched; for an empty list the sentinel links to itself |
| FixedLists.ClearLinks | src/fixed_list.h:131-139 | as written: the sentinel's forward link becomes itself and its back link is left as it was |
| FixedLists.PreAllocFixedLinks | src/fixed_list.h:199-209 | the corrected writes: the same forward links as `pre_alloc`, and slot 0's back link set to the sentinel for a non-empty list |
| FixedLists.ClearFixedLinks | src/fixed_list.h:131-139 | the corrected writes: the same forward links as `clear`, and the sentinel's back link set to itself |
| FixedLists.PreAllocStorage | src/fixed_list.h:191-209 | `init_free` then `pre_alloc` give the storage invariant with slots 0 .. size - 1 live; slot 0's back link is broken when the list is not empty |
| FixedLists.ClearedStorage | src/fixed_list.h:131-139 | the links `clear` leaves give the storage invariant of an empty list; the sentinel's back link is broken when it still names an old slot |
| FixedLists.BackLink | src/fixed_list.h:52-55 | a kept back link of an element names the element before it, or the sentinel before the first |
| FixedLists.PreAllocRing | src/fixed_list.h:191-209 | as written, the count and range constructors leave a ring of slots 0 .. size - 1 through the sentinel and a free chain size .. N - 1; slot 0's back link is `BeforeFirst`, which names no slot |
| FixedLists.PreAllocFixedRing | src/fixed_list.h:199-209 | with slot 0's back link set to the sentinel, the same writes leave a ring whose every link is kept |
| FixedLists.ClearedPushFreeChain | src/fixed_list.h:131-158 | when the old last slot l is not slot 0, that `push_back` also points l's forward link at slot 0: the free chain from the new head, slot 1, runs 1 -> ... -> l -> 0 -> sentinel, through the slot that holds the element |
| FixedLists.ClearedPushHidden | src/fixed_list.h:131-139 | after `clear` of a non-empty list, the sentinel's back link still names the old last slot; the next `push_back` leaves the sentinel's forward link on itself, so `begin() == end()` with one element stored |
| FixedLists.ClearedPushVisible | src/fixed_list.h:131-158 | with the sentinel's back link reset by `clear`, the next `push_back` forms the ring sentinel, slot 0 |
| FixedLists.SpliceIsInsertBefore | src/fixed_list.h:150-153 | `insert`'s four link writes, in their order, are the node-level `insert_before` |
| FixedLists.InsertStorage | src/fixed_list.h:141-158 | taking the free head, storing v and splicing it before pos keeps the storage invariant, with v placed at pos's position; the free chain then starts at the next slot |
| FixedLists.InsertRing | src/fixed_list.h:150-153 | the splice keeps the ring, with the new slot listed at pos's position; pos's predecessor is the sentinel or an element |
| FixedLists.PlaceKeeps | src/fixed_list.h:159-170 | after an insert before pos, pos is still on the list, one position further on, so a range lands in order before it |
| FixedLists.RingNext | src/fixed_list.h:43-46 | the forward link of the element at position i is the element at i + 1, or the sentinel after the last |
| FixedLists.BeforeAfter | src/fixed_list.h:43-55 | stepping forward then back returns to the start; stepping forward reaches the sentinel exactly from the last element |
| FixedLists.RangeStep | src/fixed_list.h:159-170 | each insert of a range, whether it fits or the list is full, advances the range invariant by one element |
| FixedLists.FixedList.constructor | src/fixed_list.h:88-92 | empty list; sentinel linked to itself; all slots free; no broken link; `begin() == end()` |
| FixedLists.FixedList.Filled | src/fixed_list.h:93-100 | with count at most N, the list holds count copies of the value (`T{}` for the one-argument form); slot 0's back link is broken when count > 0 |
| FixedLists.FixedList.FromRange | src/fixed_list.h:181-190 | with at most N elements, the list holds them in input order; slot 0's back link is broken when there is at least one |
| FixedLists.FixedList.InitFree | src/fixed_list.h:191-198 | slot i < N gets forward link i + 1 and back link i - 1; the sentinel is untouched |
| FixedLists.FixedList.PreAlloc | src/fixed_list.h:199-209 | the links become the as-written `pre_alloc` writes (`PreAllocLinks`); slots 0 .. size - 1 are live in order; `free` is slot `size`; slot 0's back link is broken when size > 0 |
| FixedLists.FixedList.Insert | src/fixed_list.h:141-158 | when full: the result is `end()` and nothing changes (counter, contents, links, values). Otherwise: the free head stores v and is spliced before pos; the counter grows by one; the result is that slot; the contents are the old ones with v at pos's position; the broken links stay as they were |
| FixedLists.FixedList.InsertRange | src/fixed_list.h:159-170 | the elements that fit, k = min(range length, free slots), are inserted in order before pos. The result is pos for an empty range, `end()` when already full, otherwise the first inserted slot |
| FixedLists.FixedList.InsertEach | src/fixed_list.h:164-167 | the `while (first != last)` loop: from the range state after i elements were offered, it offers the rest, so the first min(range length, free slots) elements sit in order before pos; `Valid()` and the broken links are kept |
| FixedLists.FixedList.Offer | src/fixed_list.h:162-165 | one `insert(pos, *first)` of a range insert: the range state moves from i elements offered to i + 1, pos stays on the list, `Valid()` and the broken links are kept; the result is the slot used, or `end()` when full; a list that is not full afterwards was not full before |
| FixedLists.FixedList.PushBack | src/fixed_list.h:172-173 | unless full, the contents become the old ones followed by v |
| FixedLists.FixedList.PushFront | src/fixed_list.h:174-175 | unless full, the contents become v followed by the old ones; when full, nothing changes, including on a list the count or range constructor filled |
| FixedLists.FullPushFront | src/fixed_list.h:143-144 | `FixedList<int, 2> l(2, 5); l.push_front(7);` finds the free chain empty and returns before reading any link, so the list stays 5, 5 of size 2 although slot 0's back link is broken |
| FixedLists.FixedList.Clear | src/fixed_list.h:131-139 | every element's slot holds `T{}` and other slots are unchanged; all slots are free again; size 0; the links are the as-written `clear` writes (`ClearLinks`); the sentinel's back link is broken after clearing a non-empty list |
| FixedLists.FixedList.ResetValues | src/fixed_list.h:132-134 | the loop of `clear` writes `T{}` into every element's slot and no other |
| FixedLists.FixedList.Front | src/fixed_list.h:108 | on a non-empty list, the first element |
| FixedLists.FixedList.Back | src/fixed_list.h:116 | on a non-empty list, the last element |
| FixedLists.FixedList.Begin | src/fixed_list.h:119 | the first element's slot, or the sentinel when empty |
| FixedLists.FixedList.End | src/fixed_list.h:123 | the sentinel, which holds no element and equals `begin()` exactly when the list is empty |
| FixedLists.FixedList.Empty | src/fixed_list.h:127 | true exactly when there are no elements |
| FixedLists.FixedList.Size | src/fixed_list.h:128 | the counter equals the number of elements |
| FixedLists.FixedList.MaxSize | src/fixed_list.h:129 | the capacity N, which bounds the number of elements |
| FixedLists.FixedList.Next | src/fixed_list.h:43-46 | `++it` is the element after it, or the sentinel after the last; from the sentinel it is `begin()` |
| FixedLists.FixedList.Prev | src/fixed_list.h:52-55 | `--it` is the element before it, or the sentinel before the first, whenever its back link is kept; a broken back link names neither an element nor the sentinel, and slot 0's is `BeforeFirst` |
| FixedLists.FixedList.PrevNext | src/fixed_list.h:43-55 | `--` undoes `++` exactly when the slot reached by `++` has a kept back link |
| Arrays.Array.constructor | src/array.h:31 | every element is value-initialised |
| Arrays.Array.FromArgs | src/array.h:32 | the k arguments (1 <= k <= N) are stored at indices 0 .. k - 1 in order |
| Arrays.Array.Init | src/array.h:131-137 | the arguments overwrite indices index .. index + k - 1; every other element is unchanged |
| Arrays.Array.At | src/array.h:47-54 | aborts exactly when pos >= N; otherwise it is element pos (`check` at src/array.h:139-143) |
| Arrays.Array.Get | src/array.h:39-40 | element pos of the buffer, which `at` returns as well |
| Arrays.Array.Front | src/array.h:60-61 | element 0 |
| Arrays.Array.Back | src/array.h:67-68 | element N - 1 |
| Arrays.Array.Size | src/array.h:102 | N, the number of elements |
| Arrays.Array.MaxSize | src/array.h:107 | equal to `size()` |
| Arrays.Array.Empty | src/array.h:97 | true exactly when N is 0, in which case every `at` aborts |
| Arrays.Array.Fill | src/array.h:113-117 | every one of the N elements becomes v |
| Arrays.ToArray | src/array.h:202-206 | an array with exactly as many elements as arguments, holding them in order |
| Arrays.Equal | src/array.h:149-156 | true exactly when the two arrays hold the same elements |
| Arrays.NotEqual | src/array.h:157-159 | true exactly when the arrays differ |
| Arrays.Less | src/array.h:160-167 | true exactly when every element is less than its partner; vacuously true for N == 0 |
| Arrays.Greater | src/array.h:168-175 | true exactly when every element is greater than its partner |
| Arrays.GreaterEq | src/array.h:176-178 | the negation of `<`: some element is at least its partner |
| Arrays.LessEq | src/array.h:179-181 | the negation of `>`: some element is at most its partner |
| Arrays.BelowAsymmetric | src/array.h:160-175 | on non-empty arrays, `lhs < rhs` excludes `rhs < lhs` and equality |
| Arrays.ElementwiseNotTotal | src/array.h:160-181 | the order is not lexicographic and not total. On [1, 3] and [2, 2] neither `<`, `>` nor `==` holds, so `<=` and `>=` both hold |

## Left out

- `Array::swap` (src/array.h:124-128) is not modelled: it assigns an array and a pointer and would not compile.
- The `swap` templates of src/algorithm.h have empty bodies, so there is nothing to model.
- `get<I>` is compile-time indexing.
- `Array::data()`, `begin()` and `end()` return raw pointers; the model indexes the buffer instead.
- The fixed list's `erase` and `pop_*` are called by its tests, but the header defines no such members.
- The defaulted copy and move operations of `FixedListImpl` copy raw pointers into the other object's storage. That aliasing is not modelled.
- The fixed list's postfix `operator++(int)` (src/fixed_list.h:47-51) returns a copy of the old iterator and is not modelled. Its postfix `operator--(int)` (src/fixed_list.h:56-60) and the intrusive list's postfix `operator++(int)` (src/intrusive_list.h:135-139) return references to locals. The intrusive iterator has no `operator--`. Only the prefix forms are modelled.
- `IntrusiveList`'s `operator==` and `operator!=` (src/intrusive_list.h:260-273) would not compile if instantiated, and are not modelled.
- The `offsetof` / `reinterpret_cast` policy functors that map elements to nodes are pointer arithmetic. They are replaced by the identity bijection on arena indices.
- The compile-time dispatch on `is_integral` is not modelled. An integral pair of arguments goes to the count constructor (`FixedList.Filled`), and anything else to the range constructor (`FixedList.FromRange`).
- Moves and copies of element values are plain assignments.
- `T{}` is a constructor parameter (`zero`).
- `size_t` arithmetic is unbounded `nat`: every count stays within the capacity or the number of nodes, so wrap-around cannot occur.
- `abort()` is the `Abort` outcome of `Array.At`.
- `pre_alloc` ignores its parameter and reads `size_`; every caller passes `size_`, so `FixedList.PreAlloc` takes none.
- Comparisons other than `==` and `!=` are modelled on `int` elements, for which `<` and `>` are the built-in operators.
- IntrusiveLists.NodePool.Next (`next()`, src/intrusive_list.h:99) has no contract of its own. The link it returns is stated by the cycle facts used in `NodeRemoveOdd`.
- IntrusiveLists.NodePool.RemoveIf: when every node matches, it states the count but not that the last erased node is left linked to itself.
- Arrays.Array.FromArgs: states nothing about the elements after the arguments, because the source leaves them uninitialised.
- FixedLists.FixedList.Front / Back / Prev require a non-empty list or a valid iterator, as reading through the sentinel is undefined in the source.
- FixedLists.FixedList.Insert requires, when the list is not full, that pos's back link is not broken. On a list that is not full, inserting before a broken link either hides the new element (`ClearedPushHidden`) or writes the forward link of `storage_[-1]`, which is undefined (`PreAllocRing`); the class does not model those outcomes. On a full list the insert is the no-op returning `end()` whatever pos is, and that is modelled.
- FixedLists.FixedList.InsertRange requires the same of pos, for the same reason, and so do its loop `InsertEach` and its step `Offer`.
- FixedLists.FixedList.PushBack requires that the sentinel's back link is not broken, so it does not model a push after `clear` of a non-empty list (`ClearedPushHidden` does).
- FixedLists.FixedList.PushFront requires, when the list is not full, that `begin()`'s back link is not broken, so it does not model a push at the front of a list that the count or range constructor left with a free slot (`PreAllocRing` shows the write to `storage_[-1]`). On a full list it is the no-op, which is modelled.

## Findings

| source | as written | input that shows it | evidently intended | confidence | as-written member | corrected member |
|---|---|---|---|---|---|---|
| src/fixed_list.h:131-139 | `clear` resets the sentinel's forward link but leaves its back link on the old last slot | `FixedList<int, 2> l(1, 5); l.clear(); l.push_back(7);` then `size() == 1` but `begin() == end()`; with `l(2, 5)` the free chain after the push also runs 1 -> 0 -> sentinel, through the element's slot | `clear` links the sentinel's back link to itself as well, so the pushed element is the whole list | high; not executed | FixedLists.ClearedPushHidden | FixedLists.ClearedPushVisible |
| src/fixed_list.h:191-209 | `init_free` gives slot 0 the back link `&storage_[0 - 1]` and `pre_alloc` never repairs it, so after the count or range constructor slot 0's back link names no slot | `FixedList<int, 2> l(1, 5); l.push_front(7);`: `insert` before `begin()` writes the forward link of `storage_[-1]`, outside the storage | `pre_alloc` sets slot 0's back link to the sentinel when the list is not empty | high; not executed | FixedLists.PreAllocRing | FixedLists.PreAllocFixedRing |
