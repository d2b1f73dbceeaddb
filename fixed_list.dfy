/**
 * The fixed-capacity doubly linked list.
 *
 * A list of capacity N owns N + 1 node slots: slots 0 .. N - 1 carry
 * elements and slot N is the sentinel, whose address is `end()`.  Each slot
 * holds a value and the two links, here three arrays indexed by slot.  Slots
 * not on the list form the free chain, threaded through the forward links
 * from `free` to the sentinel.  With no erase, slots only leave the free
 * chain, in index order, so the list always occupies slots 0 .. size - 1 and
 * `free` is slot `size`.
 *
 * Two back links the code does not keep consistent are described by a set
 * `broken` of slots whose back link is not the node before them: slot 0
 * after the count and range constructors (its back link is `BeforeFirst`),
 * and the sentinel after `clear` of a non-empty list (its back link still
 * names a slot of the old list).  The class `FixedList` keeps this set as
 * a ghost field.  Its `insert` is modelled before slots whose back link is
 * kept; lemmas below show what an insert before a broken link does, and
 * that the evidently intended writes (`PreAllocFixedLinks`,
 * `ClearFixedLinks`) leave no broken link.
 */
module FixedLists {
  import opened Links

  /**
   * `&storage_[i - 1]` with i == 0: the back link `init_free` gives slot 0.
   * On `size_t` the index wraps to `SIZE_MAX`, so the address is undefined;
   * it names no slot.
   */
  const BeforeFirst := -1

  /** The k slots from, from + 1, ..., from + k - 1, in order. */
  function Slots(from: int, k: nat): seq<int> {
    seq(k, i => from + i)
  }

  /** The smaller of a and b. */
  function Min(a: int, b: int): int {
    if a <= b then a else b
  }

  /** s with v placed at position j. */
  function Place<U>(s: seq<U>, j: nat, v: U): seq<U>
    requires j <= |s|
  {
    s[..j] + [v] + s[j..]
  }

  /** The position of pos in s, or |s| when pos is not in s (the sentinel). */
  function PositionOf(s: seq<int>, pos: int): (k: nat)
    ensures k <= |s|
  {
    if pos in s then IndexOf(s, pos) else |s|
  }

  /**
   * The storage of a list of capacity n holding `items` in the slots `live`,
   * with `size` elements and the free chain `size -> size + 1 -> ... -> n`.
   * A broken back link is slot 0's `BeforeFirst` while slot 0 is on the
   * list, or the sentinel's link to an element slot while the list is empty.
   */
  ghost predicate Storage<T>(t: LinkTable, vals: seq<T>, n: int, size: int, live: seq<int>, items: seq<T>, broken: set<int>) {
    && n >= 1
    && |vals| == n + 1 && |t.prev| == n + 1 && |t.post| == n + 1
    && 0 <= size <= n && |live| == size && |items| == size
    && (forall x :: x in live <==> 0 <= x < size)
    && Ring(t, [n] + live, broken)
    && (forall x :: x in broken ==> x == 0 || x == n)
    && (n in broken ==> live == [] && 0 <= t.prev[n] < n)
    && (0 in broken ==> 0 in live && t.prev[0] == BeforeFirst)
    && (forall i :: size <= i < n ==> t.post[i] == i + 1)
    && (forall k :: 0 <= k < size ==> 0 <= live[k] < |vals| && vals[live[k]] == items[k])
  }

  // ---------------------------------------------------------------------------
  // The link writes of the list's operations, as functions on link tables
  // ---------------------------------------------------------------------------

  /**
   * `insert`'s splice of slot x before pos, in the order the code writes:
   * x's back link, the forward link of pos's predecessor, x's forward link,
   * pos's back link.  x ends up between pos's old predecessor and pos.
   */
  function Splice(t: LinkTable, x: int, pos: int): (r: LinkTable)
    requires IsNode(t, x) && IsNode(t, pos) && IsNode(t, t.prev[pos])
    ensures |r.prev| == |t.prev| && |r.post| == |t.post|
    ensures r.post[x] == pos && r.prev[pos] == x
    ensures x != pos ==> r.prev[x] == t.prev[pos]
    ensures x != t.prev[pos] ==> r.post[t.prev[pos]] == x
  {
    var p := t.prev[pos];
    var prev1 := t.prev[x := p];
    var post1 := t.post[p := x];
    var post2 := post1[x := pos];
    var prev2 := prev1[pos := x];
    LinkTable(prev2, post2)
  }

  /** The splice writes no link but the back links of x and pos and the forward links of x and pos's predecessor. */
  lemma SpliceFrame(t: LinkTable, x: int, pos: int, y: int)
    requires IsNode(t, x) && IsNode(t, pos) && IsNode(t, t.prev[pos]) && IsNode(t, y)
    ensures y != x && y != pos ==> Splice(t, x, pos).prev[y] == t.prev[y]
    ensures y != x && y != t.prev[pos] ==> Splice(t, x, pos).post[y] == t.post[y]
  {
  }

  /** For a slot that is neither pos nor pos's predecessor, the splice is the node-level `insert_before`. */
  lemma SpliceIsInsertBefore(t: LinkTable, x: int, pos: int)
    requires IsNode(t, x) && IsNode(t, pos) && IsNode(t, t.prev[pos])
    requires x != pos && x != t.prev[pos]
    ensures Splice(t, x, pos) == InsertBefore(t, x, pos)
  {
    var p := t.prev[pos];
    assert t.post[p := x][x := pos] == t.post[x := pos][p := x];
  }

  /**
   * `init_free`: the element slots form the free chain 0 -> 1 -> ... -> n,
   * each slot i linked back to i - 1, so slot 0 back to `BeforeFirst`; the
   * sentinel is not touched.
   */
  ghost function InitFreeLinks(t: LinkTable, n: nat): (r: LinkTable)
    requires |t.prev| == |t.post| == n + 1
    ensures |r.prev| == |r.post| == n + 1
    ensures n >= 1 ==> r.prev[0] == BeforeFirst && r.post[n - 1] == n
    ensures r.prev[n] == t.prev[n] && r.post[n] == t.post[n]
  {
    LinkTable(
      seq(n + 1, i requires 0 <= i <= n => if i < n then i - 1 else t.prev[n]),
      seq(n + 1, i requires 0 <= i <= n => if i < n then i + 1 else t.post[n]))
  }

  /**
   * `pre_alloc`: close slots 0 .. size - 1 into a ring through the sentinel
   * (slot size - 1 forward to the sentinel, the sentinel back to slot
   * size - 1 and forward to slot 0), or link the sentinel to itself.
   */
  function PreAllocLinks(t: LinkTable, n: nat, size: nat): (r: LinkTable)
    requires |t.prev| == |t.post| == n + 1 && size <= n
    ensures |r.prev| == |r.post| == n + 1
    ensures r.post[n] == (if size > 0 then 0 else n) && r.prev[n] == (if size > 0 then size - 1 else n)
    ensures size > 0 ==> r.post[size - 1] == n && r.prev[0] == t.prev[0]
  {
    if size > 0 then LinkTable(t.prev[n := size - 1], t.post[size - 1 := n][n := 0])
    else LinkTable(t.prev[n := n], t.post[n := n])
  }

  /**
   * `clear`'s link writes: `init_free`, then the sentinel's forward link
   * back to itself; the sentinel's back link keeps its old value.
   */
  ghost function ClearLinks(t: LinkTable, n: nat): (r: LinkTable)
    requires |t.prev| == |t.post| == n + 1
    ensures |r.prev| == |r.post| == n + 1
    ensures r.post[n] == n && r.prev[n] == t.prev[n]
  {
    var u := InitFreeLinks(t, n);
    LinkTable(u.prev, u.post[n := n])
  }

  /**
   * `pre_alloc` as it should be: as `PreAllocLinks`, and slot 0's back link
   * names the sentinel when the list is not empty.
   */
  function PreAllocFixedLinks(t: LinkTable, n: nat, size: nat): (r: LinkTable)
    requires |t.prev| == |t.post| == n + 1 && size <= n
    ensures |r.prev| == |r.post| == n + 1 && r.post == PreAllocLinks(t, n, size).post
    ensures size > 0 ==> r.prev[0] == n
    ensures size == 0 ==> r == PreAllocLinks(t, n, size)
  {
    var u := PreAllocLinks(t, n, size);
    if size > 0 then LinkTable(u.prev[0 := n], u.post) else u
  }

  /** `clear` as it should be: as `ClearLinks`, and the sentinel's back link names the sentinel. */
  ghost function ClearFixedLinks(t: LinkTable, n: nat): (r: LinkTable)
    requires |t.prev| == |t.post| == n + 1
    ensures |r.prev| == |r.post| == n + 1 && r.post == ClearLinks(t, n).post
    ensures r.prev[n] == n
  {
    var u := ClearLinks(t, n);
    LinkTable(u.prev[n := n], u.post)
  }

  /** The links `init_free` and then `pre_alloc` leave, slot by slot. */
  lemma PreAllocAt(t0: LinkTable, n: nat, size: nat, i: int)
    requires |t0.prev| == |t0.post| == n + 1 && 1 <= n && size <= n && 0 <= i <= n
    ensures var t := PreAllocLinks(InitFreeLinks(t0, n), n, size);
      && |t.prev| == |t.post| == n + 1
      && t.post[i] == (if i == n then (if size > 0 then 0 else n) else if i == size - 1 then n else i + 1)
      && t.prev[i] == (if i == n then (if size > 0 then size - 1 else n) else i - 1)
  {
  }

  /** The sentinel followed by slots 0 .. size - 1, position by position. */
  lemma SlotListing(n: int, size: nat, k: int)
    requires 0 <= k <= size
    ensures var c := [n] + Slots(0, size);
      && |c| == size + 1 && c[k] == (if k == 0 then n else k - 1)
      && Succ(c, k) == (if k < size then k else n)
      && Pred(c, k) == (if k == 0 then (if size > 0 then size - 1 else n) else if k == 1 then n else k - 2)
  {
  }

  /** The writes of the two constructors that take elements leave this ring, with slot 0's back link broken. */
  lemma PreAllocRing(t0: LinkTable, n: nat, size: nat)
    requires |t0.prev| == |t0.post| == n + 1 && 1 <= n && size <= n
    ensures var t := PreAllocLinks(InitFreeLinks(t0, n), n, size);
      && |t.prev| == |t.post| == n + 1
      && Ring(t, [n] + Slots(0, size), if size > 0 then {0} else {})
      && (forall i :: size <= i < n ==> t.post[i] == i + 1)
      && (size > 0 ==> t.prev[0] == BeforeFirst && !IsNode(t, t.prev[0]))
  {
    var t := PreAllocLinks(InitFreeLinks(t0, n), n, size);
    var c := [n] + Slots(0, size);
    var broken: set<int> := if size > 0 then {0} else {};
    PreAllocAt(t0, n, size, 0);
    assert forall k :: 1 <= k < |c| ==> c[k] == k - 1;
    forall k | 0 <= k < |c|
      ensures t.post[c[k]] == Succ(c, k)
    {
      SlotListing(n, size, k);
      PreAllocAt(t0, n, size, c[k]);
    }
    forall k | 0 <= k < |c| && c[k] !in broken
      ensures t.prev[c[k]] == Pred(c, k)
    {
      SlotListing(n, size, k);
      PreAllocAt(t0, n, size, c[k]);
    }
    forall i | size <= i < n
      ensures t.post[i] == i + 1
    {
      PreAllocAt(t0, n, size, i);
    }
  }

  /** With slot 0's back link written, the constructors leave a ring with every link kept. */
  lemma PreAllocFixedRing(t0: LinkTable, n: nat, size: nat)
    requires |t0.prev| == |t0.post| == n + 1 && 1 <= n && size <= n
    ensures var t := PreAllocFixedLinks(InitFreeLinks(t0, n), n, size);
      && |t.prev| == |t.post| == n + 1
      && Ring(t, [n] + Slots(0, size), {})
      && (forall i :: size <= i < n ==> t.post[i] == i + 1)
  {
    var u := PreAllocLinks(InitFreeLinks(t0, n), n, size);
    var t := PreAllocFixedLinks(InitFreeLinks(t0, n), n, size);
    var c := [n] + Slots(0, size);
    PreAllocRing(t0, n, size);
    forall k | 0 <= k < |c|
      ensures t.prev[c[k]] == Pred(c, k)
    {
      SlotListing(n, size, k);
    }
  }

  /**
   * `clear` of a non-empty list leaves the sentinel's back link on the old
   * last slot, so the `push_back` that follows splices slot 0 in after that
   * slot and never points the sentinel's forward link at it: `begin()` stays
   * `end()` with one element stored.
   */
  lemma ClearedPushHidden<T>(t: LinkTable, vals: seq<T>, n: int, size: int, live: seq<int>, items: seq<T>, broken: set<int>)
    requires Storage(t, vals, n, size, live, items, broken) && size > 0
    ensures var u := ClearLinks(t, n);
      && IsNode(u, 0) && IsNode(u, n) && IsNode(u, u.prev[n])
      && u.prev[n] == live[size - 1] && u.prev[n] != n
      && Splice(u, 0, n).post[n] == n
      && Splice(u, 0, n).prev[n] == 0
  {
    RingEnds(t, n, live, broken);
  }

  /**
   * The same `push_back` also corrupts the free chain when the old last
   * slot l is not slot 0: `insert` takes slot 0 off the chain, so the free
   * head becomes slot 1, and the splice points l's forward link at slot 0.
   * The chain then runs 1 -> ... -> l -> 0 -> sentinel.  It passes through
   * the slot that now holds the element, and slots l + 1 .. n - 1 are no
   * longer reached from it.
   */
  lemma ClearedPushFreeChain<T>(t: LinkTable, vals: seq<T>, n: int, size: int, live: seq<int>, items: seq<T>, broken: set<int>)
    requires Storage(t, vals, n, size, live, items, broken) && size > 0 && live[size - 1] != 0
    ensures var u := ClearLinks(t, n); var l := live[size - 1];
      && 0 < l < n && u.prev[n] == l && u.post[0] == 1
      && Splice(u, 0, n).post[l] == 0 && Splice(u, 0, n).post[0] == n
      && forall i :: 1 <= i < l ==> Splice(u, 0, n).post[i] == i + 1
  {
    RingEnds(t, n, live, broken);
    var u := ClearLinks(t, n);
    forall i | 1 <= i < live[size - 1] ensures Splice(u, 0, n).post[i] == i + 1 {
      SpliceFrame(u, 0, n, i);
    }
  }

  /**
   * The storage the count and range constructors leave: items in slots
   * 0 .. size - 1, in order, the rest free, and slot 0's back link broken.
   */
  lemma PreAllocStorage<T>(t0: LinkTable, vals: seq<T>, n: nat, size: nat, items: seq<T>)
    requires |t0.prev| == |t0.post| == n + 1 && 1 <= n && size <= n
    requires |vals| == n + 1 && |items| == size && forall k :: 0 <= k < size ==> vals[k] == items[k]
    ensures Storage(PreAllocLinks(InitFreeLinks(t0, n), n, size), vals, n, size, Slots(0, size), items, if size > 0 then {0} else {})
  {
    PreAllocRing(t0, n, size);
    SlotsMembers(0, size);
  }

  /**
   * After `clear`'s writes the storage is empty and every slot is free; the
   * sentinel's back link is kept only when it already named the sentinel.
   */
  lemma ClearedStorage<T>(t: LinkTable, vals: seq<T>, n: nat, broken: set<int>)
    requires n >= 1 && |vals| == n + 1 && |t.prev| == n + 1 && |t.post| == n + 1
    requires (broken == {n} && 0 <= t.prev[n] < n) || (broken == {} && t.prev[n] == n)
    ensures Storage(ClearLinks(t, n), vals, n, 0, [], [], broken)
  {
    var u := ClearLinks(t, n);
    assert u.post[n] == n;
    assert [n] + [] == [n];
  }

  /** With the sentinel's back link reset, the element pushed after `clear` is the whole list. */
  lemma ClearedPushVisible<T>(t: LinkTable, vals: seq<T>, n: int, size: int, live: seq<int>, items: seq<T>, broken: set<int>)
    requires Storage(t, vals, n, size, live, items, broken)
    ensures var u := ClearFixedLinks(t, n);
      && IsNode(u, 0) && IsNode(u, n) && IsNode(u, u.prev[n])
      && Ring(Splice(u, 0, n), [n, 0], {})
  {
    var u := ClearFixedLinks(t, n);
    assert Ring(u, [n] + [], {});
    InsertRing(u, n, [], {}, n, 0);
    assert [n] + Place([], 0, 0) == [n, 0];
  }

  /** The slots from .. from + k - 1 are exactly the members of Slots(from, k). */
  lemma SlotsMembers(from: int, k: nat)
    ensures forall x :: x in Slots(from, k) <==> from <= x < from + k
  {
    forall x | from <= x < from + k
      ensures x in Slots(from, k)
    {
      assert Slots(from, k)[x - from] == x;
    }
  }

  // ---------------------------------------------------------------------------
  // insert
  // ---------------------------------------------------------------------------

  /**
   * `insert` of v before pos into a list with a free slot: the free head,
   * slot `size`, takes v and is spliced in before pos, and the storage is
   * that of the list with v placed at pos's position (the end for the
   * sentinel); the free chain now starts at slot size + 1.
   */
  lemma InsertStorage<T>(t: LinkTable, vals: seq<T>, n: int, size: int, live: seq<int>, items: seq<T>, broken: set<int>, pos: int, v: T)
    requires Storage(t, vals, n, size, live, items, broken)
    requires size < n && (pos == n || pos in live) && pos !in broken
    ensures IsNode(t, size) && IsNode(t, pos) && IsNode(t, t.prev[pos])
    ensures t.post[size] == size + 1
    ensures var j := PositionOf(live, pos);
      Storage(Splice(t, size, pos), vals[size := v], n, size + 1, Place(live, j, size), Place(items, j, v), broken)
  {
    var x := size;
    var j := PositionOf(live, pos);
    InsertRing(t, n, live, broken, pos, x);
    PlaceBeforeMembers(live, pos, x);
    PlaceValues(vals, live, items, j, x, v);
    var u := Splice(t, x, pos);
    forall i | size + 1 <= i < n
      ensures u.post[i] == i + 1
    {
      SpliceFrame(t, x, pos, i);
    }
    if 0 in broken {
      assert 0 in live && x != 0;
      SpliceFrame(t, x, pos, 0);
    }
  }

  /** The splice keeps the ring, with the new slot at pos's position; only pos's predecessor and x change forward links. */
  lemma InsertRing(t: LinkTable, n: int, live: seq<int>, broken: set<int>, pos: int, x: int)
    requires Ring(t, [n] + live, broken) && (pos == n || pos in live) && pos !in broken
    requires IsNode(t, x) && x != n && x !in live
    ensures IsNode(t, pos) && IsNode(t, t.prev[pos])
    ensures t.prev[pos] == n || t.prev[pos] in live
    ensures PlaceBefore(live, pos, x) == Place(live, PositionOf(live, pos), x)
    ensures Ring(Splice(t, x, pos), [n] + Place(live, PositionOf(live, pos), x), broken)
  {
    var c := [n] + live;
    RingEnds(t, n, live, broken);
    var jj := if pos == n then |live| + 1 else IndexOf(live, pos) + 1;
    PlacedAt(n, live, pos, x, jj);
    if pos == n {
      assert t.prev[pos] == if live == [] then n else live[|live| - 1];
    } else {
      RingBefore(t, n, live, broken, pos);
    }
    PlaceBeforeIsPlace(live, pos, x);
    InsertBeforeLinks(t, c, broken, jj, x);
    SpliceIsInsertBefore(t, x, pos);
  }

  /**
   * Placing x at pos's position moves pos one place on and keeps it in the
   * list: successive inserts before pos land in order before it.
   */
  lemma PlaceKeeps(s: seq<int>, pos: int, x: int)
    requires x != pos
    ensures pos in s ==> pos in Place(s, PositionOf(s, pos), x)
    ensures PositionOf(Place(s, PositionOf(s, pos), x), pos) == PositionOf(s, pos) + 1
  {
    var m := PositionOf(s, pos);
    var r := Place(s, m, x);
    if pos in s {
      if pos in s[..m] {
        var i :| 0 <= i < m && s[..m][i] == pos;
        IndexOfFirst(s, pos, i);
      }
      assert r == (s[..m] + [x]) + ([pos] + s[m + 1..]);
      IndexOfSplit(s[..m] + [x], pos, s[m + 1..]);
    } else {
      assert pos !in r;
    }
  }

  /** Placing v at the end of the middle part of pre + mid + post. */
  lemma Spread<U>(pre: seq<U>, mid: seq<U>, post: seq<U>, v: U)
    ensures Place(pre + mid + post, |pre| + |mid|, v) == pre + (mid + [v]) + post
  {
    var s := pre + mid + post;
    assert s[..|pre| + |mid|] == pre + mid;
    assert s[|pre| + |mid|..] == post;
  }

  /** Placing before pos is placing at pos's position. */
  lemma PlaceBeforeIsPlace(s: seq<int>, pos: int, x: int)
    ensures PlaceBefore(s, pos, x) == Place(s, PositionOf(s, pos), x)
  {
    if pos !in s {
      assert s[..|s|] == s && s[|s|..] == [];
    }
  }

  /** Writing v into a slot that holds no element, and placing both at position j, keeps slots and items in step. */
  lemma PlaceValues<T>(vals: seq<T>, live: seq<int>, items: seq<T>, j: nat, x: int, v: T)
    requires |live| == |items| && j <= |live| && 0 <= x < |vals| && x !in live
    requires forall k :: 0 <= k < |live| ==> 0 <= live[k] < |vals| && vals[live[k]] == items[k]
    ensures var live', items' := Place(live, j, x), Place(items, j, v);
      forall k :: 0 <= k < |live'| ==> 0 <= live'[k] < |vals| && vals[x := v][live'[k]] == items'[k]
  {
    var live', items' := Place(live, j, x), Place(items, j, v);
    forall k | 0 <= k < |live'|
      ensures 0 <= live'[k] < |vals| && vals[x := v][live'[k]] == items'[k]
    {
      if k < j {
        assert live'[k] == live[k] && items'[k] == items[k];
      } else if k == j {
        assert live'[k] == x && items'[k] == v;
      } else {
        assert live'[k] == live[k - 1] && items'[k] == items[k - 1];
      }
    }
  }

  // ---------------------------------------------------------------------------
  // The ring seen from the sentinel
  // ---------------------------------------------------------------------------

  /** The links of the node at position k of a ring. */
  lemma RingAt(t: LinkTable, c: seq<int>, broken: set<int>, k: int)
    requires Ring(t, c, broken) && 0 <= k < |c|
    ensures IsNode(t, c[k]) && t.post[c[k]] == Succ(c, k)
    ensures c[k] !in broken ==> t.prev[c[k]] == Pred(c, k)
  {
  }

  /** The forward link of an element names the element after it, or the sentinel. */
  lemma RingAfter(t: LinkTable, n: int, live: seq<int>, broken: set<int>, x: int)
    requires Ring(t, [n] + live, broken) && x in live
    ensures IsNode(t, x) && t.post[x] == After(n, live, x)
  {
    var c := [n] + live;
    var k := IndexOf(live, x);
    assert c[k + 1] == x;
    RingAt(t, c, broken, k + 1);
    if k + 1 < |live| {
      assert Succ(c, k + 1) == c[k + 2] == live[k + 1];
    }
  }

  /** The forward link of the element at position i names the next element, or the sentinel after the last. */
  lemma RingNext(t: LinkTable, n: int, live: seq<int>, broken: set<int>, i: int)
    requires Ring(t, [n] + live, broken) && 0 <= i < |live|
    ensures IsNode(t, live[i]) && t.post[live[i]] == if i + 1 < |live| then live[i + 1] else n
  {
    var c := [n] + live;
    assert c[i + 1] == live[i];
    RingAt(t, c, broken, i + 1);
    assert Succ(c, i + 1) == if i + 1 < |live| then live[i + 1] else n by {
      if i + 1 < |live| {
        assert c[i + 2] == live[i + 1];
      }
    }
  }

  /** The back link of an element whose link is kept names the element before it, or the sentinel. */
  lemma RingBefore(t: LinkTable, n: int, live: seq<int>, broken: set<int>, x: int)
    requires Ring(t, [n] + live, broken) && x in live && x !in broken
    ensures IsNode(t, x) && t.prev[x] == Before(n, live, x)
  {
    var c := [n] + live;
    var k := IndexOf(live, x);
    assert c[k + 1] == x;
    RingAt(t, c, broken, k + 1);
    assert Pred(c, k + 1) == c[k];
    if k > 0 {
      assert c[k] == live[k - 1];
    }
  }

  /** The back link of the sentinel or of an element: the node before it, unless the link is broken. */
  lemma BackLink(t: LinkTable, n: int, live: seq<int>, broken: set<int>, it: int)
    requires Ring(t, [n] + live, broken) && (it == n || it in live)
    ensures IsNode(t, it)
    ensures it in live && it !in broken ==> t.prev[it] == Before(n, live, it)
  {
    var c := [n] + live;
    if it in live {
      var k := IndexOf(live, it);
      assert c[k + 1] == it && Pred(c, k + 1) == Before(n, live, it) by {
        if k > 0 {
          assert c[k] == live[k - 1];
        }
      }
      RingAt(t, c, broken, k + 1);
    } else {
      RingAt(t, c, broken, 0);
    }
  }

  /** Stepping forward and then back returns to the start, in a list without repetitions. */
  lemma {:induction false} BeforeAfter(e: int, s: seq<int>, x: int)
    requires Distinct([e] + s) && x in s
    ensures After(e, s, x) in s ==> Before(e, s, After(e, s, x)) == x
    ensures After(e, s, x) == e <==> x == s[|s| - 1]
  {
    var c := [e] + s;
    var k := IndexOf(s, x);
    DistinctApart(c, 0);
    assert c[1..] == s;
    if k + 1 < |s| {
      assert c[k + 2] == s[k + 1];
      DistinctApart(c, k + 2);
      assert c[..k + 2] == [e] + s[..k + 1];
      IndexOfFirstAt(s, k + 1);
    }
  }

  /** In a list without repetitions, s[k] is found at position k. */
  lemma IndexOfFirstAt(s: seq<int>, k: int)
    requires 0 <= k < |s| && s[k] !in s[..k]
    ensures IndexOf(s, s[k]) == k
  {
    var m := IndexOf(s, s[k]);
    if m > k {
      IndexOfFirst(s, s[k], k);
    }
  }

  /** IndexOf finds the first occurrence. */
  lemma {:induction false} IndexOfFirst(s: seq<int>, x: int, i: int)
    requires x in s && 0 <= i < |s| && s[i] == x
    ensures IndexOf(s, x) <= i
  {
    if s[0] != x {
      assert s[1..][i - 1] == x;
      IndexOfFirst(s[1..], x, i - 1);
    }
  }

  // ---------------------------------------------------------------------------
  // The list
  // ---------------------------------------------------------------------------

  /**
   * `FixedListImpl<T, N>` with N = `n`: the node storage as three arrays of
   * n + 1 slots (values, back links, forward links), the element count and
   * the head of the free chain.  `zero` is the value-initialised `T{}`.
   * The ghost fields name the slots on the list, in order, the values they
   * hold, and the slots whose back link the code left broken.
   */
  class FixedList<T> {
    const n: nat
    const zero: T
    const value: array<T>
    const prev: array<int>
    const post: array<int>
    var size: nat
    var free: int
    ghost var live: seq<int>
    ghost var items: seq<T>
    ghost var broken: set<int>

    /** The two link arrays as a link table. */
    function Table(): LinkTable
      reads prev, post
    {
      LinkTable(prev[..], post[..])
    }

    ghost predicate Valid()
      reads this, value, prev, post
    {
      && value as object != prev as object && value as object != post as object && prev != post
      && free == size
      && Storage(Table(), value[..], n, size, live, items, broken)
    }

    /** `front()`: the value of the slot after the sentinel; undefined on an empty list. */
    function Front(): (r: T)
      requires Valid() && size > 0
      reads this, value, prev, post
      ensures r == items[0]
    {
      RingEnds(Table(), n, live, broken);
      value[post[n]]
    }

    /** `back()`: the value of the slot before the sentinel; undefined on an empty list. */
    function Back(): (r: T)
      requires Valid() && size > 0
      reads this, value, prev, post
      ensures r == items[|items| - 1]
    {
      RingEnds(Table(), n, live, broken);
      value[prev[n]]
    }

    /** `begin()`: the first element's slot, or the sentinel when the list is empty. */
    function Begin(): (r: int)
      requires Valid()
      reads this, value, prev, post
      ensures r == if live == [] then n else live[0]
    {
      RingEnds(Table(), n, live, broken);
      post[n]
    }

    /** `end()`: the sentinel, which holds no element and is where `begin()` is exactly when the list is empty. */
    function End(): (r: int)
      requires Valid()
      reads this, value, prev, post
      ensures r !in live && 0 <= r < value.Length
      ensures r == Begin() <==> items == []
    {
      RingEnds(Table(), n, live, broken);
      n
    }

    function Empty(): (r: bool)
      requires Valid()
      reads this, value, prev, post
      ensures r <==> items == []
    {
      size == 0
    }

    function Size(): (r: nat)
      requires Valid()
      reads this, value, prev, post
      ensures r == |items|
    {
      size
    }

    /** `max_size()`: the capacity, which bounds the element count. */
    function MaxSize(): (r: nat)
      requires Valid()
      reads this, value, prev, post
      ensures |items| <= r && r + 1 == value.Length
    {
      n
    }

    /** `++it`: the element after it, or the sentinel after the last; from the sentinel, `begin()`. */
    function Next(it: int): (r: int)
      requires Valid() && (it == n || it in live)
      reads this, value, prev, post
      ensures r == n || r in live
      ensures it in live ==> r == After(n, live, it)
      ensures it == n ==> r == Begin()
    {
      RingEnds(Table(), n, live, broken);
      if it != n then RingAfter(Table(), n, live, broken, it); post[it] else post[it]
    }

    /**
     * `--it`: the element before it, or the sentinel before the first; from
     * the sentinel, the last element.  From a slot whose back link is broken
     * it leaves the list: to `BeforeFirst` from slot 0 after the count and
     * range constructors, to a free slot from the sentinel after `clear`.
     */
    function Prev(it: int): (r: int)
      requires Valid() && (it == n || it in live)
      reads this, value, prev, post
      ensures it !in broken ==> r == n || r in live
      ensures it in live && it !in broken ==> r == Before(n, live, it)
      ensures it == n && it !in broken ==> r == if live == [] then n else live[|live| - 1]
      ensures it in broken ==> r != n && r !in live
      ensures it == 0 && it in broken ==> r == BeforeFirst
    {
      RingEnds(Table(), n, live, broken);
      BackLink(Table(), n, live, broken, it);
      prev[it]
    }

    /** `--` undoes `++` on the list, the sentinel included, exactly where `++` lands on a slot whose back link is kept. */
    lemma PrevNext(it: int)
      requires Valid() && (it == n || it in live)
      ensures Next(it) == n || Next(it) in live
      ensures Prev(Next(it)) == it <==> Next(it) !in broken
    {
      RingEnds(Table(), n, live, broken);
      if it in live {
        BeforeAfter(n, live, it);
      } else if live != [] {
        IndexOfFirstAt(live, 0);
      }
    }

    /** The default constructor: every slot free, the sentinel linked to itself. */
    constructor (capacity: nat, zero: T)
      requires capacity >= 1
      ensures Valid() && fresh(value) && fresh(prev) && fresh(post)
      ensures n == capacity && items == [] && broken == {} && Begin() == End()
    {
      n := capacity;
      this.zero := zero;
      value := new T[capacity + 1](_ => zero);
      prev := new int[capacity + 1](_ => Null);
      post := new int[capacity + 1](_ => Null);
      size := 0;
      free := 0;
      new;
      InitFree();
      prev[n] := n;
      post[n] := n;
      live := [];
      items := [];
      broken := {};
    }

    /** The count constructor: `count` copies of v in slots 0 .. count - 1. */
    constructor Filled(capacity: nat, count: nat, v: T, zero: T)
      requires 1 <= capacity && count <= capacity
      ensures Valid() && fresh(value) && fresh(prev) && fresh(post)
      ensures n == capacity && items == seq(count, _ => v)
      ensures broken == if count > 0 then {0} else {}
    {
      n := capacity;
      this.zero := zero;
      value := new T[capacity + 1](_ => zero);
      prev := new int[capacity + 1](_ => Null);
      post := new int[capacity + 1](_ => Null);
      size := count;
      new;
      ghost var t0 := Table();
      InitFree();
      ghost var t1 := Table();
      var i := 0;
      while i < count
        invariant 0 <= i <= count && size == count && Table() == t1
        invariant forall k :: 0 <= k < i ==> value[k] == v
      {
        value[i] := v;
        i := i + 1;
      }
      PreAlloc(t0);
      assert items == seq(count, _ => v);
    }

    /** The range constructor: the elements of `elems`, in order, in slots 0 .. |elems| - 1. */
    constructor FromRange(capacity: nat, elems: seq<T>, zero: T)
      requires 1 <= capacity && |elems| <= capacity
      ensures Valid() && fresh(value) && fresh(prev) && fresh(post)
      ensures n == capacity && items == elems
      ensures broken == if elems != [] then {0} else {}
    {
      n := capacity;
      this.zero := zero;
      value := new T[capacity + 1](_ => zero);
      prev := new int[capacity + 1](_ => Null);
      post := new int[capacity + 1](_ => Null);
      size := 0;
      new;
      ghost var t0 := Table();
      InitFree();
      ghost var t1 := Table();
      while size < |elems|
        invariant size <= |elems| && Table() == t1
        invariant forall k :: 0 <= k < size ==> value[k] == elems[k]
      {
        value[size] := elems[size];
        size := size + 1;
      }
      PreAlloc(t0);
      assert items == elems;
    }

    /** `init_free`: chain every element slot forward to the next and back to the one before. */
    method InitFree()
      requires prev.Length == n + 1 && post.Length == n + 1 && prev != post
      modifies prev, post
      ensures Table() == InitFreeLinks(old(Table()), n)
    {
      var i := 0;
      while i < n
        invariant 0 <= i <= n
        invariant forall k :: 0 <= k < i ==> post[k] == k + 1 && prev[k] == k - 1
        invariant forall k :: i <= k <= n ==> post[k] == old(post[k]) && prev[k] == old(prev[k])
      {
        post[i] := i + 1;
        prev[i] := i - 1;
        i := i + 1;
      }
    }

    /**
     * `pre_alloc`, on the links `init_free` left (t0 is the table before
     * `init_free`): close slots 0 .. size - 1 into a ring through the
     * sentinel and start the free chain at slot `size`.  The list is then
     * the values of slots 0 .. size - 1, in order; slot 0's back link is not
     * written, so it is broken when the list is not empty.
     */
    method PreAlloc(ghost t0: LinkTable)
      requires value as object != prev as object && value as object != post as object && prev != post
      requires 1 <= n && size <= n && value.Length == n + 1 && |t0.prev| == |t0.post| == n + 1
      requires Table() == InitFreeLinks(t0, n)
      modifies this`free, this`live, this`items, this`broken, prev, post
      ensures Table() == PreAllocLinks(old(Table()), n, size) && free == size
      ensures Valid() && live == Slots(0, size) && items == value[..size]
      ensures broken == if size > 0 then {0} else {}
    {
      if size > 0 {
        post[size - 1] := n;
        prev[n] := size - 1;
        post[n] := 0;
      } else {
        prev[n] := n;
        post[n] := n;
      }
      free := size;
      live := Slots(0, size);
      items := value[..size];
      broken := if size > 0 then {0} else {};
      assert Table() == PreAllocLinks(InitFreeLinks(t0, n), n, size);
      PreAllocStorage(t0, value[..], n, size, items);
    }

    /**
     * `insert(pos, v)`: when the free chain is empty, nothing changes and the
     * result is `end()`; otherwise the free head takes v and is spliced in
     * before pos, and the result is that slot.  When the list is not full,
     * pos's back link must be kept.
     */
    method Insert(pos: int, v: T) returns (r: int)
      requires Valid() && (pos == n || pos in live) && (size < n ==> pos !in broken)
      modifies this, value, prev, post
      ensures Valid() && broken == old(broken)
      ensures old(size) == n ==>
        && r == n && size == old(size) && live == old(live) && items == old(items)
        && Table() == old(Table()) && value[..] == old(value[..])
      ensures old(size) < n ==> var j := PositionOf(old(live), pos);
        && r == old(size) && size == old(size) + 1
        && live == Place(old(live), j, r) && items == Place(old(items), j, v)
        && IsNode(old(Table()), pos) && IsNode(old(Table()), old(Table()).prev[pos])
        && Table() == Splice(old(Table()), r, pos) && value[..] == old(value[..])[r := v]
    {
      if free == n {
        return n;
      }
      ghost var t, j := Table(), PositionOf(live, pos);
      InsertStorage(t, value[..], n, size, live, items, broken, pos, v);
      value[free] := v;
      var current := free;
      free := post[free];
      prev[current] := prev[pos];
      assert prev[..] == t.prev[current := t.prev[pos]];
      post[prev[pos]] := current;
      assert post[..] == t.post[t.prev[pos] := current];
      post[current] := pos;
      prev[pos] := current;
      assert Table() == Splice(t, current, pos);
      size := size + 1;
      live := Place(live, j, current);
      items := Place(items, j, v);
      r := current;
    }
  
    /**
     * `insert(pos, first, last)`: the elements of `elems` are inserted one by
     * one before pos, so those that fit land in order before it.  The result
     * is pos for an empty range, else what the first insert returned.
     */
    method InsertRange(pos: int, elems: seq<T>) returns (first: int)
      requires Valid() && (pos == n || pos in live) && (size < n ==> pos !in broken)
      modifies this, value, prev, post
      ensures Valid() && broken == old(broken)
      ensures var j, k := PositionOf(old(live), pos), Min(|elems|, n - old(size));
        && size == old(size) + k
        && items == old(items)[..j] + elems[..k] + old(items)[j..]
        && live == old(live)[..j] + Slots(old(size), k) + old(live)[j..]
      ensures first == if elems == [] then pos else if old(size) == n then n else old(size)
    {
      first := pos;
      ghost var s0, live0, items0 := size, live, items;
      ghost var j := PositionOf(live, pos);
      RangeStart(n, pos, live0, items0, s0, elems);
      if elems != [] {
        ghost var next;
        first, next := Offer(pos, elems, 0, live0, items0, s0, j);
        InsertEach(pos, elems, 1, live0, items0, s0, j);
      } else {
        RangeDone(n, pos, live0, items0, s0, j, elems, live, items, size);
      }
    }

    /**
     * The loop of `insert(pos, first, last)`: elems[i..] are offered to
     * `insert` before pos one by one, taking the range state from i elements
     * offered to all of them.
     */
    method InsertEach(pos: int, elems: seq<T>, i: nat, ghost live0: seq<int>, ghost items0: seq<T>, ghost s0: int, ghost j: int)
      requires i <= |elems| && Valid() && (pos == n || pos in live) && (size < n ==> pos !in broken)
      requires Ranged(n, pos, live0, items0, s0, j, elems, i, live, items, size)
      modifies this, value, prev, post
      ensures broken == old(broken)
      ensures Valid() && var k := Min(|elems|, n - s0);
        && size == s0 + k
        && items == items0[..j] + elems[..k] + items0[j..]
        && live == live0[..j] + Slots(s0, k) + live0[j..]
    {
      var i := i;
      while i < |elems|
        invariant i <= |elems| && Valid() && (pos == n || pos in live) && broken == old(broken)
        invariant size < n ==> pos !in broken
        invariant Ranged(n, pos, live0, items0, s0, j, elems, i, live, items, size)
      {
        var _, next := Offer(pos, elems, i, live0, items0, s0, j);
        i := i + 1;
        assert i == next;
      }
      RangeDone(n, pos, live0, items0, s0, j, elems, live, items, size);
    }

    /** `insert(pos, elems[i])` within a range insert: the range state moves from i elements offered to i + 1. */
    method Offer(pos: int, elems: seq<T>, i: nat, ghost live0: seq<int>, ghost items0: seq<T>, ghost s0: int, ghost j: int)
        returns (r: int, ghost next: nat)
      requires i < |elems| && Valid() && (pos == n || pos in live) && (size < n ==> pos !in broken)
      requires Ranged(n, pos, live0, items0, s0, j, elems, i, live, items, size)
      modifies this, value, prev, post
      ensures Valid() && (pos == n || pos in live) && broken == old(broken)
      ensures next == i + 1 && Ranged(n, pos, live0, items0, s0, j, elems, next, live, items, size)
      ensures r == if old(size) == n then n else old(size)
      ensures size < n ==> old(size) < n
    {
      next := i + 1;
      ghost var l, its, sz := live, items, size;
      FreeSlot(Table(), value[..], n, size, live, items, broken);
      r := Insert(pos, elems[i]);
      RangeStep(n, pos, live0, items0, s0, j, elems, i, l, its, sz, live, items, size);
    }

    /** `push_back(v)`: v becomes the last element, unless the list is full; the sentinel's back link must be kept. */
    method PushBack(v: T)
      requires Valid() && n !in broken
      modifies this, value, prev, post
      ensures Valid() && broken == old(broken)
      ensures items == if old(size) < n then old(items) + [v] else old(items)
    {
      ghost var its := items;
      var _ := Insert(End(), v);
      assert its[..|its|] == its && its[|its|..] == [];
    }

    /** `push_front(v)`: v becomes the first element, unless the list is full; when it is not full, `begin()`'s back link must be kept. */
    method PushFront(v: T)
      requires Valid() && (size < n ==> Begin() !in broken)
      modifies this, value, prev, post
      ensures Valid() && broken == old(broken)
      ensures items == if old(size) < n then [v] + old(items) else old(items)
    {
      ghost var l, its := live, items;
      if l != [] {
        IndexOfFirstAt(l, 0);
      }
      var _ := Insert(Begin(), v);
      assert its[..0] == [] && its[0..] == its;
    }

    /**
     * `clear()`: every element's value is reset to `T{}`, the free chain is
     * rebuilt over all element slots and the sentinel's forward link names
     * the sentinel.  Its back link is not reset, so after clearing a
     * non-empty list it is broken.
     */
    method Clear()
      requires Valid()
      modifies this, value, prev, post
      ensures Valid() && size == 0 && items == []
      ensures broken == if old(size) > 0 || n in old(broken) then {n} else {}
      ensures Table() == ClearLinks(old(Table()), n)
      ensures forall x :: 0 <= x < value.Length ==> value[x] == if x < old(size) then zero else old(value[x])
    {
      ghost var t0, live0, broken0 := Table(), live, broken;
      RingEnds(t0, n, live0, broken0);
      ResetValues();
      free := 0;
      size := 0;
      live := [];
      items := [];
      broken := if |live0| > 0 || n in broken0 then {n} else {};
      if |live0| > 0 {
        assert live0[|live0| - 1] in live0;
      }
      InitFree();
      post[n] := n;
      assert Table() == ClearLinks(t0, n) && prev[n] == t0.prev[n];
      ClearedStorage(t0, value[..], n, broken);
    }

    /** The loop of `clear()`: from `begin()` to `end()`, each element's value becomes `T{}`. */
    method ResetValues()
      requires Valid()
      modifies value
      ensures forall x :: 0 <= x < value.Length ==> value[x] == if x in live then zero else old(value[x])
    {
      ghost var t := Table();
      RingEnds(t, n, live, broken);
      var it := Begin();
      ghost var i := 0;
      while it != n
        invariant 0 <= i <= |live| && it == if i < |live| then live[i] else n
        invariant forall x :: 0 <= x < value.Length ==> value[x] == if x in live[..i] then zero else old(value[x])
        decreases |live| - i
      {
        RingNext(t, n, live, broken, i);
        value[it] := zero;
        assert live[..i + 1] == live[..i] + [live[i]];
        it := post[it];
        i := i + 1;
      }
      assert live[..i] == live;
    }
  }

  /**
   * `FixedList<int, 2> l(2, 5); l.push_front(7);`: the list is full, so the
   * push changes nothing, although slot 0's back link is broken.
   */
  method FullPushFront() returns (size: nat, front: int, back: int)
    ensures size == 2 && front == 5 && back == 5
  {
    var l := new FixedList<int>.Filled(2, 2, 5, 0);
    l.PushFront(7);
    size, front, back := l.Size(), l.Front(), l.Back();
  }

  /**
   * The state after the first i elements of a range were offered to
   * `insert` before pos: those that fit, k of them, sit in slots
   * s0 .. s0 + k - 1 at positions j .. j + k - 1, and pos follows them.
   */
  ghost predicate Ranged<T>(n: int, pos: int, live0: seq<int>, items0: seq<T>, s0: int, j: int, elems: seq<T>, i: int,
                            live: seq<int>, items: seq<T>, size: int)
  {
    var k := Min(i, n - s0);
    && 0 <= j <= |live0| && j <= |items0| && 0 <= k <= i <= |elems|
    && size == s0 + k && PositionOf(live, pos) == j + k
    && items == items0[..j] + elems[..k] + items0[j..]
    && live == live0[..j] + Slots(s0, k) + live0[j..]
  }

  /** The free head holds no element, and the count is within the capacity. */
  lemma FreeSlot<T>(t: LinkTable, vals: seq<T>, n: int, size: int, live: seq<int>, items: seq<T>, broken: set<int>)
    requires Storage(t, vals, n, size, live, items, broken)
    ensures size !in live && size <= n
  {
  }

  lemma RangeStart<T>(n: int, pos: int, live0: seq<int>, items0: seq<T>, s0: int, elems: seq<T>)
    requires |live0| == |items0| && s0 <= n
    ensures Ranged(n, pos, live0, items0, s0, PositionOf(live0, pos), elems, 0, live0, items0, s0)
  {
    var j := PositionOf(live0, pos);
    assert items0 == items0[..j] + elems[..0] + items0[j..];
    assert live0 == live0[..j] + Slots(s0, 0) + live0[j..];
  }

  /** Once every element of the range was offered, the range state is what `insert(pos, first, last)` leaves. */
  lemma RangeDone<T>(n: int, pos: int, live0: seq<int>, items0: seq<T>, s0: int, j: int, elems: seq<T>,
                     live: seq<int>, items: seq<T>, size: int)
    requires Ranged(n, pos, live0, items0, s0, j, elems, |elems|, live, items, size)
    ensures var k := Min(|elems|, n - s0);
      && size == s0 + k
      && items == items0[..j] + elems[..k] + items0[j..]
      && live == live0[..j] + Slots(s0, k) + live0[j..]
  {
  }

  /** One `insert` of elems[i] before pos, full or not, takes the range state from i to i + 1 elements offered. */
  lemma RangeStep<T>(n: int, pos: int, live0: seq<int>, items0: seq<T>, s0: int, j: int, elems: seq<T>, i: int,
                     l: seq<int>, its: seq<T>, sz: int, l': seq<int>, its': seq<T>, sz': int)
    requires Ranged(n, pos, live0, items0, s0, j, elems, i, l, its, sz) && i < |elems|
    requires sz <= n && sz !in l && (pos == n || pos in l)
    requires sz == n ==> l' == l && its' == its && sz' == sz
    requires sz < n ==> var m := PositionOf(l, pos);
      l' == Place(l, m, sz) && its' == Place(its, m, elems[i]) && sz' == sz + 1
    ensures Ranged(n, pos, live0, items0, s0, j, elems, i + 1, l', its', sz')
    ensures pos == n || pos in l'
  {
    if sz < n {
      PlaceKeeps(l, pos, sz);
      Spread(live0[..j], Slots(s0, i), live0[j..], s0 + i);
      Spread(items0[..j], elems[..i], items0[j..], elems[i]);
      assert Slots(s0, i) + [s0 + i] == Slots(s0, i + 1);
      assert elems[..i] + [elems[i]] == elems[..i + 1];
    }
  }
}
