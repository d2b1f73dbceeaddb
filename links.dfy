/**
 * The link discipline shared by both lists of the library: nodes are named by
 * their index in an arena, and every node carries a back link (`prev`) and a
 * forward link (`post`).  A well-formed list is a cycle through these links.
 *
 * This module holds the pure theory: what it means for a sequence of node
 * indices to be a cycle of a link table, the four raw relinking primitives as
 * functions on link tables, and the lemmas saying which cycle each primitive
 * produces from which.
 */
module Links {

  /** The two link fields of every node of an arena, indexed by node. */
  datatype LinkTable = LinkTable(prev: seq<int>, post: seq<int>)

  /**
   * A null link, as a node that was never linked holds.  It is negative, so
   * it names no node, and it differs from -1, the index `&storage_[0 - 1]`
   * of the fixed list stands for.
   */
  const Null := -2

  predicate IsNode(t: LinkTable, x: int) {
    |t.prev| == |t.post| && 0 <= x < |t.post|
  }

  /** The node after position k of the cyclic listing c. */
  function Succ(c: seq<int>, k: int): int
    requires 0 <= k < |c|
  {
    if k + 1 < |c| then c[k + 1] else c[0]
  }

  /** The node before position k of the cyclic listing c. */
  function Pred(c: seq<int>, k: int): int
    requires 0 <= k < |c|
  {
    if k > 0 then c[k - 1] else c[|c| - 1]
  }

  ghost predicate Distinct(c: seq<int>) {
    forall i, j :: 0 <= i < j < |c| ==> c[i] != c[j]
  }

  ghost predicate Within(c: seq<int>, n: int) {
    forall k :: 0 <= k < |c| ==> 0 <= c[k] < n
  }

  /** Following `post` from each node of c reaches the next node of c, cyclically. */
  ghost predicate ForwardLinked(post: seq<int>, c: seq<int>)
    requires Within(c, |post|)
  {
    forall k :: 0 <= k < |c| ==> post[c[k]] == Succ(c, k)
  }

  /** Following `prev` from each node of c outside `broken` reaches the node before it. */
  ghost predicate BackLinkedExcept(prev: seq<int>, c: seq<int>, broken: set<int>)
    requires Within(c, |prev|)
  {
    forall k :: 0 <= k < |c| && c[k] !in broken ==> prev[c[k]] == Pred(c, k)
  }

  /**
   * c lists, from c[0] on, a non-empty cycle of t: every forward link is
   * kept, and every back link except those of the nodes in `broken`.
   */
  ghost predicate Ring(t: LinkTable, c: seq<int>, broken: set<int>) {
    && |t.prev| == |t.post|
    && |c| >= 1
    && Within(c, |t.post|)
    && Distinct(c)
    && ForwardLinked(t.post, c)
    && BackLinkedExcept(t.prev, c, broken)
  }

  /** c lists, from c[0] on, a non-empty cycle of t whose back links mirror its forward links. */
  ghost predicate IsCycle(t: LinkTable, c: seq<int>) {
    Ring(t, c, {})
  }

  /** The links of the anchor e of a ring: the first node after it and, unless its back link is broken, the last. */
  lemma RingEnds(t: LinkTable, e: int, s: seq<int>, broken: set<int>)
    requires Ring(t, [e] + s, broken)
    ensures IsNode(t, e) && e !in s
    ensures t.post[e] == if s == [] then e else s[0]
    ensures e !in broken ==> t.prev[e] == if s == [] then e else s[|s| - 1]
  {
    var c := [e] + s;
    assert c[0] == e && Succ(c, 0) == (if s == [] then e else s[0]);
    assert Pred(c, 0) == c[|c| - 1];
    DistinctApart(c, 0);
    assert c[1..] == s;
  }

  /** The position of x in s. */
  function IndexOf(s: seq<int>, x: int): (k: nat)
    requires x in s
    ensures k < |s| && s[k] == x
  {
    if s[0] == x then 0 else 1 + IndexOf(s[1..], x)
  }

  /** s with x placed immediately before pos, or at the end when pos is not in s. */
  function PlaceBefore(s: seq<int>, pos: int, x: int): (r: seq<int>)
    ensures |r| == |s| + 1
    ensures pos !in s ==> r == s + [x]
  {
    if pos in s then s[..IndexOf(s, pos)] + [x] + s[IndexOf(s, pos)..] else s + [x]
  }

  /** Placing x adds x and keeps every node of s. */
  lemma PlaceBeforeMembers(s: seq<int>, pos: int, x: int)
    ensures forall y :: y in PlaceBefore(s, pos, x) <==> y in s || y == x
  {
    if pos in s {
      var k := IndexOf(s, pos);
      assert s == s[..k] + s[k..];
    }
  }

  /** s with the first occurrence of x taken out (s itself when x is not in s). */
  function Without(s: seq<int>, x: int): (r: seq<int>)
    ensures x in s ==> |r| == |s| - 1
    ensures x !in s ==> r == s
  {
    if x in s then s[..IndexOf(s, x)] + s[IndexOf(s, x) + 1..] else s
  }

  /** In a listing without repetitions, s[k] occurs neither before nor after position k. */
  lemma DistinctApart(s: seq<int>, k: int)
    requires Distinct(s) && 0 <= k < |s|
    ensures s[k] !in s[..k] && s[k] !in s[k + 1..]
  {
  }

  /** The first occurrence of x in a + [x] + b, when a does not hold x, is right after a. */
  lemma {:induction false} IndexOfSplit(a: seq<int>, x: int, b: seq<int>)
    requires x !in a
    ensures IndexOf(a + ([x] + b), x) == |a|
    ensures Without(a + ([x] + b), x) == a + b
  {
    var s := a + ([x] + b);
    if a == [] {
      assert s == [x] + b;
    } else {
      assert s[0] == a[0] && s[1..] == a[1..] + ([x] + b);
      IndexOfSplit(a[1..], x, b);
    }
    assert s[..|a|] == a && s[|a| + 1..] == b;
  }

  /** The listing after the splice, as a cut of the old listing at position j. */
  lemma PlacedAt(e: int, s: seq<int>, pos: int, x: int, j: int)
    requires e !in s && (pos == e || pos in s)
    requires j == if pos == e then |s| + 1 else IndexOf(s, pos) + 1
    ensures 1 <= j <= |s| + 1
    ensures ([e] + s)[..j] + [x] + ([e] + s)[j..] == [e] + PlaceBefore(s, pos, x)
    ensures pos == Succ([e] + s, j - 1)
  {
    var c := [e] + s;
    if pos == e {
      assert PlaceBefore(s, pos, x) == s + [x];
      assert c[..j] == c && c[j..] == [];
    } else {
      var m := j - 1;
      assert PlaceBefore(s, pos, x) == s[..m] + [x] + s[m..];
      Placed(e, s, m, x);
    }
  }

  /** Placing x before position m of s, seen in the listing closed by e. */
  lemma Placed(e: int, s: seq<int>, m: int, x: int)
    requires 0 <= m < |s|
    ensures ([e] + s)[..m + 1] + [x] + ([e] + s)[m + 1..] == [e] + (s[..m] + [x] + s[m..])
    ensures Succ([e] + s, m) == s[m]
  {
    var c := [e] + s;
    assert c[..m + 1] == [e] + s[..m];
    assert c[m + 1..] == s[m..];
  }

  /** The node after x in the list s closed by the sentinel e. */
  function After(e: int, s: seq<int>, x: int): int
    requires x in s
  {
    var k := IndexOf(s, x);
    if k + 1 < |s| then s[k + 1] else e
  }

  /** The node before x in the list s closed by the sentinel e. */
  function Before(e: int, s: seq<int>, x: int): int
    requires x in s
  {
    var k := IndexOf(s, x);
    if k == 0 then e else s[k - 1]
  }

  // ---------------------------------------------------------------------------
  // The raw relinking primitives
  // ---------------------------------------------------------------------------

  /** Make x a one-node cycle. */
  function LinkSelf(t: LinkTable, x: int): (r: LinkTable)
    requires IsNode(t, x)
    ensures |r.prev| == |r.post| == |t.post|
    ensures IsCycle(r, [x])
    ensures forall y :: 0 <= y < |t.post| && y != x ==> r.prev[y] == t.prev[y] && r.post[y] == t.post[y]
  {
    LinkTable(t.prev[x := x], t.post[x := x])
  }

  /**
   * Splice x in before pos, writing the links in the order the library does:
   * x.post, x.prev, pos.prev, then the old predecessor's post.
   */
  function InsertBefore(t: LinkTable, x: int, pos: int): (r: LinkTable)
    requires IsNode(t, x) && IsNode(t, pos) && IsNode(t, t.prev[pos])
    ensures |r.prev| == |r.post| == |t.post|
    ensures r.prev[pos] == x && r.post[t.prev[pos]] == x
    ensures x != pos ==> r.prev[x] == t.prev[pos]
    ensures x != t.prev[pos] ==> r.post[x] == pos
    ensures forall y :: 0 <= y < |t.post| && y != x && y != pos ==> r.prev[y] == t.prev[y]
    ensures forall y :: 0 <= y < |t.post| && y != x && y != t.prev[pos] ==> r.post[y] == t.post[y]
  {
    var p := t.prev[pos];
    var post1 := t.post[x := pos];
    var prev1 := t.prev[x := p];
    var prev2 := prev1[pos := x];
    var post2 := post1[p := x];
    LinkTable(prev2, post2)
  }

  /** Splice x in after pos: x.post, x.prev, pos.post, then the old successor's prev. */
  function InsertAfter(t: LinkTable, x: int, pos: int): (r: LinkTable)
    requires IsNode(t, x) && IsNode(t, pos) && IsNode(t, t.post[pos])
    ensures |r.prev| == |r.post| == |t.post|
    ensures r.post[pos] == x && r.prev[t.post[pos]] == x
    ensures x != t.post[pos] ==> r.prev[x] == pos
    ensures x != pos && x != t.post[pos] ==> r.post[x] == t.post[pos]
    ensures forall y :: 0 <= y < |t.post| && y != x && y != t.post[pos] ==> r.prev[y] == t.prev[y]
    ensures forall y :: 0 <= y < |t.post| && y != x && y != pos ==> r.post[y] == t.post[y]
  {
    var q := t.post[pos];
    var post1 := t.post[x := q];
    var prev1 := t.prev[x := pos];
    var post2 := post1[pos := x];
    var prev2 := prev1[q := x];
    LinkTable(prev2, post2)
  }

  /**
   * Unlink x: its successor's prev and its predecessor's post are rewired to
   * each other; x keeps its own (now stale) links.
   */
  function Erase(t: LinkTable, x: int): (r: LinkTable)
    requires IsNode(t, x) && IsNode(t, t.prev[x]) && IsNode(t, t.post[x])
    ensures |r.prev| == |r.post| == |t.post|
    ensures r.prev[x] == t.prev[x] && r.post[x] == t.post[x]
    ensures r.prev[t.post[x]] == t.prev[x] && r.post[t.prev[x]] == t.post[x]
    ensures forall y :: 0 <= y < |t.post| && y != t.post[x] ==> r.prev[y] == t.prev[y]
    ensures forall y :: 0 <= y < |t.post| && y != t.prev[x] ==> r.post[y] == t.post[y]
    ensures t.prev[x] == x && t.post[x] == x ==> r == t
  {
    LinkTable(t.prev[t.post[x] := t.prev[x]], t.post[t.prev[x] := t.post[x]])
  }

  // ---------------------------------------------------------------------------
  // What the primitives do to a cycle
  // ---------------------------------------------------------------------------

  /** The spliced listing, position by position. */
  lemma SplicedFacts(c: seq<int>, j: int, x: int)
    requires 0 <= j <= |c|
    ensures var c' := c[..j] + [x] + c[j..];
      && |c'| == |c| + 1
      && (forall k :: 0 <= k < j ==> c'[k] == c[k])
      && c'[j] == x
      && (forall k :: j < k < |c'| ==> c'[k] == c[k - 1])
  {
  }

  /**
   * Position k != j of c with x spliced in at position j is position i of c;
   * its neighbours are those of c, except that x now sits between c[j - 1]
   * and the node after it.
   */
  lemma SpliceIndex(c: seq<int>, j: int, x: int, k: int) returns (i: int)
    requires 1 <= j <= |c| && 0 <= k <= |c| && k != j
    ensures var c' := c[..j] + [x] + c[j..];
      && 0 <= i < |c| && c'[k] == c[i]
      && Succ(c', k) == (if i == j - 1 then x else Succ(c, i))
      && Pred(c', k) == (if i == (if j < |c| then j else 0) then x else Pred(c, i))
  {
    var c' := c[..j] + [x] + c[j..];
    SplicedFacts(c, j, x);
    i := if k < j then k else k - 1;
    if k + 1 < |c'| {
      assert Succ(c', k) == c'[k + 1];
    } else {
      assert Succ(c', k) == c'[0];
    }
    if k > 0 {
      assert Pred(c', k) == c'[k - 1];
    } else {
      assert Pred(c', k) == c'[|c|];
    }
  }

  /** Position j of c with x spliced in there holds x, between c[j - 1] and the node after it. */
  lemma SpliceNew(c: seq<int>, j: int, x: int)
    requires 1 <= j <= |c|
    ensures var c' := c[..j] + [x] + c[j..];
      c'[j] == x && Succ(c', j) == Succ(c, j - 1) && Pred(c', j) == c[j - 1]
  {
    SplicedFacts(c, j, x);
  }

  /** One position of the spliced cycle: its forward link. */
  lemma InsertBeforeForwardAt(t: LinkTable, c: seq<int>, j: int, x: int, k: int)
    requires |t.prev| == |t.post| && |c| >= 1 && Within(c, |t.post|) && Distinct(c)
    requires ForwardLinked(t.post, c)
    requires 1 <= j <= |c| && IsNode(t, x) && x !in c
    requires IsNode(t, t.prev[Succ(c, j - 1)]) && t.prev[Succ(c, j - 1)] == c[j - 1]
    requires 0 <= k <= |c|
    ensures var c' := c[..j] + [x] + c[j..];
      InsertBefore(t, x, Succ(c, j - 1)).post[c'[k]] == Succ(c', k)
  {
    if k == j {
      SpliceNew(c, j, x);
    } else {
      var i := SpliceIndex(c, j, x, k);
      if i != j - 1 {
        assert c[i] != c[j - 1];
        assert t.post[c[i]] == Succ(c, i);
      }
    }
  }

  /** One position of the spliced cycle: its back link, if it was kept. */
  lemma InsertBeforeBackAt(t: LinkTable, c: seq<int>, broken: set<int>, j: int, x: int, k: int)
    requires |t.prev| == |t.post| && |c| >= 1 && Within(c, |t.post|) && Distinct(c)
    requires BackLinkedExcept(t.prev, c, broken)
    requires 1 <= j <= |c| && IsNode(t, x) && x !in c
    requires IsNode(t, t.prev[Succ(c, j - 1)]) && t.prev[Succ(c, j - 1)] == c[j - 1]
    requires 0 <= k <= |c|
    ensures var c' := c[..j] + [x] + c[j..];
      c'[k] !in broken ==> InsertBefore(t, x, Succ(c, j - 1)).prev[c'[k]] == Pred(c', k)
  {
    var m := if j < |c| then j else 0;
    assert Succ(c, j - 1) == c[m];
    if k == j {
      SpliceNew(c, j, x);
    } else {
      var i := SpliceIndex(c, j, x, k);
      if i != m {
        assert c[i] != c[m];
        if c[i] !in broken {
          assert t.prev[c[i]] == Pred(c, i);
        }
      }
    }
  }

  /**
   * Splicing a node that is on no cycle in before position j of a cycle
   * (j == |c| names c[0] again, the cycle being closed) yields the cycle with
   * the node listed at position j; back links that were kept stay kept.
   */
  lemma InsertBeforeLinks(t: LinkTable, c: seq<int>, broken: set<int>, j: int, x: int)
    requires |t.prev| == |t.post| && |c| >= 1 && Within(c, |t.post|) && Distinct(c)
    requires ForwardLinked(t.post, c) && BackLinkedExcept(t.prev, c, broken)
    requires 1 <= j <= |c| && IsNode(t, x) && x !in c
    requires Succ(c, j - 1) !in broken
    ensures IsNode(t, t.prev[Succ(c, j - 1)])
    ensures var c' := c[..j] + [x] + c[j..];
      var r := InsertBefore(t, x, Succ(c, j - 1));
      && Within(c', |r.post|) && Distinct(c')
      && ForwardLinked(r.post, c') && BackLinkedExcept(r.prev, c', broken)
  {
    var pos := Succ(c, j - 1);
    assert t.prev[pos] == c[j - 1] by {
      if j < |c| {
        assert pos == c[j] && Pred(c, j) == c[j - 1];
      } else {
        assert pos == c[0] && Pred(c, 0) == c[j - 1];
      }
    }
    var c' := c[..j] + [x] + c[j..];
    var r := InsertBefore(t, x, pos);
    SplicedFacts(c, j, x);
    assert Within(c', |r.post|);
    forall a, b | 0 <= a < b < |c'|
      ensures c'[a] != c'[b]
    {
    }
    forall k | 0 <= k < |c'|
      ensures r.post[c'[k]] == Succ(c', k)
    {
      InsertBeforeForwardAt(t, c, j, x, k);
    }
    forall k | 0 <= k < |c'| && c'[k] !in broken
      ensures r.prev[c'[k]] == Pred(c', k)
    {
      InsertBeforeBackAt(t, c, broken, j, x, k);
    }
  }

  /** Splicing a free node into a cycle before one of its members keeps a cycle. */
  lemma InsertBeforeKeepsCycle(t: LinkTable, c: seq<int>, j: int, x: int)
    requires IsCycle(t, c) && 1 <= j <= |c| && IsNode(t, x) && x !in c
    ensures IsNode(t, t.prev[Succ(c, j - 1)])
    ensures IsCycle(InsertBefore(t, x, Succ(c, j - 1)), c[..j] + [x] + c[j..])
  {
    InsertBeforeLinks(t, c, {}, j, x);
  }

  /**
   * Splicing a free node in after position j of a cycle yields the cycle with
   * the node listed right after position j.
   */
  lemma InsertAfterKeepsCycle(t: LinkTable, c: seq<int>, j: int, x: int)
    requires IsCycle(t, c) && 0 <= j < |c| && IsNode(t, x) && x !in c
    ensures IsNode(t, t.post[c[j]])
    ensures IsCycle(InsertAfter(t, x, c[j]), c[..j + 1] + [x] + c[j + 1..])
  {
    var q := Succ(c, j);
    assert t.post[c[j]] == q;
    assert t.prev[q] == c[j] by {
      if j + 1 < |c| {
        assert Pred(c, j + 1) == c[j];
      } else {
        assert Pred(c, 0) == c[j];
      }
    }
    InsertBeforeKeepsCycle(t, c, j + 1, x);
    assert InsertAfter(t, x, c[j]) == InsertBefore(t, x, q);
  }

  /** The listing with position j cut out, position by position. */
  lemma CutFacts(c: seq<int>, j: int)
    requires 0 <= j < |c|
    ensures var c' := c[..j] + c[j + 1..];
      && |c'| == |c| - 1
      && (forall k :: 0 <= k < j ==> c'[k] == c[k])
      && (forall k :: j <= k < |c'| ==> c'[k] == c[k + 1])
  {
  }

  /**
   * Position k of c with position j cut out is position i of c; its
   * neighbours are those of c, bridged over position j.
   */
  lemma CutIndex(c: seq<int>, j: int, k: int) returns (i: int)
    requires |c| >= 2 && 0 <= j < |c| && 0 <= k < |c| - 1
    ensures var c' := c[..j] + c[j + 1..];
      && 0 <= i < |c| && i != j && c'[k] == c[i]
      && (if i == (if j > 0 then j - 1 else |c| - 1) then Succ(c', k) == Succ(c, j) else Succ(c', k) == Succ(c, i))
      && (if i == j + 1 || (i == 0 && j == |c| - 1) then Pred(c', k) == Pred(c, j) else Pred(c', k) == Pred(c, i))
  {
    var c' := c[..j] + c[j + 1..];
    CutFacts(c, j);
    i := if k < j then k else k + 1;
    if k + 1 < |c'| {
      assert Succ(c', k) == c'[k + 1];
    } else {
      assert Succ(c', k) == c'[0];
    }
    if k > 0 {
      assert Pred(c', k) == c'[k - 1];
    } else {
      assert Pred(c', k) == c'[|c'| - 1];
    }
  }

  /** One position of the cycle left by erasing c[j]: its forward link. */
  lemma EraseForwardAt(t: LinkTable, c: seq<int>, j: int, k: int)
    requires IsCycle(t, c) && |c| >= 2 && 0 <= j < |c| && 0 <= k < |c| - 1
    requires t.prev[c[j]] == Pred(c, j) && t.post[c[j]] == Succ(c, j)
    ensures var c' := c[..j] + c[j + 1..];
      Erase(t, c[j]).post[c'[k]] == Succ(c', k)
  {
    var i := CutIndex(c, j, k);
    var m := if j > 0 then j - 1 else |c| - 1;
    assert Pred(c, j) == c[m];
    if i != m {
      assert c[i] != c[m];
    }
  }

  /** One position of the cycle left by erasing c[j]: its back link. */
  lemma EraseBackAt(t: LinkTable, c: seq<int>, j: int, k: int)
    requires IsCycle(t, c) && |c| >= 2 && 0 <= j < |c| && 0 <= k < |c| - 1
    requires t.prev[c[j]] == Pred(c, j) && t.post[c[j]] == Succ(c, j)
    ensures var c' := c[..j] + c[j + 1..];
      Erase(t, c[j]).prev[c'[k]] == Pred(c', k)
  {
    var i := CutIndex(c, j, k);
    var m := if j + 1 < |c| then j + 1 else 0;
    assert Succ(c, j) == c[m];
    if i != m {
      assert c[i] != c[m];
    }
  }

  /** Erasing a member of a cycle of two or more nodes leaves the cycle without it. */
  lemma EraseKeepsCycle(t: LinkTable, c: seq<int>, j: int)
    requires IsCycle(t, c) && |c| >= 2 && 0 <= j < |c|
    ensures IsNode(t, t.prev[c[j]]) && IsNode(t, t.post[c[j]])
    ensures IsCycle(Erase(t, c[j]), c[..j] + c[j + 1..])
  {
    var r := Erase(t, c[j]);
    var c' := c[..j] + c[j + 1..];
    assert t.prev[c[j]] == Pred(c, j) && t.post[c[j]] == Succ(c, j);
    CutFacts(c, j);
    assert Within(c', |r.post|);
    forall u, v | 0 <= u < v < |c'|
      ensures c'[u] != c'[v]
    {
    }
    forall k | 0 <= k < |c'|
      ensures r.post[c'[k]] == Succ(c', k)
    {
      EraseForwardAt(t, c, j, k);
    }
    forall k | 0 <= k < |c'|
      ensures r.prev[c'[k]] == Pred(c', k)
    {
      EraseBackAt(t, c, j, k);
    }
  }

  /** t and u give the same links to every node of the arena outside c. */
  ghost predicate AgreeOutside(t: LinkTable, u: LinkTable, c: seq<int>) {
    && |t.prev| == |t.post| == |u.prev| == |u.post|
    && forall y :: 0 <= y < |t.post| && y !in c ==> t.prev[y] == u.prev[y] && t.post[y] == u.post[y]
  }

  /** Agreement outside a listing carries over to agreement outside a longer one. */
  lemma AgreeOutsideTrans(t: LinkTable, u: LinkTable, w: LinkTable, d: seq<int>, c: seq<int>)
    requires AgreeOutside(t, u, d) && AgreeOutside(u, w, c)
    requires forall y :: y in d ==> y in c
    ensures AgreeOutside(t, w, c)
  {
  }

  /** Splicing x in before pos changes links only of x, pos and pos's predecessor. */
  lemma InsertAgrees(t: LinkTable, x: int, pos: int, c: seq<int>)
    requires IsNode(t, x) && IsNode(t, pos) && IsNode(t, t.prev[pos])
    requires x in c && pos in c && t.prev[pos] in c
    ensures AgreeOutside(InsertBefore(t, x, pos), t, c)
  {
  }

  /** Erasing a member of a cycle rewrites links only of nodes on that cycle. */
  lemma EraseAgreesOn(t: LinkTable, c: seq<int>, j: int)
    requires IsCycle(t, c) && 0 <= j < |c|
    ensures IsNode(t, c[j]) && IsNode(t, t.prev[c[j]]) && IsNode(t, t.post[c[j]])
    ensures AgreeOutside(Erase(t, c[j]), t, c)
  {
    assert t.prev[c[j]] == Pred(c, j) && t.post[c[j]] == Succ(c, j);
  }

  /**
   * Erasing a member of a cycle that lies within c changes links only inside
   * c; a one-node cycle is left as it is, a longer one loses that member.
   */
  lemma EraseWithin(t: LinkTable, u: LinkTable, c: seq<int>, live: seq<int>, q: int)
    requires IsCycle(t, live) && 0 <= q < |live| && AgreeOutside(t, u, c)
    requires forall y :: y in live ==> y in c
    ensures IsNode(t, live[q]) && IsNode(t, t.prev[live[q]]) && IsNode(t, t.post[live[q]])
    ensures AgreeOutside(Erase(t, live[q]), u, c)
    ensures |live| == 1 ==> Erase(t, live[q]) == t
    ensures |live| >= 2 ==> IsCycle(Erase(t, live[q]), live[..q] + live[q + 1..])
    ensures forall y :: y in live[..q] + live[q + 1..] ==> y in c
  {
    assert t.prev[live[q]] == Pred(live, q) && t.post[live[q]] == Succ(live, q);
    if |live| >= 2 {
      EraseKeepsCycle(t, live, q);
    }
  }

  /** The rotated listing, position by position. */
  lemma RotatedFacts(c: seq<int>, j: int)
    requires 0 <= j < |c|
    ensures var d := c[j..] + c[..j];
      && |d| == |c|
      && (forall k :: 0 <= k < |c| - j ==> d[k] == c[j + k])
      && (forall k :: |c| - j <= k < |c| ==> d[k] == c[j + k - |c|])
  {
  }

  /** Position k of c listed from position j is position i of c, with the same neighbours. */
  lemma RotatedAt(c: seq<int>, j: int, k: int) returns (i: int)
    requires 0 <= j < |c| && 0 <= k < |c|
    ensures var d := c[j..] + c[..j];
      && 0 <= i < |c| && d[k] == c[i] && Succ(d, k) == Succ(c, i) && Pred(d, k) == Pred(c, i)
  {
    var d := c[j..] + c[..j];
    var m := |c|;
    RotatedFacts(c, j);
    i := if k < m - j then j + k else j + k - m;
    if k + 1 < m {
      assert Succ(d, k) == d[k + 1];
    } else {
      assert Succ(d, k) == d[0] == c[j];
    }
    if k > 0 {
      assert Pred(d, k) == d[k - 1];
    } else {
      assert Pred(d, k) == d[m - 1];
    }
  }

  /** A cycle may be listed from any of its members. */
  lemma RotateKeepsCycle(t: LinkTable, c: seq<int>, j: int)
    requires IsCycle(t, c) && 0 <= j < |c|
    ensures IsCycle(t, c[j..] + c[..j])
  {
    var d := c[j..] + c[..j];
    RotatedFacts(c, j);
    assert Within(d, |t.post|);
    forall u, v | 0 <= u < v < |d|
      ensures d[u] != d[v]
    {
    }
    forall k | 0 <= k < |d|
      ensures t.post[d[k]] == Succ(d, k) && t.prev[d[k]] == Pred(d, k)
    {
      var i := RotatedAt(c, j, k);
      assert t.post[c[i]] == Succ(c, i) && t.prev[c[i]] == Pred(c, i);
    }
  }

  // ---------------------------------------------------------------------------
  // Selecting the nodes of a listing by the value of their element
  // ---------------------------------------------------------------------------

  /** Node y belongs to the arena and its element satisfies p. */
  predicate Hit<T>(vals: seq<T>, p: T -> bool, y: int) {
    0 <= y < |vals| && p(vals[y])
  }

  /** The nodes of c, in order, that are not hits. */
  function Survivors<T>(c: seq<int>, vals: seq<T>, p: T -> bool): (s: seq<int>)
    ensures |s| <= |c|
  {
    if c == [] then []
    else
      var front := Survivors(c[..|c| - 1], vals, p);
      if Hit(vals, p, c[|c| - 1]) then front else front + [c[|c| - 1]]
  }

  /** The survivors are exactly the nodes of c that are not hits. */
  lemma {:induction false} SurvivorsMembers<T>(c: seq<int>, vals: seq<T>, p: T -> bool)
    ensures forall y :: y in Survivors(c, vals, p) <==> y in c && !Hit(vals, p, y)
  {
    if c != [] {
      var c' := c[..|c| - 1];
      SurvivorsMembers(c', vals, p);
      assert forall y :: y in c <==> y in c' || y == c[|c| - 1];
    }
  }

  /** The number of hits in c. */
  function Matching<T>(c: seq<int>, vals: seq<T>, p: T -> bool): (n: nat)
    ensures n <= |c|
  {
    if c == [] then 0
    else Matching(c[..|c| - 1], vals, p) + (if Hit(vals, p, c[|c| - 1]) then 1 else 0)
  }

  /** Selecting from c extended by one node. */
  lemma SelectSnoc<T>(c: seq<int>, y: int, vals: seq<T>, p: T -> bool)
    ensures Survivors(c + [y], vals, p) == if Hit(vals, p, y) then Survivors(c, vals, p) else Survivors(c, vals, p) + [y]
    ensures Matching(c + [y], vals, p) == Matching(c, vals, p) + if Hit(vals, p, y) then 1 else 0
  {
    assert (c + [y])[..|c|] == c;
  }

  /** Every node of c is a hit. */
  ghost predicate AllMatch<T>(c: seq<int>, vals: seq<T>, p: T -> bool) {
    forall i :: 0 <= i < |c| ==> Hit(vals, p, c[i])
  }

  /** Selecting survivors splits over concatenation. */
  lemma {:induction false} SurvivorsAppend<T>(a: seq<int>, b: seq<int>, vals: seq<T>, p: T -> bool)
    ensures Survivors(a + b, vals, p) == Survivors(a, vals, p) + Survivors(b, vals, p)
    decreases |b|
  {
    if b == [] {
      assert a + b == a;
    } else {
      var b' := b[..|b| - 1];
      SurvivorsAppend(a, b', vals, p);
      assert (a + b)[..|a + b| - 1] == a + b';
    }
  }

  /** Counting hits splits over concatenation. */
  lemma {:induction false} MatchingAppend<T>(a: seq<int>, b: seq<int>, vals: seq<T>, p: T -> bool)
    ensures Matching(a + b, vals, p) == Matching(a, vals, p) + Matching(b, vals, p)
    decreases |b|
  {
    if b == [] {
      assert a + b == a;
    } else {
      var b' := b[..|b| - 1];
      MatchingAppend(a, b', vals, p);
      assert (a + b)[..|a + b| - 1] == a + b';
    }
  }

  /** Every node is either counted as a hit or kept as a survivor. */
  lemma {:induction false} SurvivorsPlusMatching<T>(c: seq<int>, vals: seq<T>, p: T -> bool)
    ensures |Survivors(c, vals, p)| + Matching(c, vals, p) == |c|
  {
    if c != [] {
      SurvivorsPlusMatching(c[..|c| - 1], vals, p);
    }
  }

  /** The survivors of a listing without repetitions have none either. */
  lemma {:induction false} SurvivorsDistinct<T>(c: seq<int>, vals: seq<T>, p: T -> bool)
    requires Distinct(c)
    ensures Distinct(Survivors(c, vals, p))
  {
    if c != [] {
      var c' := c[..|c| - 1];
      SurvivorsDistinct(c', vals, p);
      SurvivorsMembers(c', vals, p);
      assert c[|c| - 1] !in c';
    }
  }
}
