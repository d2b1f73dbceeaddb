/**
 * The intrusive circular doubly linked list.
 *
 * Nodes are embedded in caller-owned elements; here all nodes live in one
 * arena, a `NodePool`, and are named by index.  Node i is the link node
 * embedded in the element whose value is `elem[i]`, so the element-to-node
 * and node-to-element mappings are the identity on indices, a bijection.
 * The pool offers the raw node-level operations (`IntrusiveListNode`), and an
 * `IntrusiveList` is a sentinel node of the pool plus a size counter.
 */
module IntrusiveLists {
  import opened Links

  /** The arena of link nodes, with the value of the element embedding each node. */
  class NodePool<T(==)> {
    const prev: array<int>
    const post: array<int>
    const elem: seq<T>

    ghost predicate Valid()
      reads this
    {
      prev != post && prev.Length == |elem| && post.Length == |elem|
    }

    /** The links of every node, as values. */
    function Table(): LinkTable
      reads this, prev, post
    {
      LinkTable(prev[..], post[..])
    }

    /** Elements whose nodes start out unlinked. */
    constructor (elements: seq<T>)
      ensures Valid() && fresh(prev) && fresh(post) && elem == elements
      ensures forall x :: 0 <= x < |elem| ==> prev[x] == Null && post[x] == Null
    {
      elem := elements;
      prev := new int[|elements|](_ => Null);
      post := new int[|elements|](_ => Null);
    }

    /** The node after x (`next()`). */
    function Next(x: int): int
      reads post
      requires 0 <= x < post.Length
    {
      post[x]
    }

    /** Make x a one-node cycle. */
    method LinkSelf(x: int)
      requires Valid() && 0 <= x < |elem|
      modifies prev, post
      ensures Table() == Links.LinkSelf(old(Table()), x)
    {
      prev[x] := x;
      post[x] := x;
    }

    /** Splice x in before pos. */
    method InsertBefore(x: int, pos: int)
      requires Valid() && 0 <= x < |elem| && 0 <= pos < |elem| && 0 <= prev[pos] < |elem|
      modifies prev, post
      ensures Table() == Links.InsertBefore(old(Table()), x, pos)
    {
      var prevPosition := prev[pos];
      post[x] := pos;
      prev[x] := prevPosition;
      prev[pos] := x;
      post[prevPosition] := x;
    }

    /** Splice x in after pos. */
    method InsertAfter(x: int, pos: int)
      requires Valid() && 0 <= x < |elem| && 0 <= pos < |elem| && 0 <= post[pos] < |elem|
      modifies prev, post
      ensures Table() == Links.InsertAfter(old(Table()), x, pos)
    {
      var postPosition := post[pos];
      post[x] := postPosition;
      prev[x] := pos;
      post[pos] := x;
      prev[postPosition] := x;
    }

    /** Unlink x from its neighbours; x keeps its own links. */
    method Erase(x: int)
      requires Valid() && 0 <= x < |elem| && 0 <= prev[x] < |elem| && 0 <= post[x] < |elem|
      modifies prev, post
      ensures Table() == Links.Erase(old(Table()), x)
    {
      prev[post[x]] := prev[x];
      post[prev[x]] := post[x];
    }

    /** The number of nodes on the cycle through x, counted by walking it once. */
    method Size(x: int, ghost c: seq<int>) returns (n: nat)
      requires Valid() && IsCycle(Table(), c) && x in c
      ensures n == |c|
    {
      ghost var j := IndexOf(c, x);
      RotateKeepsCycle(Table(), c, j);
      ghost var d := c[j..] + c[..j];
      assert d[0] == x;
      n := 1;
      var current := post[x];
      while current != x
        invariant 1 <= n <= |d|
        invariant current == Succ(d, n - 1)
        decreases |d| - n
      {
        n := n + 1;
        current := post[current];
      }
    }

    /**
     * Erase every node of the cycle c (listed from `self`) whose element
     * satisfies p, and return how many were erased: first erase forward from
     * `self` up to an anchor, then sweep once round from the anchor.
     */
    method RemoveIf(self: int, p: T -> bool, ghost c: seq<int>) returns (count: nat)
      requires Valid() && IsCycle(Table(), c) && c[0] == self
      modifies prev, post
      ensures count == Matching(c, elem, p)
      ensures count < |c| ==> IsCycle(Table(), Survivors(c, elem, p))
      ensures AgreeOutside(Table(), old(Table()), c)
    {
      ghost var t0 := Table();
      var anchor;
      ghost var k, allMatched;
      count, anchor, k, allMatched := EraseLeading(self, p, c);
      ghost var t1 := Table();
      ghost var d := c[k..];
      var swept := SweepFrom(anchor, p, d);
      AgreeOutsideTrans(Table(), t1, t0, d, c);
      assert d[1..] == c[k + 1..];
      if allMatched {
        AllMatching(c, elem, p);
      } else {
        AnchorSplit(c, k, elem, p);
      }
      count := count + swept;
    }

    /**
     * The first loop of `remove_if`: erase forward from `self` until a node
     * that does not match, the anchor, is reached, or until the node just
     * erased was alone on its cycle (every node matched; that last node is
     * then the anchor, still self-linked).
     */
    method EraseLeading(self: int, p: T -> bool, ghost c: seq<int>)
        returns (count: nat, anchor: int, ghost k: nat, ghost allMatched: bool)
      requires Valid() && IsCycle(Table(), c) && c[0] == self
      modifies prev, post
      ensures k < |c| && anchor == c[k] && IsCycle(Table(), c[k..])
      ensures AllMatch(c[..k], elem, p)
      ensures allMatched ==> k == |c| - 1 && AllMatch(c, elem, p) && count == |c|
      ensures !allMatched ==> !p(elem[anchor]) && count == k
      ensures AgreeOutside(Table(), old(Table()), c)
    {
      ghost var t0 := Table();
      count := 0;
      var current := self;
      k := 0;
      allMatched := false;
      LeadingStart(t0, c, elem, p);
      while true
        invariant Leading(Table(), t0, c, k, elem, p)
        invariant current == c[k] && count == k
        decreases |c| - k
      {
        var nextNode := post[current];
        if p(elem[current]) {
          LeadingAdvance(Table(), t0, c, k, elem, p);
          Erase(current);
          count := count + 1;
        } else {
          break;
        }
        if nextNode == current {
          allMatched := true;
          break;
        }
        current := nextNode;
        k := k + 1;
      }
      anchor := current;
    }

    /**
     * The second loop of `remove_if`: walk once round the cycle d from the
     * successor of its first node, the anchor, erasing every node that
     * matches; the anchor itself is kept.
     */
    method SweepFrom(anchor: int, p: T -> bool, ghost d: seq<int>) returns (count: nat)
      requires Valid() && IsCycle(Table(), d) && d[0] == anchor
      modifies prev, post
      ensures count == Matching(d[1..], elem, p)
      ensures IsCycle(Table(), [anchor] + Survivors(d[1..], elem, p))
      ensures AgreeOutside(Table(), old(Table()), d)
    {
      ghost var t0 := Table();
      count := 0;
      var current := anchor;
      ghost var i := 0;
      SweepStart(t0, d, elem, p);
      while post[current] != anchor
        invariant Swept(Table(), t0, d, i, elem, p)
        invariant current == d[i] && count == Matching(d[1..i + 1], elem, p)
        decreases |d| - i
      {
        ghost var t, next := Table(), i + 1;
        SweepAdvance(t, t0, d, i, elem, p);
        ghost var hit := Hit(elem, p, d[next]);
        assert Matching(d[1..next + 1], elem, p) == count + if hit then 1 else 0;
        current := post[current];
        i := next;
        if p(elem[current]) {
          Erase(current);
          assert Table() == Links.Erase(t, d[i]);
          count := count + 1;
        } else {
          assert Table() == t;
        }
      }
      SweepDone(Table(), t0, d, i, elem, p);
    }

    /** Erase every node of the cycle c whose element equals v. */
    method Remove(self: int, v: T, ghost c: seq<int>) returns (count: nat)
      requires Valid() && IsCycle(Table(), c) && c[0] == self
      modifies prev, post
      ensures count == Matching(c, elem, Equals(v))
      ensures count < |c| ==> IsCycle(Table(), Survivors(c, elem, Equals(v)))
      ensures AgreeOutside(Table(), old(Table()), c)
    {
      count := RemoveIf(self, Equals(v), c);
    }
  }

  /**
   * The cycle left by the sweep of d once it has visited d[i]: the anchor
   * d[0], the survivors of d[1..i + 1] and the nodes not yet visited.
   */
  ghost function Live<T>(d: seq<int>, i: int, vals: seq<T>, p: T -> bool): seq<int>
    requires 0 <= i < |d|
  {
    [d[0]] + Survivors(d[1..i + 1], vals, p) + d[i + 1..]
  }

  /**
   * The state of the sweep of the cycle d once it has visited d[i]: t links
   * the cycle `Live`, and only links inside d have changed since t0.
   */
  ghost predicate Swept<T>(t: LinkTable, t0: LinkTable, d: seq<int>, i: int, vals: seq<T>, p: T -> bool) {
    && Distinct(d) && 0 <= i < |d|
    && IsCycle(t, Live(d, i, vals, p))
    && AgreeOutside(t, t0, d)
    && IsNode(t, d[i]) && t.post[d[i]] == Succ(d, i)
  }

  /** Before the sweep, it has visited only the anchor. */
  lemma SweepStart<T>(t: LinkTable, d: seq<int>, vals: seq<T>, p: T -> bool)
    requires IsCycle(t, d)
    ensures Swept(t, t, d, 0, vals, p)
  {
    assert Live(d, 0, vals, p) == d by {
      assert d[1..1] == [];
      assert [d[0]] + d[1..] == d;
    }
    assert t.post[d[0]] == Succ(d, 0);
  }

  /**
   * Visiting d[i + 1] in the listing: it sits at position q of the current
   * cycle, and erasing it if it is a hit, or keeping it, gives the next cycle.
   */
  lemma LiveStep<T>(d: seq<int>, i: int, vals: seq<T>, p: T -> bool) returns (q: int)
    requires 0 <= i && i + 1 < |d|
    ensures var live := Live(d, i, vals, p);
      && 1 <= q < |live| && live[q] == d[i + 1] && Succ(live, q) == Succ(d, i + 1)
      && Live(d, i + 1, vals, p) == (if Hit(vals, p, d[i + 1]) then live[..q] + live[q + 1..] else live)
    ensures Matching(d[1..i + 2], vals, p) == Matching(d[1..i + 1], vals, p) + if Hit(vals, p, d[i + 1]) then 1 else 0
  {
    var j := i + 1;
    var kept := Survivors(d[1..j], vals, p);
    var rest := d[j + 1..];
    var live := Live(d, i, vals, p);
    assert live == [d[0]] + kept + [d[j]] + rest by {
      assert d[j..] == [d[j]] + rest;
    }
    q := PickFacts(d[0], kept, d[j], rest);
    assert Succ(d, j) == if rest == [] then d[0] else rest[0];
    assert Survivors(d[1..j + 1], vals, p) == if Hit(vals, p, d[j]) then kept else kept + [d[j]] by {
      assert d[1..j + 1] == d[1..j] + [d[j]];
      SelectSnoc(d[1..j], d[j], vals, p);
    }
    assert Matching(d[1..j + 1], vals, p) == Matching(d[1..j], vals, p) + if Hit(vals, p, d[j]) then 1 else 0 by {
      assert d[1..j + 1] == d[1..j] + [d[j]];
      SelectSnoc(d[1..j], d[j], vals, p);
    }
    assert Live(d, j, vals, p) == [d[0]] + Survivors(d[1..j + 1], vals, p) + rest;
    if Hit(vals, p, d[j]) {
      assert Live(d, j, vals, p) == [d[0]] + kept + rest == live[..q] + live[q + 1..];
    } else {
      assert [d[0]] + (kept + [d[j]]) == [d[0]] + kept + [d[j]];
      assert Live(d, j, vals, p) == live;
    }
  }

  /** The listing [x] + kept + [y] + rest, position by position around y. */
  lemma PickFacts(x: int, kept: seq<int>, y: int, rest: seq<int>) returns (q: int)
    ensures var s := [x] + kept + [y] + rest;
      && q == 1 + |kept| && q < |s| && s[q] == y
      && s[..q] + s[q + 1..] == [x] + kept + rest
      && Succ(s, q) == if rest == [] then x else rest[0]
  {
    var s := [x] + kept + [y] + rest;
    q := 1 + |kept|;
    assert s[..q] == [x] + kept;
    assert s[q + 1..] == rest;
  }

  /** The cycle left by the sweep holds nodes of d only. */
  lemma LiveWithin<T>(d: seq<int>, i: int, vals: seq<T>, p: T -> bool)
    requires 0 <= i < |d|
    ensures forall y :: y in Live(d, i, vals, p) ==> y in d
  {
    SurvivorsMembers(d[1..i + 1], vals, p);
    forall y | y in Live(d, i, vals, p)
      ensures y in d
    {
      if y in Survivors(d[1..i + 1], vals, p) {
        assert y in d[1..i + 1];
      }
    }
  }

  /**
   * One step of the sweep: visit d[i + 1], erasing it if it is a hit; the
   * sweep state moves on to i + 1 and the count of hits grows accordingly.
   */
  lemma SweepAdvance<T>(t: LinkTable, t0: LinkTable, d: seq<int>, i: int, vals: seq<T>, p: T -> bool)
    requires Swept(t, t0, d, i, vals, p) && t.post[d[i]] != d[0]
    ensures i + 1 < |d| && t.post[d[i]] == d[i + 1]
    ensures IsNode(t, d[i + 1]) && IsNode(t, t.prev[d[i + 1]]) && IsNode(t, t.post[d[i + 1]])
    ensures Hit(vals, p, d[i + 1]) ==> Swept(Erase(t, d[i + 1]), t0, d, i + 1, vals, p)
    ensures !Hit(vals, p, d[i + 1]) ==> Swept(t, t0, d, i + 1, vals, p)
    ensures Matching(d[1..i + 2], vals, p) == Matching(d[1..i + 1], vals, p) + if Hit(vals, p, d[i + 1]) then 1 else 0
  {
    var live := Live(d, i, vals, p);
    var q := LiveStep(d, i, vals, p);
    LiveWithin(d, i, vals, p);
    assert t.post[d[i + 1]] == Succ(live, q);
    EraseWithin(t, t0, d, live, q);
  }

  /** When the sweep is back at the anchor, it has visited every node of d. */
  lemma SweepDone<T>(t: LinkTable, t0: LinkTable, d: seq<int>, i: int, vals: seq<T>, p: T -> bool)
    requires Swept(t, t0, d, i, vals, p) && t.post[d[i]] == d[0]
    ensures i == |d| - 1 && d[1..i + 1] == d[1..]
    ensures IsCycle(t, [d[0]] + Survivors(d[1..], vals, p)) && AgreeOutside(t, t0, d)
  {
    if i + 1 < |d| {
      assert false;
    }
    assert d[1..i + 1] == d[1..] && d[i + 1..] == [];
    assert Live(d, i, vals, p) == [d[0]] + Survivors(d[1..], vals, p);
  }

  /**
   * The state of the first loop once it has erased c[..k]: t links the rest
   * of the cycle, every erased node was a hit, and only links inside c have
   * changed since t0.
   */
  ghost predicate Leading<T>(t: LinkTable, t0: LinkTable, c: seq<int>, k: int, vals: seq<T>, p: T -> bool) {
    && 0 <= k < |c|
    && IsCycle(t, c[k..])
    && AllMatch(c[..k], vals, p)
    && AgreeOutside(t, t0, c)
  }

  /** Before the first loop, nothing is erased. */
  lemma LeadingStart<T>(t: LinkTable, c: seq<int>, vals: seq<T>, p: T -> bool)
    requires IsCycle(t, c)
    ensures Leading(t, t, c, 0, vals, p)
  {
    assert c[0..] == c;
  }

  /**
   * One step of the first loop, on a hit c[k]: erasing it leaves the rest of
   * the cycle, or, when it was alone on its cycle, changes nothing and every
   * node of c was a hit.
   */
  lemma LeadingAdvance<T>(t: LinkTable, t0: LinkTable, c: seq<int>, k: int, vals: seq<T>, p: T -> bool)
    requires Leading(t, t0, c, k, vals, p) && Hit(vals, p, c[k])
    ensures IsNode(t, c[k]) && IsNode(t, t.prev[c[k]]) && IsNode(t, t.post[c[k]])
    ensures t.post[c[k]] == c[k] ==> k == |c| - 1 && Erase(t, c[k]) == t && AllMatch(c, vals, p)
    ensures t.post[c[k]] != c[k] ==> k + 1 < |c| && t.post[c[k]] == c[k + 1] && Leading(Erase(t, c[k]), t0, c, k + 1, vals, p)
  {
    var live := c[k..];
    assert t.post[c[k]] == Succ(live, 0);
    EraseWithin(t, t0, c, live, 0);
    MatchExtend(c, k, vals, p);
    if k + 1 < |c| {
      assert live[1] == c[k + 1] != c[k];
      assert live[..0] + live[1..] == c[k + 1..];
    } else {
      assert c[..k + 1] == c;
    }
  }

  /** A hit extends a prefix of hits. */
  lemma MatchExtend<T>(c: seq<int>, k: int, vals: seq<T>, p: T -> bool)
    requires 0 <= k < |c|
    requires AllMatch(c[..k], vals, p) && Hit(vals, p, c[k])
    ensures AllMatch(c[..k + 1], vals, p)
  {
    assert forall i :: 0 <= i < k ==> c[..k + 1][i] == c[..k][i];
  }

  /** When every node matches, none survives and all of them are counted. */
  lemma {:induction false} AllMatching<T>(c: seq<int>, vals: seq<T>, p: T -> bool)
    requires AllMatch(c, vals, p)
    ensures Survivors(c, vals, p) == [] && Matching(c, vals, p) == |c|
  {
    if c != [] {
      AllMatching(c[..|c| - 1], vals, p);
    }
  }

  /**
   * When c[..k] all match and c[k] does not, the survivors and the matches of
   * c are those of the sweep from c[k].
   */
  lemma AnchorSplit<T>(c: seq<int>, k: int, vals: seq<T>, p: T -> bool)
    requires 0 <= k < |c|
    requires AllMatch(c[..k], vals, p) && !Hit(vals, p, c[k])
    ensures Survivors(c, vals, p) == [c[k]] + Survivors(c[k + 1..], vals, p)
    ensures Matching(c, vals, p) == k + Matching(c[k + 1..], vals, p)
  {
    var head, anchor, rest := c[..k], [c[k]], c[k + 1..];
    assert c[k..] == anchor + rest;
    assert c == head + c[k..];
    AllMatching(head, vals, p);
    SurvivorsAppend(head, anchor + rest, vals, p);
    MatchingAppend(head, anchor + rest, vals, p);
    SurvivorsAppend(anchor, rest, vals, p);
    MatchingAppend(anchor, rest, vals, p);
    assert anchor[..0] == [];
    assert Survivors(anchor, vals, p) == anchor;
    assert Matching(anchor, vals, p) == 0;
  }

  /**
   * A list threaded through nodes of a pool: the sentinel node `endNode` and
   * a size counter.  `Contents` lists the nodes of the list in order, so the
   * elements are `pool.elem[Contents[0]]`, `pool.elem[Contents[1]]`, ...
   */
  class IntrusiveList<T(==)> {
    const pool: NodePool<T>
    const endNode: int
    var size: nat
    ghost var Contents: seq<int>

    ghost predicate Valid()
      reads this, pool, pool.prev, pool.post
    {
      && pool.Valid()
      && IsCycle(pool.Table(), [endNode] + Contents)
      && size == |Contents|
    }

    /** An empty list: the sentinel linked to itself. */
    constructor (pool: NodePool<T>, sentinel: int)
      requires pool.Valid() && 0 <= sentinel < |pool.elem|
      modifies pool.prev, pool.post
      ensures Valid() && this.pool == pool && endNode == sentinel
      ensures Contents == [] && size == 0
      ensures pool.Table() == Links.LinkSelf(old(pool.Table()), sentinel)
    {
      this.pool := pool;
      endNode := sentinel;
      size := 0;
      Contents := [];
      new;
      pool.post[sentinel] := sentinel;
      pool.prev[sentinel] := sentinel;
    }

    function Empty(): (r: bool)
      reads this, pool, pool.prev, pool.post
      requires Valid()
      ensures r <==> Contents == []
    {
      size == 0
    }

    function Size(): (r: nat)
      reads this, pool, pool.prev, pool.post
      requires Valid()
      ensures r == |Contents|
    {
      size
    }

    /** The first node, or the sentinel when the list is empty (`begin()`). */
    function Begin(): (r: int)
      reads this, pool, pool.prev, pool.post
      requires Valid()
      ensures r == if Contents == [] then endNode else Contents[0]
    {
      RingEnds(pool.Table(), endNode, Contents, {});
      pool.post[endNode]
    }

    /** The sentinel (`end()`), which is no node of the list. */
    function End(): (r: int)
      reads this, pool, pool.prev, pool.post
      requires Valid()
      ensures r == endNode && r !in Contents
    {
      RingEnds(pool.Table(), endNode, Contents, {});
      endNode
    }

    /** Advancing an iterator: the next node in list order, the sentinel after the last. */
    function Advance(it: int): (r: int)
      reads this, pool, pool.prev, pool.post
      requires Valid() && (it == endNode || it in Contents)
      ensures it == endNode ==> r == if Contents == [] then endNode else Contents[0]
      ensures it in Contents ==> r == After(endNode, Contents, it)
    {
      ListAdvance(pool.Table(), endNode, Contents, it);
      pool.post[it]
    }

    /** Link node x in before pos (which may be the sentinel) and return x. */
    method Insert(pos: int, x: int) returns (it: int)
      requires Valid() && (pos == endNode || pos in Contents)
      requires 0 <= x < |pool.elem| && x != endNode && x !in Contents
      modifies this, pool.prev, pool.post
      ensures Valid() && it == x
      ensures Contents == PlaceBefore(old(Contents), pos, x) && size == old(size) + 1
      ensures AgreeOutside(pool.Table(), old(pool.Table()), [endNode] + Contents)
    {
      ghost var t := pool.Table();
      ListInsert(t, endNode, Contents, pos, x);
      ListInsertAgrees(t, endNode, Contents, pos, x);
      size := size + 1;
      Contents := PlaceBefore(Contents, pos, x);
      pool.InsertBefore(x, pos);
      assert pool.Table() == Links.InsertBefore(t, x, pos);
      it := x;
    }

    /** Unlink the node at pos and return the node that followed it. */
    method Erase(pos: int) returns (it: int)
      requires Valid() && pos in Contents
      modifies this, pool.prev, pool.post
      ensures Valid() && it == After(endNode, old(Contents), pos)
      ensures Contents == Without(old(Contents), pos) && size == old(size) - 1
      ensures AgreeOutside(pool.Table(), old(pool.Table()), [endNode] + old(Contents))
    {
      ghost var t := pool.Table();
      ListErase(t, endNode, Contents, pos);
      ListEraseAgrees(t, endNode, Contents, pos);
      size := size - 1;
      Contents := Without(Contents, pos);
      it := pool.post[pos];
      pool.Erase(pos);
      assert pool.Table() == Links.Erase(t, pos);
    }

    /** Link node x in at the back. */
    method PushBack(x: int)
      requires Valid() && 0 <= x < |pool.elem| && x != endNode && x !in Contents
      modifies this, pool.prev, pool.post
      ensures Valid() && Contents == old(Contents) + [x] && size == old(size) + 1
      ensures AgreeOutside(pool.Table(), old(pool.Table()), [endNode] + Contents)
    {
      ghost var t := pool.Table();
      RingEnds(t, endNode, Contents, {});
      ListInsert(t, endNode, Contents, endNode, x);
      ListInsertAgrees(t, endNode, Contents, endNode, x);
      assert PlaceBefore(Contents, endNode, x) == Contents + [x];
      size := size + 1;
      Contents := Contents + [x];
      pool.InsertBefore(x, endNode);
      assert pool.Table() == Links.InsertBefore(t, x, endNode);
    }

    /** Link node x in at the front. */
    method PushFront(x: int)
      requires Valid() && 0 <= x < |pool.elem| && x != endNode && x !in Contents
      modifies this, pool.prev, pool.post
      ensures Valid() && Contents == [x] + old(Contents) && size == old(size) + 1
      ensures AgreeOutside(pool.Table(), old(pool.Table()), [endNode] + Contents)
    {
      ghost var t := pool.Table();
      RingEnds(t, endNode, Contents, {});
      var first := pool.post[endNode];
      ListInsert(t, endNode, Contents, first, x);
      ListInsertAgrees(t, endNode, Contents, first, x);
      PlaceFront(Contents, endNode, x);
      size := size + 1;
      Contents := [x] + Contents;
      pool.InsertBefore(x, first);
      assert pool.Table() == Links.InsertBefore(t, x, first);
    }

    /** Unlink the last node; the list must not be empty. */
    method PopBack()
      requires Valid() && Contents != []
      modifies this, pool.prev, pool.post
      ensures Valid() && Contents == old(Contents)[..|old(Contents)| - 1] && size == old(size) - 1
      ensures AgreeOutside(pool.Table(), old(pool.Table()), [endNode] + old(Contents))
    {
      ghost var t := pool.Table();
      RingEnds(t, endNode, Contents, {});
      var last := pool.prev[endNode];
      ListErase(t, endNode, Contents, last);
      ListEraseAgrees(t, endNode, Contents, last);
      WithoutEnds(endNode, Contents);
      size := size - 1;
      Contents := Without(Contents, last);
      pool.Erase(last);
      assert pool.Table() == Links.Erase(t, last);
    }

    /** Unlink the first node; the list must not be empty. */
    method PopFront()
      requires Valid() && Contents != []
      modifies this, pool.prev, pool.post
      ensures Valid() && Contents == old(Contents)[1..] && size == old(size) - 1
      ensures AgreeOutside(pool.Table(), old(pool.Table()), [endNode] + old(Contents))
    {
      ghost var t := pool.Table();
      RingEnds(t, endNode, Contents, {});
      var first := pool.post[endNode];
      ListErase(t, endNode, Contents, first);
      ListEraseAgrees(t, endNode, Contents, first);
      WithoutEnds(endNode, Contents);
      size := size - 1;
      Contents := Without(Contents, first);
      pool.Erase(first);
      assert pool.Table() == Links.Erase(t, first);
    }

    /**
     * Erase every element satisfying p in one sweep from `begin()` to
     * `end()`, and return how many were erased (the drop in `size`).
     */
    method RemoveIf(p: T -> bool) returns (count: nat)
      requires Valid()
      modifies this, pool.prev, pool.post
      ensures Valid()
      ensures count == Matching(old(Contents), pool.elem, p)
      ensures Contents == Survivors(old(Contents), pool.elem, p)
      ensures AgreeOutside(pool.Table(), old(pool.Table()), [endNode] + old(Contents))
    {
      ghost var c0 := Contents;
      ghost var t0 := pool.Table();
      ghost var i := 0;
      var oldSize := size;
      var it := Begin();
      ListSweepStart(t0, endNode, c0, pool.elem, p);
      while it != End()
        invariant Valid() && ListSweep(pool.Table(), t0, endNode, c0, i, pool.elem, p, Contents)
        invariant it == if i < |c0| then c0[i] else endNode
        invariant size <= oldSize && oldSize - size == Matching(c0[..i], pool.elem, p)
        decreases |c0| - i
      {
        ghost var t := pool.Table();
        ghost var cur := Contents;
        ListSweepAt(t, t0, endNode, c0, i, pool.elem, p, cur);
        if p(pool.elem[it]) {
          it := Erase(it);
          ListSweepErase(t, pool.Table(), t0, endNode, c0, i, pool.elem, p, cur);
        } else {
          it := Advance(it);
        }
        i := i + 1;
      }
      if i < |c0| {
        ListSweepAt(pool.Table(), t0, endNode, c0, i, pool.elem, p, Contents);
      }
      assert c0[..i] == c0 && c0[i..] == [];
      count := oldSize - size;
    }

    /** Erase every element equal to v. */
    method Remove(v: T) returns (count: nat)
      requires Valid()
      modifies this, pool.prev, pool.post
      ensures Valid()
      ensures count == Matching(old(Contents), pool.elem, Equals(v))
      ensures Contents == Survivors(old(Contents), pool.elem, Equals(v))
      ensures AgreeOutside(pool.Table(), old(pool.Table()), [endNode] + old(Contents))
    {
      count := RemoveIf(Equals(v));
    }
  }

  /** The forward link of a node of the list names the node after it. */
  lemma ListAfter(t: LinkTable, e: int, s: seq<int>, x: int)
    requires IsCycle(t, [e] + s) && x in s
    ensures IsNode(t, x) && t.post[x] == After(e, s, x)
  {
    var c := [e] + s;
    var k := IndexOf(s, x);
    assert c[k + 1] == x;
    assert Succ(c, k + 1) == After(e, s, x);
  }

  /** The forward link of the sentinel or of a node of the list, in list order. */
  lemma ListAdvance(t: LinkTable, e: int, s: seq<int>, it: int)
    requires IsCycle(t, [e] + s) && (it == e || it in s)
    ensures IsNode(t, it)
    ensures it == e ==> t.post[it] == if s == [] then e else s[0]
    ensures it in s ==> t.post[it] == After(e, s, it)
  {
    RingEnds(t, e, s, {});
    if it in s {
      ListAfter(t, e, s, it);
    }
  }

  /** Splicing a free node in before a node of the list, or before the sentinel. */
  lemma ListInsert(t: LinkTable, e: int, s: seq<int>, pos: int, x: int)
    requires IsCycle(t, [e] + s) && (pos == e || pos in s)
    requires IsNode(t, x) && x != e && x !in s
    ensures IsNode(t, pos) && IsNode(t, t.prev[pos])
    ensures IsCycle(InsertBefore(t, x, pos), [e] + PlaceBefore(s, pos, x))
  {
    var c := [e] + s;
    var placed := [e] + PlaceBefore(s, pos, x);
    RingEnds(t, e, s, {});
    var j := if pos == e then |c| else IndexOf(s, pos) + 1;
    PlacedAt(e, s, pos, x, j);
    InsertBeforeKeepsCycle(t, c, j, x);
  }

  /** Splicing a node into the list rewrites links only of the sentinel and the nodes of the new list. */
  lemma ListInsertAgrees(t: LinkTable, e: int, s: seq<int>, pos: int, x: int)
    requires IsCycle(t, [e] + s) && (pos == e || pos in s)
    requires IsNode(t, x) && x != e && x !in s
    ensures IsNode(t, pos) && IsNode(t, t.prev[pos])
    ensures AgreeOutside(InsertBefore(t, x, pos), t, [e] + PlaceBefore(s, pos, x))
  {
    RingEnds(t, e, s, {});
    var j := if pos == e then |s| + 1 else IndexOf(s, pos) + 1;
    PlacedAt(e, s, pos, x, j);
    InsertAgreesAt(t, e, s, pos, x, j);
  }

  /** The first node placed before the old first node, or before the sentinel of an empty list. */
  lemma PlaceFront(s: seq<int>, e: int, x: int)
    requires e !in s
    ensures PlaceBefore(s, if s == [] then e else s[0], x) == [x] + s
  {
    if s != [] {
      assert IndexOf(s, s[0]) == 0;
      assert s[..0] == [] && s[0..] == s;
    }
  }

  lemma InsertAgreesAt(t: LinkTable, e: int, s: seq<int>, pos: int, x: int, j: int)
    requires IsCycle(t, [e] + s) && 1 <= j <= |s| + 1 && pos == Succ([e] + s, j - 1)
    requires IsNode(t, x) && x !in s
    ensures IsNode(t, pos) && IsNode(t, t.prev[pos])
    ensures AgreeOutside(InsertBefore(t, x, pos), t, [e] + PlaceBefore(s, pos, x))
  {
    var c := [e] + s;
    if j < |c| {
      assert t.prev[c[j]] == Pred(c, j);
    } else {
      assert t.prev[c[0]] == Pred(c, 0);
    }
    assert t.prev[pos] == c[j - 1];
    PlaceBeforeMembers(s, pos, x);
    InsertAgrees(t, x, pos, [e] + PlaceBefore(s, pos, x));
  }

  /** Unlinking a node of the list leaves the list without it and the links outside the old list alone. */
  lemma ListErase(t: LinkTable, e: int, s: seq<int>, pos: int)
    requires IsCycle(t, [e] + s) && pos in s
    ensures IsNode(t, pos) && IsNode(t, t.prev[pos]) && IsNode(t, t.post[pos])
    ensures t.post[pos] == After(e, s, pos)
    ensures IsCycle(Erase(t, pos), [e] + Without(s, pos))
  {
    var m := IndexOf(s, pos);
    ListAfter(t, e, s, pos);
    CutAt(e, s, pos, m);
    EraseKeepsCycle(t, [e] + s, m + 1);
  }

  /** Cutting pos out of the list closed by e, as a cut of the listing at position m + 1. */
  lemma CutAt(e: int, s: seq<int>, pos: int, m: int)
    requires pos in s && m == IndexOf(s, pos)
    ensures ([e] + s)[m + 1] == pos
    ensures ([e] + s)[..m + 1] + ([e] + s)[m + 2..] == [e] + Without(s, pos)
  {
    assert Without(s, pos) == s[..m] + s[m + 1..];
    Cut(e, s, m);
  }

  lemma Cut(e: int, s: seq<int>, m: int)
    requires 0 <= m < |s|
    ensures ([e] + s)[..m + 1] + ([e] + s)[m + 2..] == [e] + (s[..m] + s[m + 1..])
  {
    var c := [e] + s;
    assert c[..m + 1] == [e] + s[..m];
    assert c[m + 2..] == s[m + 1..];
  }

  /** Taking out the first or the last node of the list drops its first or last position. */
  lemma WithoutEnds(e: int, s: seq<int>)
    requires Distinct([e] + s) && s != []
    ensures Without(s, s[0]) == s[1..]
    ensures Without(s, s[|s| - 1]) == s[..|s| - 1]
  {
    var n := |s|;
    assert Without(s, s[0]) == s[1..] by {
      assert [] + ([s[0]] + s[1..]) == s;
      IndexOfSplit([], s[0], s[1..]);
    }
    assert s[n - 1] !in s[..n - 1] by {
      DistinctApart([e] + s, n);
      assert ([e] + s)[..n] == [e] + s[..n - 1];
    }
    assert s[..n - 1] + ([s[n - 1]] + []) == s;
    IndexOfSplit(s[..n - 1], s[n - 1], []);
  }

  /** Unlinking a node of the list rewrites links only of the sentinel and the nodes of the list. */
  lemma ListEraseAgrees(t: LinkTable, e: int, s: seq<int>, pos: int)
    requires IsCycle(t, [e] + s) && pos in s
    ensures IsNode(t, pos) && IsNode(t, t.prev[pos]) && IsNode(t, t.post[pos])
    ensures AgreeOutside(Erase(t, pos), t, [e] + s)
  {
    var m := IndexOf(s, pos);
    assert ([e] + s)[m + 1] == pos;
    EraseAgreesOn(t, [e] + s, m + 1);
  }

  /**
   * The state of the list's `remove_if` before step i: the list is the
   * survivors of c0[..i] followed by the untouched c0[i..], and nothing
   * outside the original list has been relinked.
   */
  ghost predicate ListSweep<T>(t: LinkTable, t0: LinkTable, e: int, c0: seq<int>, i: int, vals: seq<T>, p: T -> bool, cur: seq<int>) {
    && 0 <= i <= |c0| && Distinct([e] + c0)
    && cur == Survivors(c0[..i], vals, p) + c0[i..]
    && AgreeOutside(t, t0, [e] + c0)
  }

  lemma ListSweepStart<T>(t: LinkTable, e: int, c0: seq<int>, vals: seq<T>, p: T -> bool)
    requires IsCycle(t, [e] + c0)
    ensures ListSweep(t, t, e, c0, 0, vals, p, c0)
  {
    assert c0[..0] == [] && c0[0..] == c0;
  }

  /**
   * Step i of the list's `remove_if` visits c0[i]: it is in the current list
   * and followed by c0[i + 1] (or the sentinel); keeping a node that is no
   * hit gives the state before step i + 1, and erasing a hit leaves the list
   * that state expects.
   */
  lemma ListSweepAt<T>(t: LinkTable, t0: LinkTable, e: int, c0: seq<int>, i: int, vals: seq<T>, p: T -> bool, cur: seq<int>)
    requires ListSweep(t, t0, e, c0, i, vals, p, cur) && IsCycle(t, [e] + cur) && i < |c0|
    ensures c0[i] in cur && c0[i] != e && IsNode(t, c0[i])
    ensures After(e, cur, c0[i]) == if i + 1 < |c0| then c0[i + 1] else e
    ensures Hit(vals, p, c0[i]) ==> Without(cur, c0[i]) == Survivors(c0[..i + 1], vals, p) + c0[i + 1..]
    ensures !Hit(vals, p, c0[i]) ==> ListSweep(t, t0, e, c0, i + 1, vals, p, cur)
    ensures Matching(c0[..i + 1], vals, p) == Matching(c0[..i], vals, p) + if Hit(vals, p, c0[i]) then 1 else 0
  {
    SweepPositions(e, c0, i, vals, p, cur);
    ListAfter(t, e, cur, c0[i]);
  }

  /** Where c0[i] sits in the list before step i, and what the step leaves. */
  lemma SweepPositions<T>(e: int, c0: seq<int>, i: int, vals: seq<T>, p: T -> bool, cur: seq<int>)
    requires 0 <= i < |c0| && Distinct([e] + c0)
    requires cur == Survivors(c0[..i], vals, p) + c0[i..]
    ensures c0[i] in cur && c0[i] != e
    ensures After(e, cur, c0[i]) == if i + 1 < |c0| then c0[i + 1] else e
    ensures Without(cur, c0[i]) == Survivors(c0[..i + 1], vals, p) + c0[i + 1..] || !Hit(vals, p, c0[i])
    ensures cur == Survivors(c0[..i + 1], vals, p) + c0[i + 1..] || Hit(vals, p, c0[i])
    ensures Matching(c0[..i + 1], vals, p) == Matching(c0[..i], vals, p) + if Hit(vals, p, c0[i]) then 1 else 0
  {
    var kept := Survivors(c0[..i], vals, p);
    var x, rest := c0[i], c0[i + 1..];
    assert cur == kept + ([x] + rest) by {
      assert c0[i..] == [x] + rest;
    }
    NotKept(e, c0, i, vals, p);
    IndexOfSplit(kept, x, rest);
    assert After(e, cur, x) == if i + 1 < |c0| then c0[i + 1] else e by {
      if rest != [] {
        assert cur[|kept| + 1] == rest[0] == c0[i + 1];
      }
    }
    assert Survivors(c0[..i + 1], vals, p) == (if Hit(vals, p, x) then kept else kept + [x])
        && Matching(c0[..i + 1], vals, p) == Matching(c0[..i], vals, p) + if Hit(vals, p, x) then 1 else 0 by {
      assert c0[..i + 1] == c0[..i] + [x];
      SelectSnoc(c0[..i], x, vals, p);
    }
    if !Hit(vals, p, x) {
      assert kept + ([x] + rest) == (kept + [x]) + rest;
    }
  }

  /** The node visited at step i is neither the sentinel nor one of the survivors so far. */
  lemma NotKept<T>(e: int, c0: seq<int>, i: int, vals: seq<T>, p: T -> bool)
    requires 0 <= i < |c0| && Distinct([e] + c0)
    ensures c0[i] != e && c0[i] !in Survivors(c0[..i], vals, p)
  {
    SurvivorsMembers(c0[..i], vals, p);
    DistinctApart([e] + c0, i + 1);
    assert ([e] + c0)[..i + 1] == [e] + c0[..i];
  }

  /** Erasing the hit at step i, by any relinking confined to the current list, gives the state before step i + 1. */
  lemma ListSweepErase<T>(t: LinkTable, u: LinkTable, t0: LinkTable, e: int, c0: seq<int>, i: int, vals: seq<T>, p: T -> bool, cur: seq<int>)
    requires ListSweep(t, t0, e, c0, i, vals, p, cur) && IsCycle(t, [e] + cur)
    requires i < |c0| && Hit(vals, p, c0[i]) && AgreeOutside(u, t, [e] + cur)
    ensures ListSweep(u, t0, e, c0, i + 1, vals, p, Without(cur, c0[i]))
  {
    ListSweepAt(t, t0, e, c0, i, vals, p, cur);
    SurvivorsMembers(c0[..i], vals, p);
    forall y | y in [e] + cur
      ensures y in [e] + c0
    {
      if y in Survivors(c0[..i], vals, p) {
        assert y in c0[..i];
      }
    }
    AgreeOutsideTrans(u, t, t0, [e] + cur, [e] + c0);
  }

  /**
   * The predicates of the node tests: odd values, and positive values.  The
   * tests' `value % 2 == 1` uses C++'s `%`, which truncates, so it holds for
   * positive odd values only (-3 % 2 is -1 there).
   */
  predicate Odd(v: int) {
    v > 0 && v % 2 == 1
  }

  predicate Positive(v: int) {
    v > 0
  }

  /**
   * Six elements with values 1 .. 6 whose nodes are linked as the node tests
   * link them: `link_self` on the first, then `insert_after` of each node on
   * the one before, which lists them in order.
   */
  method SixLinked() returns (pool: NodePool<int>)
    ensures fresh(pool.prev) && fresh(pool.post) && pool.Valid()
    ensures pool.elem == [1, 2, 3, 4, 5, 6] && IsCycle(pool.Table(), [0, 1, 2, 3, 4, 5])
  {
    pool := new NodePool([1, 2, 3, 4, 5, 6]);
    pool.LinkSelf(0);
    ChainStart(pool.Table());
    var i := 1;
    while i < 6
      invariant 1 <= i <= 6 && pool.Valid() && pool.elem == [1, 2, 3, 4, 5, 6]
      invariant fresh(pool.prev) && fresh(pool.post)
      invariant IsCycle(pool.Table(), Chain(i))
    {
      ChainStep(pool.Table(), i);
      pool.InsertAfter(i, i - 1);
      i := i + 1;
    }
    assert Chain(6) == [0, 1, 2, 3, 4, 5];
  }

  /** The nodes 0 .. i - 1 in order. */
  ghost function Chain(i: nat): seq<int> {
    seq(i, k => k)
  }

  lemma ChainStart(t: LinkTable)
    requires |t.prev| == |t.post| && 0 < |t.post| && t.prev[0] == 0 && t.post[0] == 0
    ensures IsCycle(t, Chain(1))
  {
    assert Chain(1) == [0];
  }

  /** Inserting node i after node i - 1 extends the chain by one node. */
  lemma ChainStep(t: LinkTable, i: nat)
    requires IsCycle(t, Chain(i)) && 1 <= i && IsNode(t, i)
    ensures IsNode(t, i - 1) && IsNode(t, t.post[i - 1])
    ensures IsCycle(InsertAfter(t, i, i - 1), Chain(i + 1))
  {
    ChainExtend(i);
    InsertAfterKeepsCycle(t, Chain(i), i - 1, i);
  }

  lemma ChainExtend(i: nat)
    requires 1 <= i
    ensures Chain(i)[i - 1] == i - 1 && i !in Chain(i)
    ensures Chain(i)[..i] + [i] + Chain(i)[i..] == Chain(i + 1)
  {
  }

  /** The six nodes listed from the third. */
  lemma SixFromThird(t: LinkTable)
    requires IsCycle(t, [0, 1, 2, 3, 4, 5])
    ensures IsCycle(t, [2, 3, 4, 5, 0, 1])
  {
    var c := [0, 1, 2, 3, 4, 5];
    RotateKeepsCycle(t, c, 2);
    assert c[2..] + c[..2] == [2, 3, 4, 5, 0, 1];
  }

  /** What `remove_if` of the odd values leaves of the six nodes listed from the third, and how many it erases. */
  lemma OddSurvivors(d: seq<int>, vals: seq<int>)
    requires |d| == 6 && d[0] == 2 && d[1] == 3 && d[2] == 4 && d[3] == 5 && d[4] == 0 && d[5] == 1
    requires |vals| == 6 && forall i :: 0 <= i < 6 ==> vals[i] == i + 1
    ensures Survivors(d, vals, Odd) == [3, 5, 1]
    ensures Matching(d, vals, Odd) == 3
  {
    assert Survivors(d[..1], vals, Odd) == [] && Matching(d[..1], vals, Odd) == 1 by {
      assert d[..0] == [] && vals[d[0]] == 3;
      OddStep(d, vals, 0, [], 0);
    }
    assert Survivors(d[..2], vals, Odd) == [3] && Matching(d[..2], vals, Odd) == 1 by {
      assert vals[d[1]] == 4;
      OddStep(d, vals, 1, [], 1);
    }
    assert Survivors(d[..3], vals, Odd) == [3] && Matching(d[..3], vals, Odd) == 2 by {
      assert vals[d[2]] == 5;
      OddStep(d, vals, 2, [3], 1);
    }
    assert Survivors(d[..4], vals, Odd) == [3, 5] && Matching(d[..4], vals, Odd) == 2 by {
      assert vals[d[3]] == 6;
      OddStep(d, vals, 3, [3], 2);
    }
    assert Survivors(d[..5], vals, Odd) == [3, 5] && Matching(d[..5], vals, Odd) == 3 by {
      assert vals[d[4]] == 1;
      OddStep(d, vals, 4, [3, 5], 2);
    }
    assert vals[d[5]] == 2;
    OddStep(d, vals, 5, [3, 5], 3);
    assert d[..6] == d;
  }

  /** One more node of the listing d selected by `Odd`. */
  lemma OddStep(d: seq<int>, vals: seq<int>, k: nat, s: seq<int>, m: nat)
    requires k < |d| && Survivors(d[..k], vals, Odd) == s && Matching(d[..k], vals, Odd) == m
    ensures Survivors(d[..k + 1], vals, Odd) == if Hit(vals, Odd, d[k]) then s else s + [d[k]]
    ensures Matching(d[..k + 1], vals, Odd) == if Hit(vals, Odd, d[k]) then m + 1 else m
  {
    assert d[..k + 1] == d[..k] + [d[k]];
    SelectSnoc(d[..k], d[k], vals, Odd);
  }

  /** The forward links of the three survivors. */
  lemma ThreeLinked(t: LinkTable)
    requires IsCycle(t, [3, 5, 1])
    ensures IsNode(t, 1) && IsNode(t, 3) && IsNode(t, 5)
    ensures t.post[1] == 3 && t.post[3] == 5 && t.post[5] == 1
  {
    var c := [3, 5, 1];
    assert t.post[c[0]] == Succ(c, 0) && t.post[c[1]] == Succ(c, 1) && t.post[c[2]] == Succ(c, 2);
  }

  /**
   * `remove_if` of the odd values, started at the node holding 3: the cycle
   * had six nodes, three are erased, and walking on from the node holding 2
   * meets 2, 4, 6 and comes back round.
   */
  method NodeRemoveOdd() returns (before: nat, removed: nat, walk: seq<int>)
    ensures before == 6 && removed == 3 && walk == [2, 4, 6, 2]
  {
    var pool := SixLinked();
    before := pool.Size(2, [0, 1, 2, 3, 4, 5]);
    SixFromThird(pool.Table());
    OddSurvivors([2, 3, 4, 5, 0, 1], pool.elem);
    removed := pool.RemoveIf(2, Odd, [2, 3, 4, 5, 0, 1]);
    ThreeLinked(pool.Table());
    var a := 1;
    var b := pool.Next(a);
    var c := pool.Next(b);
    var d := pool.Next(c);
    walk := [pool.elem[a], pool.elem[b], pool.elem[c], pool.elem[d]];
  }

  /** `remove_if` of a predicate every element satisfies erases all six nodes. */
  method NodeRemoveAll() returns (removed: nat)
    ensures removed == 6
  {
    var pool := SixLinked();
    SixFromThird(pool.Table());
    ghost var d := [2, 3, 4, 5, 0, 1];
    assert AllMatch(d, pool.elem, Positive);
    AllMatching(d, pool.elem, Positive);
    removed := pool.RemoveIf(2, Positive, d);
  }

  /** The predicate "equals v" that `remove` hands to `remove_if`. */
  function Equals<T(==)>(v: T): T -> bool {
    e => e == v
  }
}
