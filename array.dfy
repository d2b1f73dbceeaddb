/**
 * The fixed-size array `Array<T, N>`: N elements in a buffer, element
 * access with and without bounds checking, `fill`, the variadic
 * initialiser, `to_array`, and the element-wise comparison operators.
 */
module Arrays {

  /** The outcome of a bounds-checked access: the element, or the process aborts. */
  datatype Outcome<T> = Element(value: T) | Abort

  /** `Array<T, N>` with N = `data.Length`. */
  class Array<T> {
    const data: array<T>

    /** `Array()`: every element value-initialised to `zero` (`T{}`). */
    constructor (n: nat, zero: T)
      ensures fresh(data) && data[..] == seq(n, _ => zero)
    {
      data := new T[n](_ => zero);
    }

    /**
     * `Array(value, args...)`: the arguments, at most N of them, are stored
     * at indices 0 .. |args| - 1 in order; the elements after them are not
     * initialised, so nothing is promised about them.
     */
    constructor FromArgs(n: nat, args: seq<T>)
      requires 1 <= |args| <= n
      ensures fresh(data) && data.Length == n && data[..|args|] == args
    {
      data := new T[n](_ => args[0]);
      new;
      Init(0, args);
    }

    /** `init(index, value, args...)`: store the first argument at index and recurse on the rest. */
    method Init(index: nat, args: seq<T>)
      requires 1 <= |args| && index + |args| <= data.Length
      modifies data
      ensures data[..] == old(data[..])[..index] + args + old(data[..])[index + |args|..]
      decreases |args|
    {
      data[index] := args[0];
      if |args| > 1 {
        Init(index + 1, args[1..]);
      }
    }

    /** `operator[]`: element pos, unchecked; pos must be below N. */
    function Get(pos: nat): (r: T)
      requires pos < data.Length
      reads data
      ensures r in data[..]
      ensures At(pos) == Element(r)
    {
      data[pos]
    }

    /** `at(pos)`, with `check(pos)`: aborts exactly when pos is not below N, and otherwise is element pos. */
    function At(pos: nat): (r: Outcome<T>)
      reads data
      ensures r.Abort? <==> pos >= data.Length
      ensures r.Element? ==> pos < data.Length && r.value == data[..][pos]
    {
      if pos >= data.Length then Abort else Element(data[pos])
    }

    /** `front()`: the first element. */
    function Front(): (r: T)
      requires data.Length > 0
      reads data
      ensures r == data[..][0] && At(0) == Element(r)
    {
      data[0]
    }

    /** `back()`: the last element. */
    function Back(): (r: T)
      requires data.Length > 0
      reads data
      ensures r == data[..][|data[..]| - 1] && At(Size() - 1) == Element(r)
    {
      data[data.Length - 1]
    }

    /** `size()`: N, the number of elements. */
    function Size(): (r: nat)
      reads data
      ensures r == |data[..]|
    {
      data.Length
    }

    /** `max_size()`: N as well; the array never grows. */
    function MaxSize(): (r: nat)
      reads data
      ensures r == Size()
    {
      data.Length
    }

    /** `empty()`: N is zero, so every access aborts. */
    function Empty(): (r: bool)
      reads data
      ensures r <==> Size() == 0
      ensures r ==> At(0).Abort?
    {
      data.Length == 0
    }

    /** `fill(v)`: every element becomes v. */
    method Fill(v: T)
      modifies data
      ensures data[..] == seq(data.Length, _ => v)
    {
      var it := 0;
      while it != data.Length
        invariant 0 <= it <= data.Length
        invariant data[..it] == seq(it, _ => v)
      {
        data[it] := v;
        assert data[..it + 1] == data[..it] + [v];
        it := it + 1;
      }
      assert data[..] == data[..data.Length];
    }
  }

  /** `to_array(v, t...)`: an array of exactly as many elements as arguments, holding them in order. */
  method ToArray<T>(args: seq<T>) returns (a: Array<T>)
    requires |args| >= 1
    ensures fresh(a) && a.Size() == |args| && a.data[..] == args
  {
    a := new Array.FromArgs(|args|, args);
    assert a.data[..] == a.data[..|args|];
  }

  // ---------------------------------------------------------------------------
  // Comparison operators.  `<` and `>` ask for the relation at every index,
  // not for lexicographic order; `<=` and `>=` are their negations.
  // ---------------------------------------------------------------------------

  /** `lhs == rhs`: every pair of elements is equal. */
  method Equal<T(==)>(lhs: Array<T>, rhs: Array<T>) returns (r: bool)
    requires lhs.data.Length == rhs.data.Length
    ensures r <==> lhs.data[..] == rhs.data[..]
  {
    var i := 0;
    while i < lhs.data.Length
      invariant 0 <= i <= lhs.data.Length
      invariant lhs.data[..i] == rhs.data[..i]
    {
      if lhs.data[i] != rhs.data[i] {
        assert lhs.data[..][i] != rhs.data[..][i];
        return false;
      }
      assert lhs.data[..i + 1] == lhs.data[..i] + [lhs.data[i]];
      assert rhs.data[..i + 1] == rhs.data[..i] + [rhs.data[i]];
      i := i + 1;
    }
    assert lhs.data[..] == lhs.data[..i] && rhs.data[..] == rhs.data[..i];
    return true;
  }

  /** `lhs != rhs`: the negation of `==`. */
  method NotEqual<T(==)>(lhs: Array<T>, rhs: Array<T>) returns (r: bool)
    requires lhs.data.Length == rhs.data.Length
    ensures r <==> lhs.data[..] != rhs.data[..]
  {
    var eq := Equal(lhs, rhs);
    r := !eq;
  }

  /** a is below b at every index. */
  ghost predicate Below(a: seq<int>, b: seq<int>)
    requires |a| == |b|
  {
    forall i :: 0 <= i < |a| ==> a[i] < b[i]
  }

  /** `lhs < rhs`: each element is less than its partner; true for N == 0. */
  method Less(lhs: Array<int>, rhs: Array<int>) returns (r: bool)
    requires lhs.data.Length == rhs.data.Length
    ensures r <==> Below(lhs.data[..], rhs.data[..])
  {
    var i := 0;
    while i < lhs.data.Length
      invariant 0 <= i <= lhs.data.Length
      invariant forall k :: 0 <= k < i ==> lhs.data[k] < rhs.data[k]
    {
      if lhs.data[i] >= rhs.data[i] {
        return false;
      }
      i := i + 1;
    }
    return true;
  }

  /** `lhs > rhs`: each element is greater than its partner; true for N == 0. */
  method Greater(lhs: Array<int>, rhs: Array<int>) returns (r: bool)
    requires lhs.data.Length == rhs.data.Length
    ensures r <==> Below(rhs.data[..], lhs.data[..])
  {
    var i := 0;
    while i < lhs.data.Length
      invariant 0 <= i <= lhs.data.Length
      invariant forall k :: 0 <= k < i ==> lhs.data[k] > rhs.data[k]
    {
      if lhs.data[i] <= rhs.data[i] {
        return false;
      }
      i := i + 1;
    }
    return true;
  }

  /** `lhs >= rhs`: the negation of `<`, that is, some element is at least its partner. */
  method GreaterEq(lhs: Array<int>, rhs: Array<int>) returns (r: bool)
    requires lhs.data.Length == rhs.data.Length
    ensures r <==> exists i :: 0 <= i < lhs.data.Length && lhs.data[i] >= rhs.data[i]
  {
    var less := Less(lhs, rhs);
    r := !less;
  }

  /** `lhs <= rhs`: the negation of `>`, that is, some element is at most its partner. */
  method LessEq(lhs: Array<int>, rhs: Array<int>) returns (r: bool)
    requires lhs.data.Length == rhs.data.Length
    ensures r <==> exists i :: 0 <= i < lhs.data.Length && lhs.data[i] <= rhs.data[i]
  {
    var greater := Greater(lhs, rhs);
    r := !greater;
  }

  /** On non-empty arrays `<` is asymmetric and irreflexive: `lhs < rhs` rules out `rhs < lhs` and `lhs == rhs`. */
  lemma BelowAsymmetric(a: seq<int>, b: seq<int>)
    requires |a| == |b| && |a| > 0
    ensures Below(a, b) ==> !Below(b, a)
    ensures Below(a, b) ==> a != b
  {
    if Below(a, b) {
      assert a[0] < b[0];
    }
  }

  /**
   * The element-wise order is not total: on [1, 3] and [2, 2] neither `<`,
   * `>` nor `==` holds, and `<=` and `>=` both hold though the arrays differ.
   */
  lemma ElementwiseNotTotal()
    ensures !Below([1, 3], [2, 2]) && !Below([2, 2], [1, 3]) && [1, 3] != [2, 2]
  {
    assert [1, 3][1] >= [2, 2][1];
    assert [2, 2][0] >= [1, 3][0];
  }
}
