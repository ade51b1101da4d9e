/** bi_search: a lower-bound binary search over an ascending list that
    answers the number of probes and the smallest element at least `x`. */
module BinarySearcher {

  /** Python's None or a value. */
  datatype Option<T> = None | Some(value: T)

  /** The element at index `i` is not larger than the one at `j`. */
  ghost predicate InOrder(a: seq<real>, i: int, j: int)
    requires 0 <= i < |a| && 0 <= j < |a|
  {
    a[i] <= a[j]
  }

  /** The list is in ascending order (duplicates allowed). */
  ghost predicate Sorted(a: seq<real>)
  {
    forall i, j :: 0 <= i <= j < |a| ==> InOrder(a, i, j)
  }

  /** Reference model of the loop: the number of midpoints bi_search
      probes while narrowing the index range [low, high]; an empty range,
      or one not inside the list, takes none. */
  function Probes(a: seq<real>, x: real, low: int, high: int): nat
    decreases high - low + 1
  {
    if low > high || low < 0 || high >= |a| then 0
    else
      var mid := (low + high) / 2;
      1 + (if a[mid] < x then Probes(a, x, mid + 1, high) else Probes(a, x, low, mid - 1))
  }

  /** The midpoints themselves, in probing order; there is one per probe
      and each lies in the range being searched. */
  function ProbeTrace(a: seq<real>, x: real, low: int, high: int): (mids: seq<int>)
    requires 0 <= low <= |a| && -1 <= high < |a|
    ensures |mids| == Probes(a, x, low, high)
    ensures forall k :: 0 <= k < |mids| ==> low <= mids[k] <= high
    decreases high - low + 1
  {
    if low > high then []
    else
      var mid := (low + high) / 2;
      [mid] + (if a[mid] < x then ProbeTrace(a, x, mid + 1, high)
               else ProbeTrace(a, x, low, mid - 1))
  }

  /** Every element before index `n` is below `x`. */
  ghost predicate BelowUpTo(a: seq<real>, x: real, n: int)
  {
    forall k :: 0 <= k < n && k < |a| ==> a[k] < x
  }

  /** Every element from index `n` on is at least `x`. */
  ghost predicate AtLeastFrom(a: seq<real>, x: real, n: int)
  {
    forall k :: 0 <= n <= k < |a| ==> a[k] >= x
  }

  /** The element at index `n`, or None past the end. */
  function ElementAt(a: seq<real>, n: int): Option<real>
  {
    if 0 <= n < |a| then Some(a[n]) else None
  }

  /** Where the search ends: when index `n` separates the elements below
      `x` from the rest, the answer `a[n]` (None past the end) is None
      exactly when every element is below `x`, and is otherwise the
      smallest element of `a` that is at least `x`. */
  lemma LowerBound(a: seq<real>, x: real, n: int, answer: Option<real>)
    requires Sorted(a) && 0 <= n <= |a|
    requires BelowUpTo(a, x, n) && AtLeastFrom(a, x, n)
    requires answer == ElementAt(a, n)
    ensures answer == None <==> forall k :: 0 <= k < |a| ==> a[k] < x
    ensures answer.Some? ==> answer.value in a && answer.value >= x
    ensures answer.Some? ==> forall k :: 0 <= k < |a| && a[k] >= x ==> answer.value <= a[k]
  {
    if n < |a| {
      assert a[n] >= x;
      forall k | 0 <= k < |a| && a[k] >= x ensures a[n] <= a[k] {
        assert InOrder(a, n, k);
      }
    }
  }

  /** One iteration of bi_search: the midpoint lies in the range and the
      probe counts once before the half that is kept. */
  lemma ProbeStep(a: seq<real>, x: real, low: int, high: int)
    requires 0 <= low <= high < |a|
    ensures var mid := (low + high) / 2;
      low <= mid <= high &&
      (a[mid] < x ==> Probes(a, x, low, high) == 1 + Probes(a, x, mid + 1, high)) &&
      (a[mid] >= x ==> Probes(a, x, low, high) == 1 + Probes(a, x, low, mid - 1))
  {
  }

  /** Floor of the base-2 logarithm. */
  function Log2(n: nat): nat
    requires n >= 1
  {
    if n == 1 then 0 else 1 + Log2(n / 2)
  }

  /** The logarithm is monotone. */
  lemma {:induction false} Log2Monotone(m: nat, n: nat)
    requires 1 <= m <= n
    ensures Log2(m) <= Log2(n)
  {
    if m > 1 {
      Log2Monotone(m / 2, n / 2);
    }
  }

  /** A part of at most half of `size` elements has a logarithm at
      least one smaller. */
  lemma HalfLog(part: nat, size: nat)
    requires 1 <= part <= size / 2
    ensures Log2(part) + 1 <= Log2(size)
  {
    Log2Monotone(part, size / 2);
  }

  /** Each probe at least halves the range, so a non-empty range of
      `size` elements is settled after between 1 and
      floor(log2(size)) + 1 probes. */
  lemma {:induction false} ProbesBound(a: seq<real>, x: real, low: int, high: int)
    requires 0 <= low <= high < |a|
    ensures 1 <= Probes(a, x, low, high) <= Log2(high - low + 1) + 1
    decreases high - low + 1
  {
    var mid := (low + high) / 2;
    if a[mid] < x {
      if mid + 1 <= high {
        ProbesBound(a, x, mid + 1, high);
        HalfLog(high - mid, high - low + 1);
      }
    } else {
      if low <= mid - 1 {
        ProbesBound(a, x, low, mid - 1);
        HalfLog(mid - low, high - low + 1);
      }
    }
  }

  /** The probe count of a whole list: none for the empty list, otherwise
      between 1 and floor(log2(len)) + 1. */
  lemma ProbeCount(a: seq<real>, x: real)
    ensures |a| == 0 ==> Probes(a, x, 0, |a| - 1) == 0
    ensures |a| > 0 ==> 1 <= Probes(a, x, 0, |a| - 1) <= Log2(|a|) + 1
  {
    if |a| > 0 {
      ProbesBound(a, x, 0, |a| - 1);
    }
  }

  /** In a sorted list everything up to an element below `x` is below `x`,
      and everything from an element at least `x` on is at least `x`; this
      is why bi_search may discard either half. */
  lemma SortedSplit(a: seq<real>, x: real, m: int)
    requires Sorted(a) && 0 <= m < |a|
    ensures a[m] < x ==> BelowUpTo(a, x, m + 1)
    ensures a[m] >= x ==> AtLeastFrom(a, x, m)
  {
    forall k | 0 <= k <= m ensures a[k] <= a[m] {
      assert InOrder(a, k, m);
    }
    forall k | m <= k < |a| ensures a[m] <= a[k] {
      assert InOrder(a, m, k);
    }
  }

  /** bi_search: while the range [low, high] is not empty, probe its
      midpoint; a smaller element discards the lower half, any other
      element becomes the provisional answer and discards the upper half.
      The list is only read. */
  method BiSearch(arr: seq<real>, x: real) returns (count: nat, upperNum: Option<real>)
    requires Sorted(arr)
    ensures upperNum == None <==> forall k :: 0 <= k < |arr| ==> arr[k] < x
    ensures upperNum.Some? ==> upperNum.value in arr && upperNum.value >= x
    ensures upperNum.Some? ==> forall k :: 0 <= k < |arr| && arr[k] >= x ==> upperNum.value <= arr[k]
    ensures count == Probes(arr, x, 0, |arr| - 1)
    ensures |arr| == 0 ==> count == 0
    ensures |arr| > 0 ==> 1 <= count <= Log2(|arr|) + 1
  {
    count := 0;
    var low := 0;
    var high := |arr| - 1;
    upperNum := None;
    ghost var probes := Probes(arr, x, low, high);
    while low <= high
      invariant 0 <= low <= |arr| && -1 <= high < |arr| && low <= high + 1
      invariant BelowUpTo(arr, x, low) && AtLeastFrom(arr, x, high + 1)
      invariant upperNum == ElementAt(arr, high + 1)
      invariant count + Probes(arr, x, low, high) == probes
      decreases high - low
    {
      ProbeStep(arr, x, low, high);
      count := count + 1;
      var mid := (low + high) / 2;
      assert low <= mid <= high;
      SortedSplit(arr, x, mid);
      if arr[mid] < x {
        low := mid + 1;
      } else {
        upperNum := Some(arr[mid]);
        high := mid - 1;
      }
    }
    ProbeCount(arr, x);
    LowerBound(arr, x, low, upperNum);
  }

  /** The list and target of the module's example run. */
  const ExampleList: seq<real> := [1.232, 2.3455, 3.6546674, 4.0, 4.5536225,
    4.5767655, 4.57754757, 5.5355476, 6.5624653, 8.52463452]

  /** On the example the search probes indices 4, 1, 2, 3. */
  lemma ExampleTrace()
    ensures ProbeTrace(ExampleList, 4.0, 0, 9) == [4, 1, 2, 3]
  {
    var a := ExampleList;
    assert ProbeTrace(a, 4.0, 3, 2) == [];
    assert ProbeTrace(a, 4.0, 3, 3) == [3];
    assert ProbeTrace(a, 4.0, 2, 3) == [2, 3];
    assert ProbeTrace(a, 4.0, 0, 3) == [1, 2, 3];
  }

  /** The example run answers four probes and the element 4.0. */
  method ExampleSearch() returns (count: nat, upperNum: Option<real>)
    ensures count == 4 && upperNum == Some(4.0)
  {
    ExampleTrace();
    count, upperNum := BiSearch(ExampleList, 4.0);
    assert |ProbeTrace(ExampleList, 4.0, 0, 9)| == 4;
    assert ExampleList[3] == 4.0 && ExampleList[2] < 4.0;
  }
}
