/** sort(Comparator) and the private quickSort(low, high, c): an in-place Hoare
    partition quicksort whose pivot is the VALUE at the midpoint of the range,
    read once before partitioning.

    The comparator is a function returning a signed three-way answer. Each loop of
    the source is a recursive function here: the two pointer scans, the
    partition loop, and the recursion over sub-ranges. */
module QuickSort {
  import opened Storage

  /** What Comparator promises and the sort relies on: the sign of `cmp(x, y)` is
      the opposite of that of `cmp(y, x)`, and "not after" (`cmp <= 0`) is transitive.
      Together they make "not after" a total preorder. */
  ghost predicate TotalPreorder<T(!new)>(cmp: (T, T) -> int) {
    && (forall x, y :: cmp(x, y) < 0 <==> cmp(y, x) > 0)
    && (forall x, y, z {:trigger cmp(x, y), cmp(y, z), cmp(x, z)} :: cmp(x, y) <= 0 && cmp(y, z) <= 0 ==> cmp(x, z) <= 0)
  }

  /** Every adjacent pair of `s` is in order. */
  ghost predicate SortedBy<T>(s: seq<T>, cmp: (T, T) -> int) {
    forall k :: 0 <= k < |s| - 1 ==> cmp(s[k], s[k + 1]) <= 0
  }

  /** `x` lies on the low side of the pivot (`cmp <= 0`) or on the high side (`cmp >= 0`). */
  ghost predicate OnSide<T>(x: T, pivot: T, cmp: (T, T) -> int, low: bool) {
    if low then cmp(x, pivot) <= 0 else cmp(x, pivot) >= 0
  }

  /** `while (c.compare(elementData[i], border) < 0) i++;` The loop has no bound of
      its own: it stops at the first element not below the pivot, and an element
      not below the pivot further on keeps it inside the array. */
  function ScanUp<T>(a: seq<T>, i: nat, pivot: T, cmp: (T, T) -> int): (k: nat)
    requires exists m :: i <= m < |a| && cmp(a[m], pivot) >= 0
    ensures i <= k < |a| && cmp(a[k], pivot) >= 0
    ensures forall m :: i <= m < k ==> cmp(a[m], pivot) < 0
    decreases |a| - i
  {
    if cmp(a[i], pivot) < 0 then ScanUp(a, i + 1, pivot, cmp) else i
  }

  /** `while (c.compare(elementData[j], border) > 0) j--;` Symmetric to ScanUp: an
      element not above the pivot further down keeps it inside the array. */
  function ScanDown<T>(a: seq<T>, j: int, pivot: T, cmp: (T, T) -> int): (k: nat)
    requires j < |a|
    requires exists m :: 0 <= m <= j && cmp(a[m], pivot) <= 0
    ensures k <= j && cmp(a[k], pivot) <= 0
    ensures forall m :: k < m <= j ==> cmp(a[m], pivot) > 0
    decreases j
  {
    if cmp(a[j], pivot) > 0 then ScanDown(a, j - 1, pivot, cmp) else j
  }

  /** The state of the partition loop: the array and its two pointers. */
  datatype Split<T> = Split(a: seq<T>, i: int, j: int)

  /** What holds at the head of the partition loop of quickSort(low, high) with pivot
      value `pivot`: everything left of `i` is not above the pivot, everything right
      of `j` is not below it, and either no pass has run yet (and the pivot value
      still occurs in the range) or both pointers have moved. */
  ghost predicate PartitionInv<T>(a: seq<T>, low: int, high: int, pivot: T, i: int, j: int, cmp: (T, T) -> int) {
    && 0 <= low < high < |a|
    && low <= i <= high + 1 && low - 1 <= j <= high && i <= j + 2
    && (forall k :: low <= k < i ==> cmp(a[k], pivot) <= 0)
    && (forall k :: j < k <= high ==> cmp(a[k], pivot) >= 0)
    && ((i == low && j == high && exists m :: low <= m <= high && cmp(a[m], pivot) == 0)
        || (low < i && j < high))
  }

  /** `while (i <= j) { scan up; scan down; if (i <= j) { swap; i++; j--; } }`.
      On exit the pointers have crossed, every element of [low, i) is not above the
      pivot, every element of (j, high] is not below it, and the range was only
      permuted. Both pointers always moved, so each side is shorter than the range. */
  function PartitionLoop<T>(a: seq<T>, low: int, high: int, pivot: T, i: int, j: int, cmp: (T, T) -> int): (r: Split<T>)
    requires PartitionInv(a, low, high, pivot, i, j, cmp)
    ensures |r.a| == |a| && multiset(r.a) == multiset(a)
    ensures forall k :: 0 <= k < |a| && !(low <= k <= high) ==> r.a[k] == a[k]
    ensures low < r.i <= high + 1 && low - 1 <= r.j < high && r.j < r.i <= r.j + 2
    ensures forall k :: low <= k < r.i ==> cmp(r.a[k], pivot) <= 0
    ensures forall k :: r.j < k <= high ==> cmp(r.a[k], pivot) >= 0
    decreases j - i + 2
  {
    if i > j then
      Split(a, i, j)
    else
      UpScanStops(a, low, high, pivot, i, j, cmp);
      var i' := ScanUp(a, i, pivot, cmp);
      DownScanStops(a, low, high, pivot, i, j, i', cmp);
      var j' := ScanDown(a, j, pivot, cmp);
      if i' <= j' then
        var swapped := a[i' := a[j']][j' := a[i']];
        SwapKeepsInv(a, low, high, pivot, i, j, i', j', cmp);
        PartitionLoop(swapped, low, high, pivot, i' + 1, j' - 1, cmp)
      else
        CrossedPointers(a, low, high, pivot, i, j, i', j', cmp);
        Split(a, i', j')   // the pointers crossed: the loop test fails
  }

  /** In a pass, the scan up stops inside the array: at the pivot value on the first
      pass, at the element the previous pass put at `j + 1` afterwards. */
  lemma UpScanStops<T>(a: seq<T>, low: int, high: int, pivot: T, i: int, j: int, cmp: (T, T) -> int)
    requires PartitionInv(a, low, high, pivot, i, j, cmp) && i <= j
    ensures exists m :: i <= m <= j + 1 && m < |a| && cmp(a[m], pivot) >= 0
  {
    if low < i {
      assert cmp(a[j + 1], pivot) >= 0;
    } else {
      var m :| low <= m <= high && cmp(a[m], pivot) == 0;
      assert i <= m <= j + 1;
    }
  }

  /** The scan up stops at `j + 1` at the latest, and the scan down then stops inside
      the array: at the pivot value on the first pass, at the element the previous
      pass put at `i - 1` afterwards. */
  lemma DownScanStops<T>(a: seq<T>, low: int, high: int, pivot: T, i: int, j: int, i': int, cmp: (T, T) -> int)
    requires PartitionInv(a, low, high, pivot, i, j, cmp) && i <= j
    requires i <= i' < |a| && cmp(a[i'], pivot) >= 0 && forall m :: i <= m < i' ==> cmp(a[m], pivot) < 0
    ensures i' <= j + 1
    ensures exists m :: 0 <= m <= j && cmp(a[m], pivot) <= 0
  {
    UpScanStops(a, low, high, pivot, i, j, cmp);
    var m :| i <= m <= j + 1 && m < |a| && cmp(a[m], pivot) >= 0;
    if low < i {
      assert cmp(a[i - 1], pivot) <= 0;
      assert i - 1 <= j;
    } else {
      var z :| low <= z <= high && cmp(a[z], pivot) == 0;
      assert i' <= z;
    }
  }

  /** When the pointers cross, the pass ends the loop with the promised split. */
  lemma CrossedPointers<T>(a: seq<T>, low: int, high: int, pivot: T, i: int, j: int, i': int, j': int, cmp: (T, T) -> int)
    requires PartitionInv(a, low, high, pivot, i, j, cmp) && i <= j
    requires i <= i' <= j + 1 && i' < |a| && cmp(a[i'], pivot) >= 0 && forall m :: i <= m < i' ==> cmp(a[m], pivot) < 0
    requires 0 <= j' <= j && cmp(a[j'], pivot) <= 0 && forall m :: j' < m <= j ==> cmp(a[m], pivot) > 0
    requires j' < i'
    ensures low < i' <= high + 1 && low - 1 <= j' < high && j' < i' <= j' + 2
    ensures forall k :: low <= k < i' ==> cmp(a[k], pivot) <= 0
    ensures forall k :: j' < k <= high ==> cmp(a[k], pivot) >= 0
  {
    if low < i {
      assert cmp(a[i' - 1], pivot) <= 0;
      assert i' - 1 <= j';
    }
  }

  /** One pass of the partition loop that ends in a swap re-establishes the loop
      invariant with both pointers moved inward, and only permutes the range. */
  lemma SwapKeepsInv<T>(a: seq<T>, low: int, high: int, pivot: T, i: int, j: int, i': int, j': int, cmp: (T, T) -> int)
    requires PartitionInv(a, low, high, pivot, i, j, cmp) && i <= j
    requires i <= i' <= j' <= j
    requires cmp(a[i'], pivot) >= 0 && forall m :: i <= m < i' ==> cmp(a[m], pivot) < 0
    requires cmp(a[j'], pivot) <= 0 && forall m :: j' < m <= j ==> cmp(a[m], pivot) > 0
    ensures PartitionInv(a[i' := a[j']][j' := a[i']], low, high, pivot, i' + 1, j' - 1, cmp)
    ensures multiset(a[i' := a[j']][j' := a[i']]) == multiset(a)
    ensures forall k :: 0 <= k < |a| && !(low <= k <= high) ==> a[i' := a[j']][j' := a[i']][k] == a[k]
  {
    var b := a[i' := a[j']][j' := a[i']];
    forall k | low <= k < i' + 1 ensures cmp(b[k], pivot) <= 0 {
      if k == i' {
        assert b[k] == a[j'];
      } else {
        assert b[k] == a[k];
      }
    }
    forall k | j' - 1 < k <= high ensures cmp(b[k], pivot) >= 0 {
      if k == j' {
        assert b[k] == a[i'];
      } else {
        assert b[k] == a[k];
      }
    }
  }

  /** An arrangement that only permutes [lo, hi] keeps every element of that range
      on the side of the pivot it was on. */
  lemma {:induction false} PermutationKeepsSide<T>(a: seq<T>, r: seq<T>, lo: int, hi: int, pivot: T, cmp: (T, T) -> int, low: bool)
    requires |a| == |r| && multiset(a) == multiset(r)
    requires 0 <= lo && hi < |a|
    requires forall k :: 0 <= k < |a| && !(lo <= k <= hi) ==> r[k] == a[k]
    requires forall k :: lo <= k <= hi ==> OnSide(a[k], pivot, cmp, low)
    ensures forall k :: lo <= k <= hi ==> OnSide(r[k], pivot, cmp, low)
  {
    if lo <= hi {
      assert a == a[..lo] + a[lo..hi + 1] + a[hi + 1..];
      assert r == r[..lo] + r[lo..hi + 1] + r[hi + 1..];
      assert a[..lo] == r[..lo];
      assert a[hi + 1..] == r[hi + 1..];
      assert multiset(a) == multiset(a[..lo]) + multiset(a[lo..hi + 1]) + multiset(a[hi + 1..]);
      assert multiset(r) == multiset(r[..lo]) + multiset(r[lo..hi + 1]) + multiset(r[hi + 1..]);
      forall k | lo <= k <= hi ensures OnSide(r[k], pivot, cmp, low) {
        var x := r[k];
        assert r[lo..hi + 1][k - lo] == x;
        assert multiset(a)[x] == multiset(r)[x];
        assert multiset(a)[x] == multiset(a[..lo])[x] + multiset(a[lo..hi + 1])[x] + multiset(a[hi + 1..])[x];
        assert multiset(r)[x] == multiset(r[..lo])[x] + multiset(r[lo..hi + 1])[x] + multiset(r[hi + 1..])[x];
        assert multiset(a[lo..hi + 1])[x] == multiset(r[lo..hi + 1])[x];
        assert x in a[lo..hi + 1];
        var m :| 0 <= m < hi + 1 - lo && a[lo..hi + 1][m] == x;
        assert a[lo + m] == x;
      }
    }
  }

  /** quickSort(low, high, c): sorts [low, high] and leaves the rest alone. */
  function QuickSortRange<T(!new)>(a: seq<T>, low: int, high: int, cmp: (T, T) -> int): (r: seq<T>)
    requires TotalPreorder(cmp)
    requires low < high ==> 0 <= low && high < |a|
    ensures |r| == |a| && multiset(r) == multiset(a)
    ensures forall k :: 0 <= k < |a| && !(low <= k <= high) ==> r[k] == a[k]
    ensures forall k :: low <= k < high ==> cmp(r[k], r[k + 1]) <= 0
    decreases high - low
  {
    // The source also returns when elementData.length == 0; the live prefix is
    // then empty too, and an empty range returns anyway.
    if |a| == 0 || low >= high then
      a
    else
      var middle := low + (high - low) / 2;
      var border := a[middle];
      PartitionStarts(a, low, high, middle, cmp);
      var p := PartitionLoop(a, low, high, border, low, high, cmp);
      var left := if low < p.j then QuickSortRange(p.a, low, p.j, cmp) else p.a;
      var right := if high > p.i then QuickSortRange(left, p.i, high, cmp) else left;
      SortedAcrossPivot(a, low, high, border, p, left, right, cmp);
      right
  }

  /** Before the first pass nothing is classified yet, and the pivot value occurs in
      the range, at the midpoint it was read from. */
  lemma PartitionStarts<T(!new)>(a: seq<T>, low: int, high: int, middle: int, cmp: (T, T) -> int)
    requires TotalPreorder(cmp)
    requires 0 <= low <= middle <= high < |a| && low < high
    ensures PartitionInv(a, low, high, a[middle], low, high, cmp)
  {
    assert cmp(a[middle], a[middle]) == 0 by {
      assert !(cmp(a[middle], a[middle]) < 0);
    }
  }

  /** The combination step of quickSort: once both sides are sorted, the whole range
      is sorted, because everything left of the crossing is not above the pivot and
      everything right of it is not below. */
  lemma SortedAcrossPivot<T(!new)>(a: seq<T>, low: int, high: int, border: T, p: Split<T>, left: seq<T>, right: seq<T>, cmp: (T, T) -> int)
    requires TotalPreorder(cmp)
    requires 0 <= low < high < |a|
    requires |p.a| == |a| && low < p.i <= high + 1 && low - 1 <= p.j < high && p.j < p.i <= p.j + 2
    requires forall k :: low <= k < p.i ==> cmp(p.a[k], border) <= 0
    requires forall k :: p.j < k <= high ==> cmp(p.a[k], border) >= 0
    requires |left| == |a| && multiset(left) == multiset(p.a)
    requires forall k :: 0 <= k < |a| && !(low <= k <= p.j) ==> left[k] == p.a[k]
    requires forall k :: low <= k < p.j ==> cmp(left[k], left[k + 1]) <= 0
    requires |right| == |a| && multiset(right) == multiset(left)
    requires forall k :: 0 <= k < |a| && !(p.i <= k <= high) ==> right[k] == left[k]
    requires forall k :: p.i <= k < high ==> cmp(right[k], right[k + 1]) <= 0
    ensures forall k :: low <= k < high ==> cmp(right[k], right[k + 1]) <= 0
  {
    var i, j := p.i, p.j;
    PermutationKeepsSide(p.a, left, low, j, border, cmp, true);
    forall k | i <= k <= high ensures OnSide(left[k], border, cmp, false) {
    }
    PermutationKeepsSide(left, right, i, high, border, cmp, false);
    forall k | low <= k < high ensures cmp(right[k], right[k + 1]) <= 0 {
      if k + 1 <= j {
      } else if k >= i {
      } else {
        assert cmp(right[k], border) <= 0 by {
          if k <= j { assert OnSide(left[k], border, cmp, true); }
        }
        assert cmp(right[k + 1], border) >= 0 by {
          if k + 1 >= i { assert OnSide(right[k + 1], border, cmp, false); }
        }
        assert cmp(border, right[k + 1]) <= 0;
      }
    }
  }

  /** sort(Comparator): quickSort over the live prefix [0, size - 1]. The result is
      a sorted permutation of the old contents; the size, the capacity and the slots
      past the live prefix do not change, and lists of size 0 or 1 stay as they are. */
  function Sort<T(!new)>(l: MyList<T>, cmp: (T, T) -> int): (r: MyList<T>)
    requires Valid(l) && TotalPreorder(cmp)
    ensures Valid(r) && r.size == l.size && |r.data| == |l.data| && r.deferred == l.deferred
    ensures forall k :: l.size <= k < |l.data| ==> r.data[k] == l.data[k]
    ensures multiset(Contents(r)) == multiset(Contents(l))
    ensures SortedBy(Contents(r), cmp)
    ensures l.size <= 1 ==> r == l
  {
    var sorted := QuickSortRange(Contents(l), 0, l.size - 1, cmp);
    assert SortedBy(sorted, cmp);
    assert l.size <= 1 ==> sorted == Contents(l);
    WithContents(l, sorted)
  }

  /** The list with its live slots overwritten by `s`, slot by slot, as the in-place
      sort leaves it; every other slot and field stays. */
  function WithContents<T>(l: MyList<T>, s: seq<T>): (r: MyList<T>)
    requires Valid(l) && |s| == l.size
    ensures Valid(r) && Contents(r) == s
    ensures r.size == l.size && |r.data| == |l.data| && r.deferred == l.deferred
    ensures forall k :: l.size <= k < |l.data| ==> r.data[k] == l.data[k]
    ensures s == Contents(l) ==> r == l
  {
    var data := Wrap(s) + l.data[l.size..];
    assert forall k :: 0 <= k < l.size ==> data[k] == Obj(s[k]);
    assert forall k :: l.size <= k < |l.data| ==> data[k] == l.data[k];
    ContentsOfSlots(data, l.size, l.deferred, s);
    assert s == Contents(l) ==> data == l.data by {
      if s == Contents(l) {
        assert forall k :: 0 <= k < l.size ==> data[k] == l.data[k];
      }
    }
    MyList(data, l.size, l.deferred)
  }

  /** Adjacent order extends to every ordered pair of positions. */
  lemma {:induction false} SortedAllPairs<T(!new)>(s: seq<T>, cmp: (T, T) -> int, i: int, j: int)
    requires TotalPreorder(cmp) && SortedBy(s, cmp)
    requires 0 <= i <= j < |s|
    ensures cmp(s[i], s[j]) <= 0
    decreases j - i
  {
    if i == j {
      assert !(cmp(s[i], s[i]) < 0);
    } else {
      SortedAllPairs(s, cmp, i, j - 1);
    }
  }
}
