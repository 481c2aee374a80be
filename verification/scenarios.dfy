/** The repository's own tests replayed on the model (the sort test with
    PersonAgeComparator, the addAll / toArray tests), together with small worked
    examples on integers: an ascending sort, add / indexOf / remove, the scan of
    remove(Object) past a stale slot, and the lists that cannot grow. */
module Scenarios {
  import opened Outcomes
  import opened Storage
  import opened Positional
  import opened Search
  import opened Bulk
  import opened QuickSort

  /** A test person, reduced to what the comparator reads, its age, and a tag that
      tells the five persons of the sort test apart. */
  datatype Person = Person(age: int, tag: nat)

  /** PersonAgeComparator: `Integer.compare(o1.getAge(), o2.getAge())`. */
  function ByAge(x: Person, y: Person): int {
    if x.age < y.age then -1 else if x.age > y.age then 1 else 0
  }

  /** Integer.compare, the ascending order of the integer examples. */
  function Ascending(x: int, y: int): int {
    if x < y then -1 else if x > y then 1 else 0
  }

  /** Both comparators are total preorders, so sort may be used with them. */
  lemma ComparatorsArePreorders()
    ensures TotalPreorder(ByAge)
    ensures TotalPreorder(Ascending)
  {
  }

  /** The quickSort of five values that the comparator orders like the ages
      20, 18, 20, 21, 19. Pivot x3 first: one swap of the ends and one self-swap
      leave [x5, x2 | x3 | x4, x1]; the left pair is then swapped around pivot x5,
      the right pair around pivot x4. The two values equal to the first pivot end
      up in the order x3, x1. */
  lemma FiveValueTrace<T(!new)>(cmp: (T, T) -> int, x1: T, x2: T, x3: T, x4: T, x5: T)
    requires TotalPreorder(cmp)
    requires cmp(x1, x3) == 0 && cmp(x2, x3) < 0 && cmp(x4, x3) > 0 && cmp(x5, x3) < 0
    requires cmp(x2, x5) < 0 && cmp(x1, x4) < 0
    ensures QuickSortRange([x1, x2, x3, x4, x5], 0, 4, cmp) == [x2, x5, x3, x1, x4]
  {
    var s1 := [x5, x2, x3, x4, x1];
    var s2 := [x2, x5, x3, x4, x1];
    var s3 := [x2, x5, x3, x1, x4];
    assert cmp(s1[0 + 1], s1[0]) < 0 && s2 == s1[0 := s1[0 + 1]][0 + 1 := s1[0]];
    assert cmp(s2[3 + 1], s2[3]) < 0 && s3 == s2[3 := s2[3 + 1]][3 + 1 := s2[3]];
    PairSwapped(cmp, s1, 0, s2);
    PairSwapped(cmp, s2, 3, s3);
    OuterLevel(cmp, x1, x2, x3, x4, x5);
  }

  /** The first level of that quickSort: after the first partition both sides
      hold two elements, and each is sorted in turn. */
  lemma OuterLevel<T(!new)>(cmp: (T, T) -> int, x1: T, x2: T, x3: T, x4: T, x5: T)
    requires TotalPreorder(cmp)
    requires cmp(x1, x3) == 0 && cmp(x2, x3) < 0 && cmp(x4, x3) > 0 && cmp(x5, x3) < 0
    ensures QuickSortRange([x1, x2, x3, x4, x5], 0, 4, cmp)
              == QuickSortRange(QuickSortRange([x5, x2, x3, x4, x1], 0, 1, cmp), 3, 4, cmp)
  {
    FirstPartition(cmp, x1, x2, x3, x4, x5);
    BothSidesRecurse([x1, x2, x3, x4, x5], 0, 4, x3, cmp, [x5, x2, x3, x4, x1], 3, 1);
  }

  /** The first partition, around x3: the first pass swaps the ends, the second
      crosses the pointers at 3 and 1. */
  lemma {:induction false} FirstPartition<T(!new)>(cmp: (T, T) -> int, x1: T, x2: T, x3: T, x4: T, x5: T)
    requires TotalPreorder(cmp)
    requires cmp(x1, x3) == 0 && cmp(x2, x3) < 0 && cmp(x4, x3) > 0 && cmp(x5, x3) < 0
    ensures FirstPass([x1, x2, x3, x4, x5], 0, 4, x3, cmp, [x5, x2, x3, x4, x1], 3, 1)
  {
    FirstPassSwapsEnds(cmp, x1, x2, x3, x4, x5);
    SecondPassCrosses(cmp, x1, x2, x3, x4, x5);
  }

  /** The first pass of that partition: both scans stop at once, at the two ends,
      which are swapped. */
  lemma {:induction false} FirstPassSwapsEnds<T(!new)>(cmp: (T, T) -> int, x1: T, x2: T, x3: T, x4: T, x5: T)
    requires TotalPreorder(cmp)
    requires cmp(x1, x3) == 0 && cmp(x5, x3) < 0
    ensures var s0 := [x1, x2, x3, x4, x5];
            && s0[0 + (4 - 0) / 2] == x3 && PartitionInv(s0, 0, 4, x3, 0, 4, cmp)
            && ScanUp(s0, 0, x3, cmp) == 0 && ScanDown(s0, 4, x3, cmp) == 4
            && s0[0 := s0[4]][4 := s0[0]] == [x5, x2, x3, x4, x1]
  {
    var s0 := [x1, x2, x3, x4, x5];
    assert s0[0 + (4 - 0) / 2] == x3;
    PartitionStarts(s0, 0, 4, 2, cmp);
    assert cmp(s0[0], x3) >= 0 && cmp(s0[4], x3) <= 0;
    assert s0[0 := x5][4 := x1] == [x5, x2, x3, x4, x1];
  }

  /** The second pass of that partition: both scans stop at the pivot, which is
      swapped with itself, and the pointers cross at 3 and 1. */
  lemma {:induction false} SecondPassCrosses<T(!new)>(cmp: (T, T) -> int, x1: T, x2: T, x3: T, x4: T, x5: T)
    requires TotalPreorder(cmp)
    requires cmp(x1, x3) == 0 && cmp(x2, x3) < 0 && cmp(x4, x3) > 0 && cmp(x5, x3) < 0
    ensures PartitionInv([x5, x2, x3, x4, x1], 0, 4, x3, 1, 3, cmp)
    ensures PartitionLoop([x5, x2, x3, x4, x1], 0, 4, x3, 1, 3, cmp) == Split([x5, x2, x3, x4, x1], 3, 1)
  {
    var s1 := [x5, x2, x3, x4, x1];
    SecondPassScans(cmp, x1, x2, x3, x4, x5);
    assert PartitionLoop(s1, 0, 4, x3, 3, 1, cmp) == Split(s1, 3, 1);
  }

  /** In the second pass x2 is below the pivot and x4 above it, so both scans stop
      at slot 2, the pivot itself. */
  lemma {:induction false} SecondPassScans<T(!new)>(cmp: (T, T) -> int, x1: T, x2: T, x3: T, x4: T, x5: T)
    requires TotalPreorder(cmp)
    requires cmp(x1, x3) == 0 && cmp(x2, x3) < 0 && cmp(x4, x3) > 0 && cmp(x5, x3) < 0
    ensures var s1 := [x5, x2, x3, x4, x1];
            && PartitionInv(s1, 0, 4, x3, 1, 3, cmp) && cmp(s1[2], x3) == 0
            && ScanUp(s1, 1, x3, cmp) == 2 && ScanDown(s1, 3, x3, cmp) == 2
            && s1[2 := s1[2]][2 := s1[2]] == s1
  {
    var s1 := [x5, x2, x3, x4, x1];
    assert cmp(x3, x3) == 0 by {
      assert !(cmp(x3, x3) < 0);
    }
    assert PartitionInv(s1, 0, 4, x3, 1, 3, cmp);
  }

  /** quickSort on the pair at `low` and `low + 1` when the second sorts strictly
      before the first: the pivot is the first, the two are swapped, and the
      pointers cross so that neither side recurses. */
  lemma PairSwapped<T(!new)>(cmp: (T, T) -> int, a: seq<T>, low: int, b: seq<T>)
    requires TotalPreorder(cmp)
    requires 0 <= low && low + 1 < |a| && cmp(a[low + 1], a[low]) < 0
    requires b == a[low := a[low + 1]][low + 1 := a[low]]
    ensures QuickSortRange(a, low, low + 1, cmp) == b
  {
    PairPartition(cmp, a, low);
    NeitherSideRecurses(a, low, low + 1, a[low], cmp, b, low + 1, low);
  }

  /** The partition of such a pair swaps it and leaves the pointers crossed just
      past the first slot. */
  lemma {:induction false} PairPartition<T(!new)>(cmp: (T, T) -> int, a: seq<T>, low: int)
    requires TotalPreorder(cmp)
    requires 0 <= low && low + 1 < |a| && cmp(a[low + 1], a[low]) < 0
    ensures FirstPass(a, low, low + 1, a[low], cmp, a[low := a[low + 1]][low + 1 := a[low]], low + 1, low)
  {
    assert low + (low + 1 - low) / 2 == low;
    var pivot := a[low];
    var b := a[low := a[low + 1]][low + 1 := a[low]];
    PartitionStarts(a, low, low + 1, low, cmp);
    assert cmp(pivot, pivot) == 0 by {
      assert !(cmp(pivot, pivot) < 0);
    }
    assert ScanUp(a, low, pivot, cmp) == low;
    assert ScanDown(a, low + 1, pivot, cmp) == low + 1;
    assert PartitionLoop(b, low, low + 1, pivot, low + 1, low, cmp) == Split(b, low + 1, low);
  }

  /** The partition step of quickSort(low, high): the pivot is the value at the
      midpoint of the range, and partitioning around it leaves `b` with the
      pointers crossed at `i` and `j`. */
  ghost predicate FirstPass<T>(a: seq<T>, low: int, high: int, pivot: T, cmp: (T, T) -> int, b: seq<T>, i: int, j: int) {
    && 0 <= low < high < |a| && pivot == a[low + (high - low) / 2]
    && PartitionInv(a, low, high, pivot, low, high, cmp)
    && PartitionLoop(a, low, high, pivot, low, high, cmp) == Split(b, i, j)
  }

  /** One level of quickSort(low, high) whose partition step (FirstPass) ends with
      the pointers at `i` and `j` and leaves fewer than two
      elements on each side: the partitioned array is the result. */
  lemma NeitherSideRecurses<T(!new)>(a: seq<T>, low: int, high: int, pivot: T, cmp: (T, T) -> int, b: seq<T>, i: int, j: int)
    requires TotalPreorder(cmp) && FirstPass(a, low, high, pivot, cmp, b, i, j)
    requires j <= low && high <= i
    ensures QuickSortRange(a, low, high, cmp) == b
  {
  }

  /** One level of quickSort(low, high) whose partition step (FirstPass) ends with
      the pointers at `i` and `j` and leaves two or more elements
      on each side: the left side is sorted, then the right one. */
  lemma BothSidesRecurse<T(!new)>(a: seq<T>, low: int, high: int, pivot: T, cmp: (T, T) -> int, b: seq<T>, i: int, j: int)
    requires TotalPreorder(cmp) && FirstPass(a, low, high, pivot, cmp, b, i, j)
    requires low < j && i < high
    ensures QuickSortRange(a, low, high, cmp) == QuickSortRange(QuickSortRange(b, low, j, cmp), i, high, cmp)
  {
  }

  /** testSort_withPersonAge: persons aged 20, 18, 20, 21, 19 sort to the second,
      fifth, third, first and fourth person; of the two persons aged 20 the third
      comes before the first. */
  lemma SortByAgeReplay(l: MyList<Person>)
    requires Valid(l)
    requires Contents(l) == [Person(20, 1), Person(18, 2), Person(20, 3), Person(21, 4), Person(19, 5)]
    ensures && TotalPreorder(ByAge)
            && Contents(Sort(l, ByAge)) == [Person(18, 2), Person(19, 5), Person(20, 3), Person(20, 1), Person(21, 4)]
  {
    ComparatorsArePreorders();
    FiveValueTrace(ByAge, Person(20, 1), Person(18, 2), Person(20, 3), Person(21, 4), Person(19, 5));
  }

  /** A sort example: the integers 20, 18, 20, 21, 19 sort ascending. */
  lemma SortIntegersExample(l: MyList<int>)
    requires Valid(l) && Contents(l) == [20, 18, 20, 21, 19]
    ensures TotalPreorder(Ascending) && Contents(Sort(l, Ascending)) == [18, 19, 20, 20, 21]
  {
    ComparatorsArePreorders();
    FiveValueTrace(Ascending, 20, 18, 20, 21, 19);
  }

  /** An add / indexOf / remove example: a default list given 18, 19 and 20 finds
      19 at position 1, removes it answering true, and holds [18, 20]. */
  lemma AddFindRemoveExample()
    ensures var l1 := Add(Default(), 18).list;
            var l2 := Add(l1, 19).list;
            var l3 := Add(l2, 20).list;
            && Contents(l3) == [18, 19, 20]
            && IndexOf(l3, Obj(19)) == 1
            && RemoveObject(l3, 19).out == Ok(true)
            && Contents(RemoveObject(l3, 19).list) == [18, 20]
  {
    var l0: MyList<int> := Default();
    var l1 := Add(l0, 18).list;
    assert |l1.data| == DefaultCapacity;
    var l2 := Add(l1, 19).list;
    var l3 := Add(l2, 20).list;
    assert Contents(l3) == [18, 19, 20];
    FindRemoveMiddle(l3);
  }

  /** The search and removal half of the replay, on any list holding 18, 19, 20. */
  lemma FindRemoveMiddle(l: MyList<int>)
    requires Valid(l) && Contents(l) == [18, 19, 20]
    ensures IndexOf(l, Obj(19)) == 1
    ensures RemoveObject(l, 19).out == Ok(true)
    ensures Contents(RemoveObject(l, 19).list) == [18, 20]
  {
    var c := [18, 19, 20];
    assert c[1] == 19 && c[..0] == [];
    var r := RemoveObject(l, 19);
    var k :| && 0 <= k < |c| && c[k] == 19 && 19 !in c[..k]
             && Contents(r.list) == c[..k] + c[k + 1..];
    assert k == 1;
  }

  /** remove(Object) of an absent value scans on past a stale slot that holds some
      other value: a null after it still throws, and an array with no null and no
      copy of the value answers false although it is not full. */
  lemma RemoveAbsentScansOn()
    ensures RemoveObject(MyList([Obj(2), Obj(2), Null], 1, false), 5) ==
            Ret(MyList([Obj(2), Obj(2), Null], 1, false), Throw(NullPointer))
    ensures RemoveObject(MyList([Obj(2), Obj(2)], 1, false), 5) ==
            Ret(MyList([Obj(2), Obj(2)], 1, false), Ok(false))
  {
  }

  /** testAddAll and the fixture: a default list, and a list made with initial
      capacity 6, given all elements of a non-empty list by addAll, answer true and
      return the same toArray(). */
  lemma AddAllThenToArrayReplay<T>(l: MyList<T>)
    requires Valid(l) && l.size > 0
    ensures var d := AddAll(Default(), Contents(l));
            d.out == Ok(true) && ToArray(d.list) == ToArray(l)
    ensures l.size <= 6 ==>
              var w := WithCapacity(6).value;
              var d := AddAll(w, Contents(l));
              d.out == Ok(true) && ToArray(d.list) == ToArray(l)
  {
  }

  /** testAddAll_withEmptyListThrowsException and its two neighbours: on an empty
      list addAll(int, Collection) rejects every index, 0 included. */
  lemma AddAllAtOnEmptyReplay<T>(c: seq<T>, index: int)
    ensures AddAllAt(Default(), index, c) == Ret(Default(), Throw(IndexOutOfBounds))
  {
  }

  /** A list made with initial capacity 0 or 1 cannot hold more than one element:
      growth keeps its length, so add(E) on it, full, throws. */
  lemma SmallCapacityStuck<T>(e: T, f: T)
    ensures Add(WithCapacity(0).value, e).out == Throw(ArrayIndexOutOfBounds)
    ensures var one := Add(WithCapacity(1).value, e);
            && one.out == Ok(true)
            && Add(one.list, f).out == Throw(ArrayIndexOutOfBounds)
  {
    var one := Add(WithCapacity(1).value, e);
    assert |one.list.data| == 1;
  }
}
