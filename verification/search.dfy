/** The search operations of MyArrayList: indexOf (through the private
    indexOfRange), contains, containsAll and isEmpty. A query is a Java reference
    and may be null; the live elements never are. */
module Search {
  import opened Storage

  /** isEmpty(). */
  function IsEmpty<T>(l: MyList<T>): (r: bool)
    requires Valid(l)
    ensures r <==> Contents(l) == []
  {
    l.size == 0
  }

  /** The private indexOfRange(o, start, end). For a non-null query it returns the
      first index in [start, end) whose element equals `o`, or -1. For a null query
      the loop compares the array reference itself with null, which never holds, so
      the answer is -1 whatever the slots hold. */
  function IndexOfRange<T(==)>(l: MyList<T>, o: Ref<T>, start: int, end: int): (r: int)
    requires Valid(l) && 0 <= start && end <= l.size
    ensures r == -1 || start <= r < end
    ensures o.Null? ==> r == -1
    ensures o.Obj? && r >= 0 ==> l.data[r] == o
    ensures o.Obj? ==> forall k :: start <= k < end && (r == -1 || k < r) ==> l.data[k] != o
    decreases end - start
  {
    if o.Null? then
      -1        // `elementData == null` is never true
    else if start >= end then
      -1
    else if o.value == l.data[start].value then
      start
    else
      IndexOfRange(l, o, start + 1, end)
  }

  /** indexOf(Object): the first position of `o` among the live elements, or -1;
      always -1 for a null query. */
  function IndexOf<T(==)>(l: MyList<T>, o: Ref<T>): (r: int)
    requires Valid(l)
    ensures o.Obj? && o.value in Contents(l) ==>
              0 <= r < |Contents(l)| && Contents(l)[r] == o.value && o.value !in Contents(l)[..r]
    ensures !(o.Obj? && o.value in Contents(l)) ==> r == -1
  {
    var r := IndexOfRange(l, o, 0, l.size);
    assert o.Obj? && r == -1 ==> o.value !in Contents(l) by {
      if o.Obj? && r == -1 {
        forall k | 0 <= k < l.size ensures Contents(l)[k] != o.value {
          assert l.data[k] != o;
        }
      }
    }
    assert o.Obj? && r >= 0 ==> o.value !in Contents(l)[..r] by {
      if o.Obj? && r >= 0 {
        forall k | 0 <= k < r ensures Contents(l)[k] != o.value {
          assert l.data[k] != o;
        }
      }
    }
    r
  }

  /** contains(Object): whether indexOf found the query. */
  function Contains<T(==)>(l: MyList<T>, o: Ref<T>): (r: bool)
    requires Valid(l)
    ensures r <==> o.Obj? && o.value in Contents(l)
  {
    IndexOf(l, o) >= 0
  }

  /** contains and indexOf agree: the query is contained exactly when indexOf finds
      a position for it, and a null query is never contained. */
  lemma ContainsIffIndexOfFound<T>(l: MyList<T>, o: Ref<T>)
    requires Valid(l)
    ensures Contains(l, o) <==> IndexOf(l, o) >= 0
    ensures o.Null? ==> !Contains(l, o)
  {
  }

  /** The loop of containsAll: whether every query of `c` from position `from` on is contained. */
  function AllContained<T(==)>(l: MyList<T>, c: seq<Ref<T>>, from: nat): (r: bool)
    requires Valid(l) && from <= |c|
    ensures r <==> forall k :: from <= k < |c| ==> c[k].Obj? && c[k].value in Contents(l)
    decreases |c| - from
  {
    if from == |c| then true
    else if !Contains(l, c[from]) then false
    else AllContained(l, c, from + 1)
  }

  /** containsAll(Collection): an empty argument answers false for a non-empty list
      and true for an empty one; otherwise every query must be contained (a null
      query never is). */
  function ContainsAll<T(==)>(l: MyList<T>, c: seq<Ref<T>>): (r: bool)
    requires Valid(l)
    ensures r <==> && (c == [] ==> Contents(l) == [])
                   && forall k :: 0 <= k < |c| ==> c[k].Obj? && c[k].value in Contents(l)
  {
    if |c| == 0 && !IsEmpty(l) then false
    else AllContained(l, c, 0)
  }

  /** Every list contains all of its own elements, including the empty list. */
  lemma ContainsAllOfItself<T>(l: MyList<T>)
    requires Valid(l)
    ensures ContainsAll(l, Wrap(Contents(l)))
  {
  }
}
