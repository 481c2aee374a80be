/** The fields of MyArrayList, its constructors, System.arraycopy, and the growth policy.

    The backing `Object[] elementData` is a sequence of slots, each Java `null` or a
    reference to an element; its length is the capacity. The two shared empty arrays
    of the source differ only by identity, so the model records with a flag whether
    `elementData` is the deferred-default one. */
module Storage {
  import opened Outcomes

  /** DEFAULT_CAPACITY: the capacity the first growth of a default-constructed list allocates. */
  const DefaultCapacity: nat := 10

  /** A Java reference: `null`, or an object of the element type. */
  datatype Ref<T> = Null | Obj(value: T)

  /** elementData, size, and whether elementData is DEFAULT_CAPACITY_EMPTY_ELEMENT_DATA. */
  datatype MyList<T> = MyList(data: seq<Ref<T>>, size: nat, deferred: bool)

  /** A list operation's new state together with its outcome. */
  datatype Ret<T, R> = Ret(list: MyList<T>, out: Result<R>)

  /** Representation invariant: the live prefix fits the array and holds no null,
      and the deferred-default array is the empty one. */
  predicate Valid<T>(l: MyList<T>) {
    && l.size <= |l.data|
    && (forall i :: 0 <= i < l.size ==> l.data[i].Obj?)
    && (l.deferred ==> |l.data| == 0)
  }

  /** The abstract value of a list: its live elements `elementData[0..size)`. */
  function Contents<T>(l: MyList<T>): (s: seq<T>)
    requires Valid(l)
    ensures |s| == l.size
    ensures forall i :: 0 <= i < l.size ==> l.data[i] == Obj(s[i])
  {
    seq(l.size, i requires 0 <= i < l.size => l.data[i].value)
  }

  /** A state whose first `size` slots hold the elements of `s` is valid and has contents `s`. */
  lemma ContentsOfSlots<T>(data: seq<Ref<T>>, size: nat, deferred: bool, s: seq<T>)
    requires size <= |data| && |s| == size && (deferred ==> |data| == 0)
    requires forall k :: 0 <= k < size ==> data[k] == Obj(s[k])
    ensures Valid(MyList(data, size, deferred))
    ensures Contents(MyList(data, size, deferred)) == s
  {
  }

  /** `c.toArray()` of a collection of non-null elements. */
  function Wrap<T>(c: seq<T>): (a: seq<Ref<T>>)
    ensures |a| == |c|
    ensures forall i :: 0 <= i < |c| ==> a[i] == Obj(c[i])
  {
    seq(|c|, i requires 0 <= i < |c| => Obj(c[i]))
  }

  /** A run of `n` null slots, as a fresh Java array or the padding of Arrays.copyOf. */
  function Nulls<T>(n: nat): (a: seq<Ref<T>>)
    ensures |a| == n
    ensures forall i :: 0 <= i < n ==> a[i] == Null
  {
    if n == 0 then [] else Nulls(n - 1) + [Null]
  }

  // ---------------------------------------------------------------- arraycopy

  /** The in-bounds part of System.arraycopy: `dest` with the `length` slots
      starting at `destPos` replaced by the slots of `src` starting at `srcPos`.
      Both arrays are values here, so copying within one array reads the slots as
      they were before the copy, which is what the JDK promises for overlapping
      ranges. */
  function Blit<T>(src: seq<Ref<T>>, srcPos: nat, dest: seq<Ref<T>>, destPos: nat, length: nat): (r: seq<Ref<T>>)
    requires srcPos + length <= |src| && destPos + length <= |dest|
    ensures |r| == |dest|
  {
    seq(|dest|, k requires 0 <= k < |dest| =>
      if destPos <= k < destPos + length then src[srcPos + k - destPos] else dest[k])
  }

  /** The copy replaces exactly the `length` slots from `destPos` on, each by the
      corresponding slot of `src`, and keeps every other slot of `dest`. */
  lemma BlitSlots<T>(src: seq<Ref<T>>, srcPos: nat, dest: seq<Ref<T>>, destPos: nat, length: nat)
    requires srcPos + length <= |src| && destPos + length <= |dest|
    ensures var r := Blit(src, srcPos, dest, destPos, length);
            && (forall k :: 0 <= k < destPos ==> r[k] == dest[k])
            && (forall k :: destPos <= k < destPos + length ==> r[k] == src[srcPos + k - destPos])
            && (forall k :: destPos + length <= k < |dest| ==> r[k] == dest[k])
  {
  }

  /** System.arraycopy: throws ArrayIndexOutOfBoundsException, before writing
      anything, when either range leaves its array or a position or the length is negative. */
  function ArrayCopy<T>(src: seq<Ref<T>>, srcPos: int, dest: seq<Ref<T>>, destPos: int, length: int): (r: Result<seq<Ref<T>>>)
    ensures r.Ok? <==> 0 <= srcPos && 0 <= destPos && 0 <= length
                       && srcPos + length <= |src| && destPos + length <= |dest|
    ensures r.Throw? ==> r.exc == ArrayIndexOutOfBounds
    ensures r.Ok? ==> r.value == Blit(src, srcPos, dest, destPos, length)
  {
    if srcPos < 0 || destPos < 0 || length < 0 || srcPos + length > |src| || destPos + length > |dest| then
      Throw(ArrayIndexOutOfBounds)
    else
      Ok(Blit(src, srcPos, dest, destPos, length))
  }

  // ---------------------------------------------------------------- constructors

  /** MyArrayList(): the deferred-default empty list. */
  function Default<T>(): (l: MyList<T>)
    ensures Valid(l) && Contents(l) == []
    ensures l.deferred && |l.data| == 0
  {
    MyList([], 0, true)
  }

  /** MyArrayList(int initialCapacity). */
  function WithCapacity<T>(initialCapacity: int): (r: Result<MyList<T>>)
    ensures r.Throw? <==> initialCapacity < 0
    ensures r.Throw? ==> r.exc == IllegalArgument
    ensures r.Ok? ==> && Valid(r.value) && Contents(r.value) == []
                      && |r.value.data| == initialCapacity && !r.value.deferred
  {
    if initialCapacity > 0 then Ok(MyList(Nulls(initialCapacity), 0, false))
    else if initialCapacity == 0 then Ok(MyList([], 0, false))   // EMPTY_ELEMENT_DATA
    else Throw(IllegalArgument)
  }

  /** MyArrayList(Collection c): a copy of `c` with no spare capacity. */
  function FromCollection<T>(c: seq<T>): (l: MyList<T>)
    ensures Valid(l) && Contents(l) == c
    ensures |l.data| == |c| && !l.deferred
  {
    if |c| != 0 then MyList(Wrap(c), |c|, false)
    else MyList([], 0, false)                                     // EMPTY_ELEMENT_DATA
  }

  // ---------------------------------------------------------------- growth

  /** The private grow(minCapacity). Only the deferred-default array honours
      `minCapacity`; every other array is copied into one of length
      `old + old / 2`, which for lengths 0 and 1 is no larger. */
  function Grow<T>(l: MyList<T>, minCapacity: int): (r: MyList<T>)
    requires Valid(l)
    ensures Valid(r) && r.size == l.size && !r.deferred
    ensures Contents(r) == Contents(l)
    ensures l.deferred ==> |r.data| == if minCapacity > DefaultCapacity then minCapacity else DefaultCapacity
    ensures !l.deferred ==> |r.data| == |l.data| + |l.data| / 2
    ensures |l.data| <= |r.data|
    ensures forall i :: 0 <= i < |l.data| ==> r.data[i] == l.data[i]
    ensures forall i :: |l.data| <= i < |r.data| ==> r.data[i] == Null
  {
    var oldCapacity := |l.data|;
    if oldCapacity > 0 || !l.deferred then
      MyList(l.data + Nulls(oldCapacity / 2), l.size, false)
    else
      var n: nat := if minCapacity > DefaultCapacity then minCapacity else DefaultCapacity;
      MyList(Nulls(n), l.size, false)
  }

  /** Growth makes room exactly when the array is the deferred-default one or holds
      at least two slots. */
  lemma GrowMakesRoom<T>(l: MyList<T>, minCapacity: int)
    requires Valid(l)
    ensures |Grow(l, minCapacity).data| > |l.data| <==> l.deferred || |l.data| >= 2
  {
  }

  /** A list that is not deferred-default and whose capacity is 0 or 1 never gains room:
      growth leaves its state as it was. */
  lemma GrowStuck<T>(l: MyList<T>, minCapacity: int)
    requires Valid(l) && !l.deferred && |l.data| <= 1
    ensures Grow(l, minCapacity) == l
  {
    assert Grow(l, minCapacity).data == l.data;
  }

  /** The deferred-default array always grows to at least `minCapacity`. */
  lemma GrowDeferredHonoursMinimum<T>(l: MyList<T>, minCapacity: int)
    requires Valid(l) && l.deferred
    ensures |Grow(l, minCapacity).data| >= minCapacity
    ensures |Grow(l, minCapacity).data| >= DefaultCapacity
  {
  }
}
