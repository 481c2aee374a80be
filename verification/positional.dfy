/** The positional operations of MyArrayList: add, add(int, E), get, set,
    remove(int), remove(Object) and clear. Each takes the list state and returns
    the new state with the outcome; every bound check happens before any write. */
module Positional {
  import opened Outcomes
  import opened Storage

  /** The room test shared by add(E) and add(int, E): a full array is grown once,
      and the store succeeds when that made room. */
  predicate HasRoomForOne<T>(l: MyList<T>) {
    l.size < |l.data| || l.deferred || |l.data| >= 2
  }

  /** The array add(E) and add(int, E) write into: grown once when full. */
  function GrownForOne<T>(l: MyList<T>): (g: MyList<T>)
    requires Valid(l)
    ensures Valid(g) && g.size == l.size && Contents(g) == Contents(l)
    ensures g.size < |g.data| <==> HasRoomForOne(l)
    ensures !HasRoomForOne(l) ==> g == l
    ensures |l.data| <= |g.data| && forall k :: 0 <= k < |l.data| ==> g.data[k] == l.data[k]
  {
    if l.size == |l.data| then
      GrowMakesRoom(l, l.size + 1);
      assert !HasRoomForOne(l) ==> Grow(l, l.size + 1) == l by {
        if !HasRoomForOne(l) { GrowStuck(l, l.size + 1); }
      }
      Grow(l, l.size + 1)
    else l
  }

  /** add(E): appends `e` and returns true; when growth made no room the array
      store throws and the list is as it was. */
  function Add<T>(l: MyList<T>, e: T): (r: Ret<T, bool>)
    requires Valid(l)
    ensures Valid(r.list)
    ensures r.out.Ok? <==> HasRoomForOne(l)
    ensures r.out.Ok? ==> r.out.value && Contents(r.list) == Contents(l) + [e]
    ensures r.out.Throw? ==> r.out.exc == ArrayIndexOutOfBounds && r.list == l
    ensures |r.list.data| >= |l.data|
    ensures forall k :: l.size < k < |l.data| ==> r.list.data[k] == l.data[k]
  {
    var g := GrownForOne(l);
    if l.size < |g.data| then
      var l' := MyList(g.data[l.size := Obj(e)], l.size + 1, g.deferred);
      assert Contents(l') == Contents(l) + [e];
      Ret(l', Ok(true))
    else
      Ret(g, Throw(ArrayIndexOutOfBounds))
  }

  /** add(int index, E element): inserts before position `index`, shifting the tail
      right with System.arraycopy. */
  function Insert<T>(l: MyList<T>, index: int, e: T): (r: Ret<T, ()>)
    requires Valid(l)
    ensures Valid(r.list)
    ensures r.out.Ok? <==> 0 <= index <= l.size && HasRoomForOne(l)
    ensures !(0 <= index <= l.size) ==> r.out == Throw(IndexOutOfBounds)
    ensures 0 <= index <= l.size && !HasRoomForOne(l) ==> r.out == Throw(ArrayIndexOutOfBounds)
    ensures r.out.Throw? ==> r.list == l
    ensures r.out.Ok? ==> Contents(r.list) == Contents(l)[..index] + [e] + Contents(l)[index..]
    ensures |r.list.data| >= |l.data|
    ensures forall k :: l.size < k < |l.data| ==> r.list.data[k] == l.data[k]
  {
    if index > l.size || index < 0 then
      Ret(l, Throw(IndexOutOfBounds))
    else
      var g := GrownForOne(l);
      match ArrayCopy(g.data, index, g.data, index + 1, l.size - index)
      case Throw(x) => Ret(g, Throw(x))
      case Ok(shifted) =>
        InsertShiftSlots(g, index, e, shifted);
        Ret(MyList(shifted[index := Obj(e)], l.size + 1, g.deferred), Ok(()))
  }

  /** The copy and store of add(int, E), slot by slot: the tail moves up by one and
      the new element fills the gap. */
  lemma InsertShiftSlots<T>(g: MyList<T>, index: nat, e: T, shifted: seq<Ref<T>>)
    requires Valid(g) && index <= g.size < |g.data|
    requires shifted == Blit(g.data, index, g.data, index + 1, g.size - index)
    ensures Valid(MyList(shifted[index := Obj(e)], g.size + 1, g.deferred))
    ensures Contents(MyList(shifted[index := Obj(e)], g.size + 1, g.deferred)) == Contents(g)[..index] + [e] + Contents(g)[index..]
  {
    BlitSlots(g.data, index, g.data, index + 1, g.size - index);
    var cs := Contents(g);
    var want := cs[..index] + [e] + cs[index..];
    forall k | 0 <= k < g.size + 1 ensures shifted[index := Obj(e)][k] == Obj(want[k]) {
      if k < index {
        assert want[k] == cs[k];
      } else if k == index {
        assert want[k] == e;
      } else {
        assert want[k] == cs[k - 1];
      }
    }
    ContentsOfSlots(shifted[index := Obj(e)], g.size + 1, g.deferred, want);
  }

  /** Objects.checkIndex(index, size): the index names one of the live elements,
      whose slot holds it. */
  predicate InBounds<T>(l: MyList<T>, index: int): (b: bool)
    requires Valid(l)
    ensures b <==> 0 <= index < |Contents(l)|
    ensures b ==> l.data[index] == Obj(Contents(l)[index])
  {
    0 <= index < l.size
  }

  /** get(int). */
  function Get<T>(l: MyList<T>, index: int): (r: Result<T>)
    requires Valid(l)
    ensures r.Ok? <==> 0 <= index < |Contents(l)|
    ensures r.Ok? ==> r.value == Contents(l)[index]
    ensures r.Throw? ==> r.exc == IndexOutOfBounds
  {
    if !InBounds(l, index) then Throw(IndexOutOfBounds)
    else Ok(l.data[index].value)
  }

  /** set(int, E): replaces one element and returns the one it replaced. */
  function Set<T>(l: MyList<T>, index: int, e: T): (r: Ret<T, T>)
    requires Valid(l)
    ensures Valid(r.list)
    ensures r.out.Ok? <==> 0 <= index < |Contents(l)|
    ensures r.out.Ok? ==> && r.out.value == Contents(l)[index]
                          && Contents(r.list) == Contents(l)[index := e]
                          && |r.list.data| == |l.data| && r.list.deferred == l.deferred
    ensures r.out.Throw? ==> r.out.exc == IndexOutOfBounds && r.list == l
  {
    if !InBounds(l, index) then Ret(l, Throw(IndexOutOfBounds))
    else
      var oldValue := l.data[index].value;
      var l' := MyList(l.data[index := Obj(e)], l.size, l.deferred);
      assert Contents(l') == Contents(l)[index := e];
      Ret(l', Ok(oldValue))
  }

  /** remove(int): removes one element, shifting the tail left, and returns it.
      The vacated last slot is not cleared: it keeps a copy of the old last element. */
  function RemoveAt<T>(l: MyList<T>, index: int): (r: Ret<T, T>)
    requires Valid(l)
    ensures Valid(r.list)
    ensures r.out.Ok? <==> 0 <= index < |Contents(l)|
    ensures r.out.Ok? ==> && r.out.value == Contents(l)[index]
                          && Contents(r.list) == Contents(l)[..index] + Contents(l)[index + 1..]
                          && |r.list.data| == |l.data| && r.list.deferred == l.deferred
                          && r.list.data[r.list.size] == l.data[l.size - 1]
    ensures r.out.Throw? ==> r.out.exc == IndexOutOfBounds && r.list == l
  {
    if !InBounds(l, index) then Ret(l, Throw(IndexOutOfBounds))
    else
      var oldValue := l.data[index].value;
      var shifted := Blit(l.data, index + 1, l.data, index, l.size - index - 1);
      RemoveShiftSlots(l, index, shifted);
      Ret(MyList(shifted, l.size - 1, l.deferred), Ok(oldValue))
  }

  /** The copy of remove(int), slot by slot: the tail moves down over the removed
      slot, and the old last slot keeps its element. */
  lemma RemoveShiftSlots<T>(l: MyList<T>, index: nat, shifted: seq<Ref<T>>)
    requires Valid(l) && index < l.size
    requires shifted == Blit(l.data, index + 1, l.data, index, l.size - index - 1)
    ensures Valid(MyList(shifted, l.size - 1, l.deferred))
    ensures Contents(MyList(shifted, l.size - 1, l.deferred)) == Contents(l)[..index] + Contents(l)[index + 1..]
    ensures |shifted| == |l.data| && shifted[l.size - 1] == l.data[l.size - 1]
  {
    var want := Contents(l)[..index] + Contents(l)[index + 1..];
    RemoveKeepsHead(l, index, shifted, want);
    RemoveMovesTail(l, index, shifted, want);
    ContentsOfSlots(shifted, l.size - 1, l.deferred, want);
    BlitSlots(l.data, index + 1, l.data, index, l.size - index - 1);
  }

  /** The slots before the removed one are not touched by the copy of remove(int). */
  lemma RemoveKeepsHead<T>(l: MyList<T>, index: nat, shifted: seq<Ref<T>>, want: seq<T>)
    requires Valid(l) && index < l.size
    requires shifted == Blit(l.data, index + 1, l.data, index, l.size - index - 1)
    requires want == Contents(l)[..index] + Contents(l)[index + 1..]
    ensures forall k :: 0 <= k < index ==> shifted[k] == Obj(want[k])
  {
    BlitSlots(l.data, index + 1, l.data, index, l.size - index - 1);
  }

  /** The slots from the removed one on receive the elements one place further up. */
  lemma RemoveMovesTail<T>(l: MyList<T>, index: nat, shifted: seq<Ref<T>>, want: seq<T>)
    requires Valid(l) && index < l.size
    requires shifted == Blit(l.data, index + 1, l.data, index, l.size - index - 1)
    requires want == Contents(l)[..index] + Contents(l)[index + 1..]
    ensures forall k :: index <= k < l.size - 1 ==> shifted[k] == Obj(want[k])
  {
    BlitSlots(l.data, index + 1, l.data, index, l.size - index - 1);
    forall k | index <= k < l.size - 1 ensures shifted[k] == Obj(want[k]) {
      assert shifted[k] == l.data[k + 1];
    }
  }

  /** Where the scan of remove(Object) stops. */
  datatype ScanStop = NullAt(at: nat) | MatchAt(at: nat) | Exhausted

  /** No slot in [from, to) stops the scan: each holds an object different from `o`. */
  predicate PassesScan<T(==)>(data: seq<Ref<T>>, o: T, from: nat, to: nat)
    requires from <= to <= |data|
  {
    forall k :: from <= k < to ==> data[k].Obj? && data[k].value != o
  }

  /** The loop of remove(Object): it runs over the whole array, not just the live
      prefix, and dereferences each slot, so a null slot throws before a later match. */
  function ScanSlots<T(==)>(data: seq<Ref<T>>, o: T, from: nat): (r: ScanStop)
    requires from <= |data|
    ensures r.NullAt? ==> from <= r.at < |data| && data[r.at] == Null && PassesScan(data, o, from, r.at)
    ensures r.MatchAt? ==> from <= r.at < |data| && data[r.at] == Obj(o) && PassesScan(data, o, from, r.at)
    ensures r.Exhausted? ==> PassesScan(data, o, from, |data|)
    decreases |data| - from
  {
    if from == |data| then Exhausted
    else if data[from].Null? then NullAt(from)
    else if data[from].value == o then MatchAt(from)
    else ScanSlots(data, o, from + 1)
  }

  /** remove(Object). When `o` is live its first occurrence is removed. Otherwise
      the list never changes and the scan goes on past the live prefix: the answer
      is false exactly when every slot of the array holds an object other than `o`.
      When the first slot past the live prefix is null the call throws
      NullPointerException, and when it is a stale copy of `o` remove(int) rejects
      its index; any other slot there lets the scan continue to the next one. */
  function RemoveObject<T(==)>(l: MyList<T>, o: T): (r: Ret<T, bool>)
    requires Valid(l)
    ensures Valid(r.list)
    ensures o in Contents(l) ==>
              && r.out == Ok(true)
              && exists k :: && 0 <= k < |Contents(l)| && Contents(l)[k] == o && o !in Contents(l)[..k]
                             && Contents(r.list) == Contents(l)[..k] + Contents(l)[k + 1..]
    ensures |r.list.data| == |l.data| && r.list.deferred == l.deferred
    ensures o !in Contents(l) ==> r.list == l && r.out != Ok(true)
    ensures o !in Contents(l) ==> (r.out == Ok(false) <==> PassesScan(l.data, o, 0, |l.data|))
    ensures o !in Contents(l) && l.size == |l.data| ==> r.out == Ok(false)
    ensures o !in Contents(l) && l.size < |l.data| && l.data[l.size] == Null ==> r.out == Throw(NullPointer)
    ensures o !in Contents(l) && l.size < |l.data| && l.data[l.size] == Obj(o) ==> r.out == Throw(IndexOutOfBounds)
  {
    match ScanSlots(l.data, o, 0)
    case NullAt(_) => Ret(l, Throw(NullPointer))
    case Exhausted => Ret(l, Ok(false))
    case MatchAt(i) =>
      var removed := RemoveAt(l, i);
      if removed.out.Ok? then
        assert o !in Contents(l)[..i];
        Ret(removed.list, Ok(true))
      else Ret(removed.list, Throw(removed.out.exc))
  }

  /** clear(): nulls the live slots and empties the list; capacity, the slots past
      the old live prefix and the deferred-default flag stay. */
  function Clear<T>(l: MyList<T>): (r: MyList<T>)
    requires Valid(l)
    ensures Valid(r) && Contents(r) == []
    ensures |r.data| == |l.data| && r.deferred == l.deferred
    ensures forall i :: 0 <= i < l.size ==> r.data[i] == Null
    ensures forall i :: l.size <= i < |l.data| ==> r.data[i] == l.data[i]
  {
    MyList(seq(|l.data|, i requires 0 <= i < |l.data| => if i < l.size then Null else l.data[i]), 0, l.deferred)
  }

  /** Clearing twice is clearing once. */
  lemma ClearIdempotent<T>(l: MyList<T>)
    requires Valid(l)
    ensures Clear(Clear(l)) == Clear(l)
  {
    assert Clear(Clear(l)).data == Clear(l).data;
  }

  /** After set(i, v), get(i) returns v and every other index is untouched. */
  lemma SetThenGet<T>(l: MyList<T>, i: int, v: T, j: int)
    requires Valid(l) && 0 <= i < l.size
    ensures Get(Set(l, i, v).list, i) == Ok(v)
    ensures j != i ==> Get(Set(l, i, v).list, j) == Get(l, j)
  {
  }

  /** A successful add(E) makes the appended value the last element. */
  lemma AddThenGetLast<T>(l: MyList<T>, e: T)
    requires Valid(l) && HasRoomForOne(l)
    ensures Add(l, e).list.size == l.size + 1
    ensures Get(Add(l, e).list, l.size) == Ok(e)
  {
  }

  /** remove(int) undoes add(int, E) at the same index. */
  lemma InsertThenRemoveAt<T>(l: MyList<T>, i: int, e: T)
    requires Valid(l) && 0 <= i <= l.size && HasRoomForOne(l)
    ensures RemoveAt(Insert(l, i, e).list, i).out == Ok(e)
    ensures Contents(RemoveAt(Insert(l, i, e).list, i).list) == Contents(l)
  {
    var c := Contents(l);
    assert (c[..i] + [e] + c[i..])[..i] + (c[..i] + [e] + c[i..])[i + 1..] == c;
  }
}
