/** The bulk operations of MyArrayList: addAll, addAll(int, Collection), toArray()
    and toArray(T[]). The argument collection is given by the elements its
    toArray() returns, in iteration order. */
module Bulk {
  import opened Outcomes
  import opened Storage

  /** The room test of both addAll forms: an array too small for the batch is grown
      once (honouring the needed size only in the deferred-default state), and the
      copy fits when that sufficed. */
  predicate HasRoomFor<T>(l: MyList<T>, numNew: nat) {
    l.size + numNew <= |l.data| || l.deferred || l.size + numNew <= |l.data| + |l.data| / 2
  }

  /** The array both addAll forms write into: grown once when the batch does not fit. */
  function GrownFor<T>(l: MyList<T>, numNew: nat): (g: MyList<T>)
    requires Valid(l)
    ensures Valid(g) && g.size == l.size && Contents(g) == Contents(l)
    ensures l.size + numNew <= |g.data| <==> HasRoomFor(l, numNew)
    ensures !HasRoomFor(l, numNew) ==> |g.data| == |l.data| + |l.data| / 2
    ensures |l.data| <= |g.data| && forall k :: 0 <= k < |l.data| ==> g.data[k] == l.data[k]
  {
    if numNew > |l.data| - l.size then Grow(l, l.size + numNew) else l
  }

  /** addAll(Collection): appends the batch in order and returns true; an empty batch
      returns false and changes nothing. When growth fell short the copy throws,
      leaving the elements as they were in the grown array. */
  function AddAll<T>(l: MyList<T>, c: seq<T>): (r: Ret<T, bool>)
    requires Valid(l)
    ensures Valid(r.list)
    ensures r.out.Ok? <==> c == [] || HasRoomFor(l, |c|)
    ensures c == [] ==> r == Ret(l, Ok(false))
    ensures c != [] && r.out.Ok? ==> r.out.value && Contents(r.list) == Contents(l) + c
    ensures r.out.Throw? ==> && r.out.exc == ArrayIndexOutOfBounds
                             && Contents(r.list) == Contents(l)
                             && |r.list.data| == |l.data| + |l.data| / 2
    ensures |r.list.data| >= |l.data|
    ensures forall k :: l.size + |c| <= k < |l.data| ==> r.list.data[k] == l.data[k]
  {
    var numNew := |c|;
    if numNew == 0 then Ret(l, Ok(false))
    else
      var g := GrownFor(l, numNew);
      match ArrayCopy(Wrap(c), 0, g.data, l.size, numNew)
      case Throw(x) => Ret(g, Throw(x))
      case Ok(d) =>
        AppendSlots(g, c, d);
        Ret(MyList(d, l.size + numNew, g.deferred), Ok(true))
  }

  /** The copy of addAll(Collection), slot by slot: the batch lands right after the
      live prefix. */
  lemma AppendSlots<T>(g: MyList<T>, c: seq<T>, d: seq<Ref<T>>)
    requires Valid(g) && g.size + |c| <= |g.data|
    requires d == Blit(Wrap(c), 0, g.data, g.size, |c|)
    ensures Valid(MyList(d, g.size + |c|, g.deferred))
    ensures Contents(MyList(d, g.size + |c|, g.deferred)) == Contents(g) + c
  {
    var want := Contents(g) + c;
    AppendKeepsPrefix(g, c, d, want);
    AppendFillsGap(g, c, d, want);
    ContentsOfSlots(d, g.size + |c|, g.deferred, want);
  }

  /** The live prefix is not touched by the append copy. */
  lemma AppendKeepsPrefix<T>(g: MyList<T>, c: seq<T>, d: seq<Ref<T>>, want: seq<T>)
    requires Valid(g) && g.size + |c| <= |g.data|
    requires d == Blit(Wrap(c), 0, g.data, g.size, |c|) && want == Contents(g) + c
    ensures forall k :: 0 <= k < g.size ==> d[k] == Obj(want[k])
  {
    BlitSlots(Wrap(c), 0, g.data, g.size, |c|);
  }

  /** The slots right after the live prefix receive the batch. */
  lemma AppendFillsGap<T>(g: MyList<T>, c: seq<T>, d: seq<Ref<T>>, want: seq<T>)
    requires Valid(g) && g.size + |c| <= |g.data|
    requires d == Blit(Wrap(c), 0, g.data, g.size, |c|) && want == Contents(g) + c
    ensures forall k :: g.size <= k < g.size + |c| ==> d[k] == Obj(want[k])
  {
    BlitSlots(Wrap(c), 0, g.data, g.size, |c|);
    forall k | g.size <= k < g.size + |c| ensures d[k] == Obj(want[k]) {
      assert d[k] == Wrap(c)[k - g.size];
    }
  }

  /** addAll(int index, Collection): inserts the batch before position `index`. The
      index is checked with Objects.checkIndex against size, so `index == size` is
      rejected and every call on an empty list throws. */
  function AddAllAt<T>(l: MyList<T>, index: int, c: seq<T>): (r: Ret<T, bool>)
    requires Valid(l)
    ensures Valid(r.list)
    ensures !(0 <= index < l.size) ==> r == Ret(l, Throw(IndexOutOfBounds))
    ensures 0 <= index < l.size && c == [] ==> r == Ret(l, Ok(false))
    ensures r.out.Ok? <==> 0 <= index < l.size && (c == [] || HasRoomFor(l, |c|))
    ensures c != [] && r.out.Ok? ==> && r.out.value
                                     && Contents(r.list) == Contents(l)[..index] + c + Contents(l)[index..]
    ensures r.out.Throw? && 0 <= index < l.size ==> && r.out.exc == ArrayIndexOutOfBounds
                                                    && Contents(r.list) == Contents(l)
                                                    && |r.list.data| == |l.data| + |l.data| / 2
    ensures |r.list.data| >= |l.data|
    ensures forall k :: l.size + |c| <= k < |l.data| ==> r.list.data[k] == l.data[k]
  {
    if index < 0 || index >= l.size then Ret(l, Throw(IndexOutOfBounds))
    else if |c| == 0 then Ret(l, Ok(false))
    else InsertBatch(l, index, c)
  }

  /** The body of addAll(int, Collection) past its two early exits: grow when the
      batch does not fit, move the tail up, then copy the batch into the gap. */
  function InsertBatch<T>(l: MyList<T>, index: nat, c: seq<T>): (r: Ret<T, bool>)
    requires Valid(l) && index < l.size && c != []
    ensures Valid(r.list)
    ensures r.out.Ok? <==> HasRoomFor(l, |c|)
    ensures r.out.Ok? ==> r.out.value && Contents(r.list) == Contents(l)[..index] + c + Contents(l)[index..]
    ensures r.out.Throw? ==> && r.out.exc == ArrayIndexOutOfBounds
                             && Contents(r.list) == Contents(l)
                             && |r.list.data| == |l.data| + |l.data| / 2
    ensures |r.list.data| >= |l.data|
    ensures forall k :: l.size + |c| <= k < |l.data| ==> r.list.data[k] == l.data[k]
  {
    var numNew := |c|;
    var g := GrownFor(l, numNew);
    var numMoved := l.size - index;
    match ArrayCopy(g.data, index, g.data, index + numNew, numMoved)
    case Throw(x) => Ret(g, Throw(x))
    case Ok(shifted) =>
      var filled := Blit(Wrap(c), 0, shifted, index, numNew);
      BatchInsertSlots(g, index, c, shifted, filled);
      Ret(MyList(filled, l.size + numNew, g.deferred), Ok(true))
  }

  /** The two copies of addAll(int, Collection), slot by slot: the tail is moved up
      by the batch length, then the batch fills the gap; the live slots of the
      result hold the batch inserted before position `index`. */
  lemma BatchInsertSlots<T>(g: MyList<T>, index: nat, c: seq<T>, shifted: seq<Ref<T>>, filled: seq<Ref<T>>)
    requires Valid(g) && index <= g.size && g.size + |c| <= |g.data|
    requires shifted == Blit(g.data, index, g.data, index + |c|, g.size - index)
    requires filled == Blit(Wrap(c), 0, shifted, index, |c|)
    ensures Valid(MyList(filled, g.size + |c|, g.deferred))
    ensures Contents(MyList(filled, g.size + |c|, g.deferred)) == Contents(g)[..index] + c + Contents(g)[index..]
  {
    var want := Contents(g)[..index] + c + Contents(g)[index..];
    BatchKeepsHead(g, index, c, shifted, filled, want);
    BatchFillsGap(g, index, c, shifted, filled, want);
    BatchMovesTail(g, index, c, shifted, filled, want);
    ContentsOfSlots(filled, g.size + |c|, g.deferred, want);
  }

  /** The slots before `index` are touched by neither copy. */
  lemma BatchKeepsHead<T>(g: MyList<T>, index: nat, c: seq<T>, shifted: seq<Ref<T>>, filled: seq<Ref<T>>, want: seq<T>)
    requires Valid(g) && index <= g.size && g.size + |c| <= |g.data|
    requires shifted == Blit(g.data, index, g.data, index + |c|, g.size - index)
    requires filled == Blit(Wrap(c), 0, shifted, index, |c|)
    requires want == Contents(g)[..index] + c + Contents(g)[index..]
    ensures forall k :: 0 <= k < index ==> filled[k] == Obj(want[k])
  {
    BlitSlots(g.data, index, g.data, index + |c|, g.size - index);
    BlitSlots(Wrap(c), 0, shifted, index, |c|);
  }

  /** The gap of `|c|` slots at `index` receives the batch. */
  lemma BatchFillsGap<T>(g: MyList<T>, index: nat, c: seq<T>, shifted: seq<Ref<T>>, filled: seq<Ref<T>>, want: seq<T>)
    requires Valid(g) && index <= g.size && g.size + |c| <= |g.data|
    requires shifted == Blit(g.data, index, g.data, index + |c|, g.size - index)
    requires filled == Blit(Wrap(c), 0, shifted, index, |c|)
    requires want == Contents(g)[..index] + c + Contents(g)[index..]
    ensures forall k :: index <= k < index + |c| ==> filled[k] == Obj(want[k])
  {
    BlitSlots(Wrap(c), 0, shifted, index, |c|);
    forall k | index <= k < index + |c| ensures filled[k] == Obj(want[k]) {
      assert filled[k] == Wrap(c)[k - index];
    }
  }

  /** The old tail from `index` on now sits `|c|` slots higher. */
  lemma BatchMovesTail<T>(g: MyList<T>, index: nat, c: seq<T>, shifted: seq<Ref<T>>, filled: seq<Ref<T>>, want: seq<T>)
    requires Valid(g) && index <= g.size && g.size + |c| <= |g.data|
    requires shifted == Blit(g.data, index, g.data, index + |c|, g.size - index)
    requires filled == Blit(Wrap(c), 0, shifted, index, |c|)
    requires want == Contents(g)[..index] + c + Contents(g)[index..]
    ensures forall k :: index + |c| <= k < g.size + |c| ==> filled[k] == Obj(want[k])
  {
    BlitSlots(g.data, index, g.data, index + |c|, g.size - index);
    BlitSlots(Wrap(c), 0, shifted, index, |c|);
    forall k | index + |c| <= k < g.size + |c| ensures filled[k] == Obj(want[k]) {
      assert filled[k] == shifted[k] == g.data[k - |c|];
    }
  }

  /** toArray(): a fresh array of exactly the live elements, in order. */
  function ToArray<T>(l: MyList<T>): (a: seq<Ref<T>>)
    requires Valid(l)
    ensures a == Wrap(Contents(l))
  {
    l.data[..l.size]
  }

  /** toArray(T[] a): when `a` is too short, a new array of the live elements;
      otherwise the live elements are copied into the front of `a` and, when `a` is
      longer, the slot just past them is set to null. */
  function ToArrayInto<T>(l: MyList<T>, a: seq<Ref<T>>): (r: seq<Ref<T>>)
    requires Valid(l)
    ensures |r| == if |a| < l.size then l.size else |a|
    ensures r[..l.size] == Wrap(Contents(l))
    ensures |a| > l.size ==> r[l.size] == Null
    ensures forall k :: l.size < k < |a| ==> r[k] == a[k]
  {
    if |a| < l.size then l.data[..l.size]
    else
      var copied := Blit(l.data, 0, a, 0, l.size);
      BlitSlots(l.data, 0, a, 0, l.size);
      assert copied[..l.size] == l.data[..l.size];
      if |a| > l.size then
        assert copied[l.size := Null][..l.size] == copied[..l.size];
        copied[l.size := Null]
      else copied
  }
}
