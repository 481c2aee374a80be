/** MyArrayListIterator, the ListIterator that iterator() returns. It reads and
    changes the list only through the list's own get, set, remove(int) and
    add(int, E), and turns their IndexOutOfBoundsException into the iterator's own
    exceptions. The iterator's two fields are a value here, returned next to the
    list state by every step. */
module ListIterator {
  import opened Outcomes
  import opened Storage
  import opened Positional

  /** `cursor`, the index of the element next() would return, and `lastRet`, the
      index of the element last returned by next() or previous(), or -1. */
  datatype Iter = Iter(cursor: int, lastRet: int)

  /** One iterator call: the list state, the iterator state, and the outcome. */
  datatype Step<T, R> = Step(list: MyList<T>, it: Iter, out: Result<R>)

  /** iterator(): a fresh iterator before the first element. */
  function Start(): (it: Iter)
    ensures it.cursor == 0 && it.lastRet < 0
  {
    Iter(0, -1)
  }

  /** hasNext(). The test is `cursor != size()`, not `cursor < size()`: for a cursor
      inside the list it answers whether next() succeeds, and past the end it
      answers true although next() fails. */
  predicate HasNext<T>(l: MyList<T>, it: Iter): (b: bool)
    requires Valid(l)
    ensures 0 <= it.cursor <= |Contents(l)| ==> (b <==> Next(l, it).out.Ok?)
    ensures it.cursor > |Contents(l)| ==> b && Next(l, it).out.Throw?
  {
    it.cursor != l.size
  }

  /** hasPrevious(). It reads only the cursor; the list is a parameter so that the
      contract can say that, for a cursor inside the list, it answers whether
      previous() succeeds. */
  predicate HasPrevious<T>(l: MyList<T>, it: Iter): (b: bool)
    requires Valid(l)
    ensures 0 <= it.cursor <= |Contents(l)| ==> (b <==> Previous(l, it).out.Ok?)
  {
    it.cursor != 0
  }

  /** nextIndex(): always one more than previousIndex(). */
  function NextIndex(it: Iter): (n: int)
    ensures n == PreviousIndex(it) + 1
  {
    it.cursor
  }

  /** previousIndex(): -1 when the iterator is at the start of the list. */
  function PreviousIndex(it: Iter): (p: int)
    ensures it.cursor == 0 ==> p == -1
  {
    it.cursor - 1
  }

  /** next(): the element at the cursor, which then moves past it; when get rejects
      the cursor, NoSuchElementException and no change. */
  function Next<T>(l: MyList<T>, it: Iter): (r: Step<T, T>)
    requires Valid(l)
    ensures r.list == l
    ensures r.out.Ok? <==> 0 <= it.cursor < |Contents(l)|
    ensures r.out.Ok? ==> r.out.value == Contents(l)[it.cursor] && r.it == Iter(it.cursor + 1, it.cursor)
    ensures r.out.Throw? ==> r.out.exc == NoSuchElement && r.it == it
  {
    var i := it.cursor;
    match Get(l, i)
    case Throw(_) => Step(l, it, Throw(NoSuchElement))
    case Ok(next) => Step(l, Iter(i + 1, i), Ok(next))
  }

  /** previous(): the element just before the cursor, which then moves onto it. */
  function Previous<T>(l: MyList<T>, it: Iter): (r: Step<T, T>)
    requires Valid(l)
    ensures r.list == l
    ensures r.out.Ok? <==> 0 < it.cursor <= |Contents(l)|
    ensures r.out.Ok? ==> r.out.value == Contents(l)[it.cursor - 1] && r.it == Iter(it.cursor - 1, it.cursor - 1)
    ensures r.out.Throw? ==> r.out.exc == NoSuchElement && r.it == it
  {
    var i := it.cursor - 1;
    match Get(l, i)
    case Throw(_) => Step(l, it, Throw(NoSuchElement))
    case Ok(previous) => Step(l, Iter(i, i), Ok(previous))
  }

  /** remove(): removes the element last returned; the cursor steps back when that
      element was before it. Without such an element, IllegalStateException; when
      remove(int) rejects the remembered index, ConcurrentModificationException. */
  function Remove<T>(l: MyList<T>, it: Iter): (r: Step<T, ()>)
    requires Valid(l)
    ensures Valid(r.list)
    ensures it.lastRet < 0 ==> r == Step(l, it, Throw(IllegalState))
    ensures it.lastRet >= l.size ==> r == Step(l, it, Throw(ConcurrentModification))
    ensures r.out.Ok? <==> 0 <= it.lastRet < |Contents(l)|
    ensures r.out.Ok? ==>
              && Contents(r.list) == Contents(l)[..it.lastRet] + Contents(l)[it.lastRet + 1..]
              && r.it == Iter(if it.lastRet < it.cursor then it.cursor - 1 else it.cursor, -1)
    ensures |r.list.data| == |l.data| && r.list.deferred == l.deferred
  {
    if it.lastRet < 0 then Step(l, it, Throw(IllegalState))
    else
      var removed := RemoveAt(l, it.lastRet);
      if removed.out.Throw? then
        Step(l, it, Throw(ConcurrentModification))
      else
        var cursor := if it.lastRet < it.cursor then it.cursor - 1 else it.cursor;
        Step(removed.list, Iter(cursor, -1), Ok(()))
  }

  /** set(E): replaces the element last returned; the iterator does not move. */
  function Set<T>(l: MyList<T>, it: Iter, e: T): (r: Step<T, ()>)
    requires Valid(l)
    ensures Valid(r.list) && r.it == it
    ensures it.lastRet < 0 ==> r == Step(l, it, Throw(IllegalState))
    ensures it.lastRet >= l.size ==> r == Step(l, it, Throw(ConcurrentModification))
    ensures r.out.Ok? <==> 0 <= it.lastRet < |Contents(l)|
    ensures r.out.Ok? ==> Contents(r.list) == Contents(l)[it.lastRet := e]
    ensures |r.list.data| == |l.data| && r.list.deferred == l.deferred
  {
    if it.lastRet < 0 then Step(l, it, Throw(IllegalState))
    else
      match Positional.Set(l, it.lastRet, e)
      case Ret(_, Throw(_)) => Step(l, it, Throw(ConcurrentModification))
      case Ret(l', Ok(_)) => Step(l', it, Ok(()))
  }

  /** add(E): inserts before the cursor and moves past the new element. Every
      failure of add(int, E), a rejected index or a full array that would not grow,
      is an IndexOutOfBoundsException and becomes ConcurrentModificationException. */
  function Add<T>(l: MyList<T>, it: Iter, e: T): (r: Step<T, ()>)
    requires Valid(l)
    ensures Valid(r.list)
    ensures r.out.Ok? <==> 0 <= it.cursor <= |Contents(l)| && HasRoomForOne(l)
    ensures r.out.Ok? ==>
              && Contents(r.list) == Contents(l)[..it.cursor] + [e] + Contents(l)[it.cursor..]
              && r.it == Iter(it.cursor + 1, -1)
    ensures r.out.Throw? ==> r == Step(l, it, Throw(ConcurrentModification))
    ensures |r.list.data| >= |l.data|
  {
    var i := it.cursor;
    var inserted := Insert(l, i, e);
    match inserted.out
    case Throw(x) =>
      assert IsIndexOutOfBounds(x);   // both of add(int, E)'s exceptions are caught
      Step(l, it, Throw(ConcurrentModification))
    case Ok(_) => Step(inserted.list, Iter(i + 1, -1), Ok(()))
  }

  // ---------------------------------------------------------------- traversal

  /** `while (it.hasNext()) out.add(it.next());` from iterator state `it`: the
      elements visited, or the exception that ended the loop. */
  function Drain<T>(l: MyList<T>, it: Iter): Result<seq<T>>
    requires Valid(l)
    decreases l.size - it.cursor
  {
    if !HasNext(l, it) then Ok([])
    else
      var s := Next(l, it);
      match s.out
      case Throw(x) => Throw(x)
      case Ok(e) =>
        match Drain(l, s.it)
        case Throw(x) => Throw(x)
        case Ok(rest) => Ok([e] + rest)
  }

  /** From any position within the list, the loop visits the remaining elements
      in order and stops normally. */
  lemma {:induction false} DrainVisitsRest<T>(l: MyList<T>, it: Iter)
    requires Valid(l) && 0 <= it.cursor <= l.size
    ensures Drain(l, it) == Ok(Contents(l)[it.cursor..])
    decreases l.size - it.cursor
  {
    if it.cursor < l.size {
      DrainVisitsRest(l, Iter(it.cursor + 1, it.cursor));
      assert Contents(l)[it.cursor..] == [Contents(l)[it.cursor]] + Contents(l)[it.cursor + 1..];
    }
  }

  /** A fresh iterator visits exactly the contents; afterwards hasNext() is false
      and next() throws NoSuchElementException. */
  lemma TraversalVisitsAll<T>(l: MyList<T>)
    requires Valid(l)
    ensures Drain(l, Start()) == Ok(Contents(l))
    ensures !HasNext(l, Iter(l.size, l.size - 1))
    ensures Next(l, Iter(l.size, l.size - 1)).out == Throw(NoSuchElement)
  {
    DrainVisitsRest(l, Start());
  }

  /** A cursor past the end still reports a next element, because hasNext()
      compares with `!=`; next() then throws, and so does the loop. */
  lemma HasNextPastEnd<T>(l: MyList<T>, it: Iter)
    requires Valid(l) && it.cursor > l.size
    ensures HasNext(l, it)
    ensures Next(l, it).out == Throw(NoSuchElement)
    ensures Drain(l, it) == Throw(NoSuchElement)
  {
  }

  /** nextIndex() and previousIndex() are the positions next() and previous() read,
      and previous() right after next() returns the same element. */
  lemma IndicesMatchElements<T>(l: MyList<T>, it: Iter)
    requires Valid(l)
    ensures Next(l, it).out.Ok? ==> Next(l, it).out.value == Contents(l)[NextIndex(it)]
    ensures Previous(l, it).out.Ok? ==> Previous(l, it).out.value == Contents(l)[PreviousIndex(it)]
    ensures HasPrevious(l, it) && 0 <= PreviousIndex(it) < l.size ==> Previous(l, it).out.Ok?
    ensures var n := Next(l, it);
            n.out.Ok? ==> Previous(l, n.it).out == n.out && PreviousIndex(n.it) == NextIndex(it)
  {
  }

  /** remove() right after next() deletes the returned element and leaves the cursor
      on the element that followed it; a second remove() is an IllegalStateException. */
  lemma NextThenRemove<T>(l: MyList<T>, it: Iter)
    requires Valid(l) && 0 <= it.cursor < l.size
    ensures var n := Next(l, it);
            var r := Remove(n.list, n.it);
            && r.out.Ok?
            && Contents(r.list) == Contents(l)[..it.cursor] + Contents(l)[it.cursor + 1..]
            && r.it == Iter(it.cursor, -1)
            && Remove(r.list, r.it) == Step(r.list, r.it, Throw(IllegalState))
  {
  }

  /** After add(E), previous() returns the added element, and remove() and set(E)
      are refused until next() or previous() is called. */
  lemma AddThenPrevious<T>(l: MyList<T>, it: Iter, e: T)
    requires Valid(l) && 0 <= it.cursor <= l.size && HasRoomForOne(l)
    ensures var a := Add(l, it, e);
            && Previous(a.list, a.it).out == Ok(e)
            && Remove(a.list, a.it).out == Throw(IllegalState)
            && Set(a.list, a.it, e).out == Throw(IllegalState)
  {
    var c := Contents(l);
    assert (c[..it.cursor] + [e] + c[it.cursor..])[it.cursor] == e;
  }

  /** An index remembered before the list shrank under the iterator is refused by
      remove() and set(E) as a concurrent modification, and the list is kept. */
  lemma StaleLastRet<T>(l: MyList<T>, it: Iter, e: T)
    requires Valid(l) && 0 <= it.cursor < l.size
    ensures var n := Next(l, it);
            var shrunk := Clear(n.list);
            && Remove(shrunk, n.it) == Step(shrunk, n.it, Throw(ConcurrentModification))
            && Set(shrunk, n.it, e) == Step(shrunk, n.it, Throw(ConcurrentModification))
  {
  }
}
