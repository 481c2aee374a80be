/** removeAll(Collection) and retainAll(Collection). Both walk the list with the
    list's own iterator and call the iterator's remove() on each element whose
    membership in `c` is not the one being kept. The argument collection is given
    by its elements; its contains() is membership. */
module BatchRemove {
  import opened Outcomes
  import opened Storage
  import opened ListIterator
  import Positional

  /** What the filter keeps of one element: the element itself when its membership
      in `c` equals `keep`, nothing otherwise. */
  function Kept<T(==)>(x: T, c: seq<T>, keep: bool): seq<T> {
    if (x in c) == keep then [x] else []
  }

  /** The elements of `s` whose membership in `c` equals `keep`, in their order. */
  function Filter<T(==)>(s: seq<T>, c: seq<T>, keep: bool): (r: seq<T>)
    ensures |r| <= |s|
    decreases |s|
  {
    if s == [] then []
    else
      var last := s[|s| - 1];
      var front := Filter(s[..|s| - 1], c, keep);
      if (last in c) == keep then front + [last] else front
  }

  /** The filter keeps exactly the elements that pass it, and keeps all of `s`
      exactly when every element passes. */
  lemma {:induction false} FilterMembers<T>(s: seq<T>, c: seq<T>, keep: bool)
    ensures forall i :: 0 <= i < |Filter(s, c, keep)| ==>
              Filter(s, c, keep)[i] in s && (Filter(s, c, keep)[i] in c) == keep
    ensures forall i :: 0 <= i < |s| && (s[i] in c) == keep ==> s[i] in Filter(s, c, keep)
    ensures |Filter(s, c, keep)| == |s| <==> forall i :: 0 <= i < |s| ==> (s[i] in c) == keep
    decreases |s|
  {
    if s != [] {
      var front := s[..|s| - 1];
      var last := s[|s| - 1];
      FilterMembers(front, c, keep);
      assert s == front + [last];
      var f := Filter(front, c, keep);
      assert forall i :: 0 <= i < |f| ==> f[i] in s;
      assert forall i :: 0 <= i < |front| ==> front[i] == s[i];
    }
  }

  /** The filter is shorter than its input exactly when some element fails it. */
  lemma FilterShortensIffDrops<T>(s: seq<T>, c: seq<T>, keep: bool)
    ensures |Filter(s, c, keep)| < |s| <==> exists i :: 0 <= i < |s| && (s[i] in c) != keep
  {
    FilterMembers(s, c, keep);
  }

  /** Appending one element to a sequence appends it to the filter or nothing. */
  lemma FilterSnoc<T>(s: seq<T>, x: T, c: seq<T>, keep: bool)
    ensures Filter(s + [x], c, keep) == Filter(s, c, keep) + Kept(x, c, keep)
  {
    assert (s + [x])[..|s|] == s;
  }

  /** One turn of the loop shared by removeAll and retainAll:
      `if (c.contains(it.next()) != keep) it.remove();`. The element at the cursor
      stays, and the cursor moves past it, exactly when its membership in `c` is
      `keep`; the outcome says whether it was removed. */
  function Visit<T(==)>(l: MyList<T>, it: Iter, c: seq<T>, keep: bool): (r: Step<T, bool>)
    requires Valid(l) && 0 <= it.cursor < l.size
    ensures Valid(r.list)
    ensures var x := Contents(l)[it.cursor];
            && r.out == Ok((x in c) != keep)
            && Contents(r.list) == Contents(l)[..it.cursor] + Kept(x, c, keep) + Contents(l)[it.cursor + 1..]
            && r.it.cursor == it.cursor + |Kept(x, c, keep)|
    ensures |r.list.data| == |l.data| && r.list.deferred == l.deferred
  {
    var n := Next(l, it);
    var x := n.out.value;
    if (x in c) != keep then
      var r := Remove(n.list, n.it);
      Step(r.list, r.it, Ok(true))
    else
      assert Contents(l) == Contents(l)[..it.cursor] + [x] + Contents(l)[it.cursor + 1..];
      Step(n.list, n.it, Ok(false))
  }

  /** Replacing the element just past a prefix `f` by `piece` extends the prefix by `piece`. */
  lemma ReplaceAtSeam<T>(f: seq<T>, rest: seq<T>, piece: seq<T>)
    requires rest != []
    ensures (f + rest)[..|f|] + piece + (f + rest)[|f| + 1..] == (f + piece) + rest[1..]
  {
    assert (f + rest)[..|f|] == f;
    assert (f + rest)[|f| + 1..] == rest[1..];
  }

  /** The state of the shared loop after visiting `done`, the first part of the
      original contents `s`: the list holds the survivors `f` of `done` followed by
      the unvisited `rest`, the cursor sits between them, and `modified` records
      whether anything was dropped. The backing array keeps the length and the
      deferred flag of `l0`, the list the loop started from. */
  ghost predicate LoopInv<T>(s: seq<T>, c: seq<T>, keep: bool, l0: MyList<T>, l: MyList<T>, it: Iter,
                             done: seq<T>, rest: seq<T>, f: seq<T>, modified: bool) {
    && Valid(l) && s == done + rest
    && |l.data| == |l0.data| && l.deferred == l0.deferred
    && f == Filter(done, c, keep)
    && Contents(l) == f + rest
    && it.cursor == |f|
    && (modified <==> |f| < |done|)
  }

  /** One turn of the loop moves the element at the cursor, the head of `rest`,
      into the survivors when it passes and drops it when it does not. */
  lemma LoopStep<T>(s: seq<T>, c: seq<T>, keep: bool, l0: MyList<T>, l: MyList<T>, it: Iter,
                        done: seq<T>, rest: seq<T>, f: seq<T>, modified: bool)
    requires LoopInv(s, c, keep, l0, l, it, done, rest, f, modified) && rest != []
    ensures 0 <= it.cursor < l.size
    ensures var v := Visit(l, it, c, keep);
            LoopInv(s, c, keep, l0, v.list, v.it, done + [rest[0]], rest[1..],
                    f + Kept(rest[0], c, keep), modified || v.out.value)
  {
    var x := rest[0];
    var v := Visit(l, it, c, keep);
    VisitExtendsPrefix(l, it, c, keep, f, rest);
    FilterSnoc(done, x, c, keep);
    SplitAdvance(s, done, rest);
    assert |f| <= |done|;
  }

  /** Moving the head of the unvisited part to the visited one keeps the whole. */
  lemma SplitAdvance<T>(s: seq<T>, done: seq<T>, rest: seq<T>)
    requires s == done + rest && rest != []
    ensures s == (done + [rest[0]]) + rest[1..]
  {
    assert rest == [rest[0]] + rest[1..];
  }

  /** One turn of the loop, on the list alone: the head of `rest` joins the
      survivors `f` when it passes and is removed when it does not. */
  lemma VisitExtendsPrefix<T>(l: MyList<T>, it: Iter, c: seq<T>, keep: bool, f: seq<T>, rest: seq<T>)
    requires Valid(l) && rest != []
    requires Contents(l) == f + rest && it.cursor == |f|
    ensures var v := Visit(l, it, c, keep);
            && Valid(v.list)
            && Contents(v.list) == (f + Kept(rest[0], c, keep)) + rest[1..]
            && v.it.cursor == |f + Kept(rest[0], c, keep)|
            && v.out == Ok((rest[0] in c) != keep)
  {
    assert Contents(l)[it.cursor] == rest[0];
    ReplaceAtSeam(f, rest, Kept(rest[0], c, keep));
  }

  /** The loop shared by removeAll (`keep` false) and retainAll (`keep` true):
      `while (it.hasNext()) if (c.contains(it.next()) != keep) { it.remove(); modified = true; }`. */
  method FilterByIterator<T(==)>(l: MyList<T>, c: seq<T>, keep: bool) returns (l': MyList<T>, modified: bool)
    requires Valid(l)
    ensures Valid(l')
    ensures Contents(l') == Filter(Contents(l), c, keep)
    ensures modified <==> exists i :: 0 <= i < |Contents(l)| && (Contents(l)[i] in c) != keep
    ensures |l'.data| == |l.data| && l'.deferred == l.deferred
  {
    var s := Contents(l);
    l' := l;
    modified := false;
    var it := Start();
    ghost var done: seq<T> := [];
    ghost var rest := s;
    ghost var f: seq<T> := [];
    while HasNext(l', it)
      invariant LoopInv(s, c, keep, l, l', it, done, rest, f, modified)
      decreases |rest|
    {
      LoopStep(s, c, keep, l, l', it, done, rest, f, modified);
      var v := Visit(l', it, c, keep);
      l', it, modified := v.list, v.it, modified || v.out.value;
      f, done, rest := f + Kept(rest[0], c, keep), done + [rest[0]], rest[1..];
    }
    assert rest == [] && done == s;
    FilterShortensIffDrops(s, c, keep);
  }

  /** removeAll(Collection): deletes every element contained in `c`, keeping the
      order of the rest, and answers whether anything was deleted. */
  method RemoveAll<T(==)>(l: MyList<T>, c: seq<T>) returns (l': MyList<T>, modified: bool)
    requires Valid(l)
    ensures Valid(l')
    ensures Contents(l') == Filter(Contents(l), c, false)
    ensures forall i :: 0 <= i < |Contents(l')| ==> Contents(l')[i] in Contents(l) && Contents(l')[i] !in c
    ensures forall i :: 0 <= i < |Contents(l)| && Contents(l)[i] !in c ==> Contents(l)[i] in Contents(l')
    ensures modified <==> exists i :: 0 <= i < |Contents(l)| && Contents(l)[i] in c
    ensures |l'.data| == |l.data| && l'.deferred == l.deferred
  {
    l', modified := FilterByIterator(l, c, false);
    FilterMembers(Contents(l), c, false);
  }

  /** retainAll(Collection): deletes every element not contained in `c`, keeping
      the order of the rest, and answers whether anything was deleted. */
  method RetainAll<T(==)>(l: MyList<T>, c: seq<T>) returns (l': MyList<T>, modified: bool)
    requires Valid(l)
    ensures Valid(l')
    ensures Contents(l') == Filter(Contents(l), c, true)
    ensures forall i :: 0 <= i < |Contents(l')| ==> Contents(l')[i] in Contents(l) && Contents(l')[i] in c
    ensures forall i :: 0 <= i < |Contents(l)| && Contents(l)[i] in c ==> Contents(l)[i] in Contents(l')
    ensures modified <==> exists i :: 0 <= i < |Contents(l)| && Contents(l)[i] !in c
    ensures |l'.data| == |l.data| && l'.deferred == l.deferred
  {
    l', modified := FilterByIterator(l, c, true);
    FilterMembers(Contents(l), c, true);
  }

  /** removeAll never replaces the backing array, so a list that had room for one
      more element before it still has room after it: add(E) then succeeds. */
  method RemoveAllThenAdd<T(==)>(l: MyList<T>, c: seq<T>, e: T) returns (l': MyList<T>, added: bool)
    requires Valid(l) && Positional.HasRoomForOne(l)
    ensures Valid(l') && added
    ensures Contents(l') == Filter(Contents(l), c, false) + [e]
  {
    var filtered, _ := RemoveAll(l, c);
    var r := Positional.Add(filtered, e);
    l', added := r.list, r.out.value;
  }

  /** The two filters split a sequence: every element goes to exactly one side, so
      the lengths add up. */
  lemma {:induction false} FiltersPartition<T>(s: seq<T>, c: seq<T>)
    ensures |Filter(s, c, true)| + |Filter(s, c, false)| == |s|
    ensures multiset(Filter(s, c, true)) + multiset(Filter(s, c, false)) == multiset(s)
    decreases |s|
  {
    if s != [] {
      var front := s[..|s| - 1];
      var last := s[|s| - 1];
      FiltersPartition(front, c);
      assert s == front + [last];
      assert multiset(s) == multiset(front) + multiset{last};
    }
  }

  /** Filtering is idempotent: applying removeAll or retainAll with the same
      collection a second time deletes nothing. */
  lemma FilterIdempotent<T>(s: seq<T>, c: seq<T>, keep: bool)
    ensures Filter(Filter(s, c, keep), c, keep) == Filter(s, c, keep)
  {
    FilterMembers(s, c, keep);
    FilterKeepsAll(Filter(s, c, keep), c, keep);
  }

  /** A sequence all of whose elements pass the filter is its own filter. */
  lemma {:induction false} FilterKeepsAll<T>(s: seq<T>, c: seq<T>, keep: bool)
    requires forall i :: 0 <= i < |s| ==> (s[i] in c) == keep
    ensures Filter(s, c, keep) == s
    decreases |s|
  {
    if s != [] {
      FilterKeepsAll(s[..|s| - 1], c, keep);
      assert s == s[..|s| - 1] + [s[|s| - 1]];
    }
  }
}
