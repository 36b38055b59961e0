/**
  The public functional random-access list: a handle that caches the list
  length next to the spine, an iterator that consumes a handle front to
  back, and construction from a sequence by repeated `Cons`.
 */
module Fral {
  import opened Spine

  /** The largest `usize`: what `0usize.wrapping_sub(1)` evaluates to. */
  const UsizeMax: nat := 0xFFFF_FFFF_FFFF_FFFF

  /** A list handle: the cached length and the spine. */
  datatype Fral<T> = Fral(size: nat, pair: Pair<T>)
  {
    /** The handle invariant: a well-formed spine whose length is cached. */
    ghost predicate Valid() {
      pair.WellFormed() && size == |pair.Elements()|
    }

    /** The elements of the list, front to back. */
    function Elements(): seq<T> {
      pair.Elements()
    }

    /** `Fral::new` (through `Default`): the empty list. */
    static function New(): (f: Fral<T>)
      ensures f.Valid() && f.Elements() == []
    {
      Fral(0, Nil)
    }

    /** `Fral::len`: the cached length, which is the number of elements. */
    function Len(): (n: nat)
      ensures Valid() ==> n == |Elements()|
    {
      size
    }

    /** `Fral::is_empty`: true exactly when there are no elements. */
    function IsEmpty(): (b: bool)
      ensures Valid() ==> (b <==> Elements() == [])
    {
      size == 0
    }

    /** `Fral::get`: the element at `index`, or absence when `index` is
        at or past the length. */
    function Get(index: nat): (r: Option<T>)
      ensures Valid() ==> (r == None <==> index >= Len())
      ensures Valid() && index < Len() ==> r == Some(Elements()[index])
    {
      pair.Get(index)
    }

    /** `Fral::cons`: a list one longer with `x` in front; the receiver is
        a value and stays as it was. */
    function Cons(x: T): (f: Fral<T>)
      ensures f.Len() == Len() + 1
      ensures f.Elements() == [x] + Elements()
      ensures Valid() ==> f.Valid()
    {
      ConsWellFormed(pair, x);
      Fral(1 + size, pair.Cons(x))
    }

    /** `Fral::uncons`: absence on the empty list, otherwise the front
        element and the rest. The length is decremented with `usize`
        wrap-around before the spine is looked at; the wrapped value is
        only ever discarded, because a valid handle of length 0 has an
        empty spine. */
    function Uncons(): (r: Option<(T, Fral<T>)>)
      ensures Valid() ==> (r == None <==> Len() == 0)
      ensures Valid() && r.Some? ==>
                var (x, g) := r.value;
                && Get(0) == Some(x)
                && g.Valid()
                && g.Len() == Len() - 1
                && g.Elements() == Elements()[1..]
    {
      var size := if size == 0 then UsizeMax else size - 1;
      UnconsWellFormed(pair);
      match pair.Uncons()
      case None => None
      case Some((x, p)) => Some((x, Fral(size, p)))
    }
  }

  /** Order preservation: after `Cons(x)` index 0 holds `x` and index
      i + 1 holds what index i held before, for every i. */
  lemma ConsShiftsIndices<T>(f: Fral<T>, x: T)
    requires f.Valid()
    ensures f.Cons(x).Get(0) == Some(x)
    ensures forall i: nat :: f.Cons(x).Get(i + 1) == f.Get(i)
  {
    var g := f.Cons(x);
    forall i: nat ensures g.Get(i + 1) == f.Get(i) {
      if i < f.Len() {
        assert g.Elements()[i + 1] == f.Elements()[i];
      }
    }
  }

  /** After `Uncons`, index i of the tail holds what index i + 1 held. */
  lemma UnconsShiftsIndices<T>(f: Fral<T>)
    requires f.Valid() && f.Uncons().Some?
    ensures forall i: nat :: f.Uncons().value.1.Get(i) == f.Get(i + 1)
  {
    var g := f.Uncons().value.1;
    forall i: nat ensures g.Get(i) == f.Get(i + 1) {
      if i < g.Len() {
        assert g.Elements()[i] == f.Elements()[i + 1];
      }
    }
  }

  /** Round trip: `Uncons` returns the element `Cons` added and a handle
      structurally equal to the original, cached length included. */
  lemma UnconsCons<T>(f: Fral<T>, x: T)
    ensures f.Cons(x).Uncons() == Some((x, f))
  {
    Spine.UnconsCons(f.pair, x);
  }

  /** Round trip the other way: on a valid non-empty handle, `Cons` of
      what `Uncons` returned rebuilds the very same handle. */
  lemma ConsUncons<T>(f: Fral<T>)
    requires f.Valid() && f.Uncons().Some?
    ensures f.Uncons().value.1.Cons(f.Uncons().value.0) == f
  {
    Spine.ConsUncons(f.pair);
  }

  /** `FromIterator::from_iter`: repeated `Cons` over the input, so the
      last input element ends up at index 0 and the first at the end. */
  method FromIter<T>(xs: seq<T>) returns (f: Fral<T>)
    ensures f.Valid()
    ensures f.Len() == |xs|
    ensures forall i: nat :: f.Get(i) == if i < |xs| then Some(xs[|xs| - 1 - i]) else None
  {
    f := Fral.New();
    for n := 0 to |xs|
      invariant f.Valid()
      invariant |f.Elements()| == n
      invariant forall i | 0 <= i < n :: f.Elements()[i] == xs[n - 1 - i]
    {
      f := f.Cons(xs[n]);
    }
  }

  /** The iterator: it owns a handle and replaces it by its tail on each
      step. `Fral::iter` and `into_iter` build one from a handle. */
  class Iter<T> {
    var fral: Fral<T>

    constructor (f: Fral<T>)
      ensures fral == f
    {
      fral := f;
    }

    /** `Iterator::next`: yield the front element and keep the tail. */
    method Next() returns (item: Option<T>)
      modifies this
      ensures old(fral).Uncons().None? ==> item == None && fral == old(fral)
      ensures old(fral).Uncons().Some? ==>
                item == Some(old(fral).Uncons().value.0) && fral == old(fral).Uncons().value.1
      ensures old(fral).Valid() ==>
                && fral.Valid()
                && (old(fral).Elements() == [] ==> item == None)
                && (old(fral).Elements() != [] ==>
                      item == Some(old(fral).Elements()[0]) && fral.Elements() == old(fral).Elements()[1..])
    {
      match fral.Uncons()
      case Some((x, f)) =>
        fral := f;
        item := Some(x);
      case None =>
        item := None;
    }

    /** `Iterator::size_hint`: exact, the number of elements left. */
    function SizeHint(): (r: (nat, Option<nat>))
      reads this
      ensures fral.Valid() ==> r.0 == |fral.Elements()| && r.1 == Some(r.0)
    {
      var len := fral.Len();
      (len, Some(len))
    }

    /** `Iterator::count`, through `ExactSizeIterator::len`: the number of
        elements left, read off the size hint. */
    function Count(): (n: nat)
      reads this
      ensures fral.Valid() ==> n == |fral.Elements()|
    {
      SizeHint().0
    }

    /** `Iterator::last`: the element at index len - 1. */
    function Last(): (r: Option<T>)
      reads this
      requires !fral.IsEmpty()
      ensures fral.Valid() ==> r == Some(fral.Elements()[|fral.Elements()| - 1])
    {
      var len := fral.Len();
      fral.Get(len - 1)
    }
  }

  /** `f.iter().take(k).collect()`: the iterator yields the list front to
      back, so k steps give the elements at indices 0 .. k - 1. */
  method TakeCollect<T>(f: Fral<T>, k: nat) returns (xs: seq<T>)
    requires f.Valid()
    ensures |xs| == if k < f.Len() then k else f.Len()
    ensures forall i | 0 <= i < |xs| :: f.Get(i) == Some(xs[i])
  {
    var it := new Iter(f);
    xs := [];
    while |xs| < k
      invariant it.fral.Valid()
      invariant |xs| <= |f.Elements()| && |xs| <= k
      invariant xs == f.Elements()[..|xs|]
      invariant it.fral.Elements() == f.Elements()[|xs|..]
      decreases k - |xs|
    {
      var item := it.Next();
      if item.None? {
        break;
      }
      assert item.value == f.Elements()[|xs|];
      xs := xs + [item.value];
    }
    forall i | 0 <= i < |xs| ensures f.Get(i) == Some(xs[i]) {
      assert xs[i] == f.Elements()[i];
    }
  }

  /** Collecting 1, 2, 3 puts the last item first. */
  method CollectPutsLastFirst() returns (f: Fral<int>)
    ensures f.Get(0) == Some(3)
  {
    f := FromIter([1, 2, 3]);
  }

  /** Collecting the reverse of 7, 0, 17 restores the original order. */
  method CollectReversed() returns (f: Fral<int>)
    ensures f.Get(0) == Some(7) && f.Get(1) == Some(0) && f.Get(2) == Some(17)
  {
    f := FromIter([17, 0, 7]);
  }

  /** A one-element list: index 0 holds the element, index 1 is out of
      range, and `Uncons` gives the element and an empty tail. */
  lemma Singleton()
    ensures var f := Fral<int>.New().Cons(42);
            && f.Get(0) == Some(42) && f.Get(1) == None
            && f.Uncons().Some? && f.Uncons().value.0 == 42 && f.Uncons().value.1.IsEmpty()
  {
    var f := Fral<int>.New().Cons(42);
    assert f.Valid() && f.Elements() == [42];
  }

  /** Consing 1 to 5 in turn: indices 0 .. 4 hold 5 down to 1, index 5 is
      out of range, and `Uncons` gives 5 and a tail of length 4. */
  lemma ManyItems()
    ensures var f := Fral<int>.New().Cons(1).Cons(2).Cons(3).Cons(4).Cons(5);
            && f.Elements() == [5, 4, 3, 2, 1]
            && f.Get(0) == Some(5) && f.Get(1) == Some(4) && f.Get(2) == Some(3)
            && f.Get(3) == Some(2) && f.Get(4) == Some(1) && f.Get(5) == None
            && f.Uncons().Some? && f.Uncons().value.0 == 5 && f.Uncons().value.1.Len() == 4
  {
    var f := Fral<int>.New().Cons(1).Cons(2).Cons(3).Cons(4).Cons(5);
    assert f.Valid();
    assert f.Elements() == [5, 4, 3, 2, 1];
  }
}
