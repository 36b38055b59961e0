/**
  The private representation of Okasaki's skew-binary random-access list:
  perfect binary trees (`Tree`) hung on a spine of size-tagged segments
  (`Pair`), together with the three algorithms that work on them:
  indexed lookup, `Cons` and `Uncons`.

  Nodes are immutable values, so every earlier version of a spine stays
  valid after `Cons`/`Uncons` build a new one.
 */
module Spine {

  datatype Option<T> = None | Some(value: T)

  /** 2^k */
  function Pow2(k: nat): (r: nat)
    ensures r >= 1
  {
    if k == 0 then 1 else 2 * Pow2(k - 1)
  }

  /** The size of a perfect tree, 2^k - 1 for some k: a skew-binary digit weight. */
  ghost predicate IsWeight(n: nat) {
    exists k: nat :: n == Pow2(k) - 1
  }

  lemma {:induction false} Pow2Monotone(a: nat, b: nat)
    requires a <= b
    ensures Pow2(a) <= Pow2(b)
  {
    if a < b {
      Pow2Monotone(a, b - 1);
    }
  }

  /** A tree of list elements. Each node stores one element, which precedes
      the elements of both of its subtrees in list order. */
  datatype Tree<T> = Leaf(value: T) | Node(value: T, left: Tree<T>, right: Tree<T>)
  {
    /** The elements of the tree in list order (pre-order). */
    function Elements(): (s: seq<T>)
      ensures |s| >= 1 && s[0] == value
    {
      match this
      case Leaf(x) => [x]
      case Node(x, t1, t2) => [x] + t1.Elements() + t2.Elements()
    }

    /** The number of elements in the tree. */
    function Size(): nat {
      |Elements()|
    }

    /** Number of levels: the length of the leftmost branch. */
    function Height(): nat {
      match this
      case Leaf(_) => 1
      case Node(_, t1, _) => 1 + t1.Height()
    }

    /** Every node has two subtrees of the same size, both perfect. */
    ghost predicate Perfect() {
      match this
      case Leaf(_) => true
      case Node(_, t1, t2) => t1.Perfect() && t2.Perfect() && t1.Size() == t2.Size()
    }

    /** `Tree::lookup`: descend the tree whose size the caller supplies.
        Index 0 is the node's own element; otherwise the left subtree holds
        indices 1..half and the right one the rest, each of size `size / 2`.
        When `size` is the size of a perfect tree, the result is the element
        at `index` in list order, and absence exactly when `index` is out of
        range. */
    function Lookup(size: nat, index: nat): (r: Option<T>)
      ensures Perfect() && size == Size() ==>
                r == if index < size then Some(Elements()[index]) else None
    {
      match this
      case Leaf(x) => if index == 0 then Some(x) else None
      case Node(x, t1, t2) =>
        if index == 0 then Some(x)
        else
          var half := size / 2;
          if index <= half then t1.Lookup(half, index - 1)
          else t2.Lookup(half, index - 1 - half)
    }
  }

  /** A perfect tree of height h holds 2^h - 1 elements. */
  lemma {:induction false} PerfectSize<T>(t: Tree<T>)
    requires t.Perfect()
    ensures t.Size() == Pow2(t.Height()) - 1
  {
    match t
    case Leaf(_) =>
    case Node(_, t1, t2) =>
      PerfectSize(t1);
      PerfectSize(t2);
  }

  /** Between two perfect trees of different sizes, the larger one is
      higher, and so at least twice as large plus one. */
  lemma PerfectSizeGap<T>(t: Tree<T>, u: Tree<T>)
    requires t.Perfect() && u.Perfect() && t.Size() < u.Size()
    ensures t.Height() < u.Height()
    ensures 2 * t.Size() + 1 <= u.Size()
  {
    PerfectSize(t);
    PerfectSize(u);
    if u.Height() <= t.Height() {
      Pow2Monotone(u.Height(), t.Height());
    }
    Pow2Monotone(t.Height() + 1, u.Height());
  }

  /** The spine: a list of segments, each a tree with its cached size.
      `Segment` is the source's `Cons` variant. */
  datatype Pair<T> = Nil | Segment(size: nat, tree: Tree<T>, rest: Pair<T>)
  {
    /** The elements of the whole list, front to back. */
    function Elements(): seq<T> {
      match this
      case Nil => []
      case Segment(_, t, rest) => t.Elements() + rest.Elements()
    }

    /** The cached segment sizes, front to back. */
    function Sizes(): seq<nat> {
      match this
      case Nil => []
      case Segment(s, _, rest) => [s] + rest.Sizes()
    }

    /** Every cached size is the size of its segment's tree, which is perfect. */
    ghost predicate SizesExact() {
      match this
      case Nil => true
      case Segment(s, t, rest) => t.Perfect() && s == t.Size() && rest.SizesExact()
    }

    /** Sizes strictly increase along the spine. */
    ghost predicate Ascending() {
      match this
      case Nil => true
      case Segment(s, _, rest) => rest.Nil? || (s < rest.size && rest.Ascending())
    }

    /** Sizes strictly increase, except that the first two may be equal. */
    ghost predicate SkewOrdered() {
      match this
      case Nil => true
      case Segment(s, _, rest) => rest.Nil? || (s <= rest.size && rest.Ascending())
    }

    /** The invariant that `Cons` and `Uncons` maintain. */
    ghost predicate WellFormed() {
      SizesExact() && SkewOrdered()
    }

    /** `Pair::get`: skip whole segments by their cached sizes, then look
        the remaining index up in the segment that holds it. */
    function Get(index: nat): (r: Option<T>)
      ensures SizesExact() ==>
                r == if index < |Elements()| then Some(Elements()[index]) else None
    {
      match this
      case Nil => None
      case Segment(size, tree, rest) =>
        if index < size then tree.Lookup(size, index)
        else rest.Get(index - size)
    }

    /** `Pair::cons`: merge the two top segments under a new node when
        their sizes are equal, otherwise push a one-element segment. */
    function Cons(x: T): (r: Pair<T>)
      ensures r.Elements() == [x] + Elements()
      ensures r.Segment?
      ensures r.rest == this || (Segment? && rest.Segment? && r.rest == rest.rest)
    {
      match this
      case Nil => Segment(1, Leaf(x), Nil)
      case Segment(size1, t1, next) =>
        match next
        case Segment(size2, t2, rest) =>
          if size1 == size2 then
            Segment(1 + size1 + size2, Node(x, t1, t2), rest)
          else
            Segment(1, Leaf(x), Segment(size1, t1, Segment(size2, t2, rest)))
        case Nil => Segment(1, Leaf(x), Segment(size1, t1, Nil))
    }

    /** `Pair::uncons`: drop a one-element segment, or split the top node
        into its two subtrees, each tagged with half the cached size. */
    function Uncons(): (r: Option<(T, Pair<T>)>)
      ensures r.None? <==> Nil?
      ensures r.Some? ==> [r.value.0] + r.value.1.Elements() == Elements()
      ensures r.Some? ==>
                Segment? &&
                (r.value.1 == rest ||
                 (r.value.1.Segment? && r.value.1.rest.Segment? && r.value.1.rest.rest == rest))
    {
      match this
      case Nil => None
      case Segment(size, t, rest) =>
        match t
        case Leaf(x) => Some((x, rest))
        case Node(x, t1, t2) =>
          var half := size / 2;
          Some((x, Segment(half, t1, Segment(half, t2, rest))))
    }
  }

  /** A strictly ascending spine is also skew-ordered. */
  lemma AscendingIsSkewOrdered<T>(p: Pair<T>)
    requires p.Ascending()
    ensures p.SkewOrdered()
  {
  }

  /** `Cons` keeps the spine well-formed. Merging two equal segments of
      size s gives a segment of size 2s + 1, which is never larger than
      the next one, because perfect-tree sizes are of the form 2^k - 1. */
  lemma ConsWellFormed<T>(p: Pair<T>, x: T)
    ensures p.WellFormed() ==> p.Cons(x).WellFormed()
  {
    if p.WellFormed() {
      match p
      case Nil =>
      case Segment(size1, t1, next) =>
        match next
        case Nil =>
        case Segment(size2, t2, rest) =>
          assert next.SizesExact() && next.Ascending();
          if size1 == size2 {
            var t := Node(x, t1, t2);
            assert t.Perfect() && t.Size() == 1 + size1 + size2;
            if rest.Segment? {
              assert rest.SizesExact();
              PerfectSizeGap(t2, rest.tree);
            }
          }
    }
  }

  /** `Uncons` keeps the spine well-formed: the two halves of a split node
      are equal and smaller than every later segment. */
  lemma UnconsWellFormed<T>(p: Pair<T>)
    ensures p.WellFormed() && p.Uncons().Some? ==> p.Uncons().value.1.WellFormed()
  {
    if p.WellFormed() && p.Segment? {
      AscendingIsSkewOrdered(p.rest);
      match p.tree
      case Leaf(_) =>
      case Node(_, t1, t2) =>
        assert p.size / 2 == t1.Size() == t2.Size();
    }
  }

  /** Round trip: `Uncons` undoes `Cons` exactly, restoring the very same
      spine. In the merge case (1 + s + s) / 2 == s recovers both segments. */
  lemma UnconsCons<T>(p: Pair<T>, x: T)
    ensures p.Cons(x).Uncons() == Some((x, p))
  {
  }

  /** Round trip the other way: on a well-formed spine, `Cons` undoes
      `Uncons` exactly. */
  lemma ConsUncons<T>(p: Pair<T>)
    requires p.WellFormed() && p.Segment?
    ensures p.Uncons().value.1.Cons(p.Uncons().value.0) == p
  {
    match p.tree
    case Leaf(_) =>
    case Node(_, t1, t2) =>
      assert p.size == 1 + t1.Size() + t2.Size();
  }

  /** Along a strictly ascending spine, each segment's tree is higher than
      the one before. */
  lemma {:induction false} AscendingSpineLength<T>(p: Pair<T>, h: nat)
    requires p.SizesExact() && p.Ascending() && p.Segment? && p.tree.Height() >= h
    ensures Pow2(h + |p.Sizes()| - 1) <= |p.Elements()| + 1
  {
    PerfectSize(p.tree);
    if p.rest.Nil? {
      Pow2Monotone(h, p.tree.Height());
    } else {
      PerfectSizeGap(p.tree, p.rest.tree);
      AscendingSpineLength(p.rest, h + 1);
    }
  }

  /** A well-formed spine of m segments holds at least 2^(m-1) - 1
      elements, so the number of segments is logarithmic in the length. */
  lemma SegmentCountBound<T>(p: Pair<T>)
    requires p.WellFormed() && p.Segment?
    ensures Pow2(|p.Sizes()| - 1) <= |p.Elements()| + 1
  {
    if p.rest.Segment? {
      AscendingSpineLength(p.rest, 1);
    }
  }

  /** In a strictly ascending spine, every size is below every later size. */
  lemma {:induction false} AscendingSizes<T>(p: Pair<T>)
    requires p.Ascending()
    ensures forall i, j | 0 <= i < j < |p.Sizes()| :: p.Sizes()[i] < p.Sizes()[j]
  {
    if p.Segment? {
      AscendingSizes(p.rest);
      var s := p.Sizes();
      assert s[1..] == p.rest.Sizes();
      forall i, j | 0 <= i < j < |s| ensures s[i] < s[j] {
        if i == 0 && j > 1 {
          assert s[1] < s[j];
        }
      }
    }
  }

  /** In a spine with exact sizes, every cached size is 2^k - 1. */
  lemma {:induction false} ExactSizesArePow2Minus1<T>(p: Pair<T>)
    requires p.SizesExact()
    ensures forall i | 0 <= i < |p.Sizes()| :: IsWeight(p.Sizes()[i])
  {
    if p.Segment? {
      ExactSizesArePow2Minus1(p.rest);
      PerfectSize(p.tree);
      var s := p.Sizes();
      assert s[1..] == p.rest.Sizes();
      forall i | 0 <= i < |s| ensures IsWeight(s[i]) {
        if i == 0 {
          assert s[0] == Pow2(p.tree.Height()) - 1;
        } else {
          assert s[i] == p.rest.Sizes()[i - 1];
        }
      }
    }
  }

  /** The skew-binary digit structure of a well-formed spine: every size is
      2^k - 1, and sizes strictly increase front to back except that the
      first two may be equal. */
  lemma SkewBinaryDigits<T>(p: Pair<T>)
    requires p.WellFormed()
    ensures forall i | 0 <= i < |p.Sizes()| :: IsWeight(p.Sizes()[i])
    ensures forall i, j | 0 <= i < j < |p.Sizes()| ::
              p.Sizes()[i] <= p.Sizes()[j] && (j >= 2 ==> p.Sizes()[i] < p.Sizes()[j])
  {
    ExactSizesArePow2Minus1(p);
    if p.Segment? {
      AscendingSizes(p.rest);
      var s := p.Sizes();
      assert s[1..] == p.rest.Sizes();
      forall i, j | 0 <= i < j < |s| ensures s[i] <= s[j] && (j >= 2 ==> s[i] < s[j]) {
        if i == 0 && j >= 2 {
          assert s[1] < s[j];
        }
      }
    }
  }
}
