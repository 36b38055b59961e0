# fral: a verified model of the skew-binary random-access list

This project models the core of `fral`, a Rust crate that provides a
persistent random-access list. It is Okasaki's skew-binary random-access
list (Okasaki, "Purely Functional Random-Access Lists", FPCA 1995). `cons`
and `uncons` take O(1) time, `get` takes O(log n), and every earlier
version of a list stays usable.

The crate contains the algorithm twice, in `src/arc.rs` over `Arc` and in
`src/rc.rs` over `Rc`. The two copies match line for line. The only
difference is an offset: rc.rs runs 5 lines behind arc.rs in the `Fral`
handle and 6 lines behind from `Pair` on. The model states the algorithm
once, and the table below cites whichever of the two copies reads more
clearly for each member.

- `spine.dfy`, module `Spine`: the private representation. `Tree` is a
  tree whose nodes each hold one element, in pre-order. `Pair` is the
  spine of `(size, tree)` segments. Its `Segment` constructor is the
  source's `Pair::Cons` variant, renamed because the `Cons` operation
  already uses that name. The module holds the three algorithms
  (`Tree.Lookup` with `Pair.Get`, `Pair.Cons`, `Pair.Uncons`) and the
  invariant `Pair.WellFormed`:
  - every cached size is the size of its tree;
  - every tree is perfect, so it holds 2^k - 1 elements;
  - sizes strictly increase along the spine, except that the first two may
    be equal.
- `fral.dfy`, module `Fral`: the public handle `Fral`, which is the
  cached length plus the spine, and its operations. It also holds the
  iterator `Iter`, a class whose `Next` overwrites its `fral` field as in
  the source, and `FromIter`, the `from_iter` loop that conses each input
  element in turn. Last come the crate's tests and doc tests, written as
  lemmas and methods.

Each function's meaning is stated against an independent reference: the
element sequence `Elements()`, which lists each tree's elements in
pre-order, segment after segment. Persistence holds by construction,
because every node is an immutable datatype value. No operation changes
its receiver.

## Model

| member | source | states |
|---|---|---|
| `Spine.Tree.Lookup` | src/arc.rs:186-199 | on a perfect tree whose size is passed in, the result is the element at `index` in pre-order when `index < size`, and `None` otherwise; an in-range index therefore never reaches the `(nonzero, Leaf)` arm, the only arm that yields `None` |
| `Spine.Pair.Get` | src/arc.rs:120-131 | when every cached size is exact, the result is the element at `index` of the whole list, and `None` exactly when `index >= ` the number of elements |
| `Spine.Pair.Cons` | src/arc.rs:132-158 | the new spine lists `x` followed by the old elements; it is never empty; its tail is either the old spine or the old spine minus its top two segments, reused as is |
| `Spine.Pair.Uncons` | src/arc.rs:159-176 | `None` exactly on the empty spine; otherwise the front element followed by the new spine's elements is the old element list; the segments below the top one are reused as is |
| `Spine.PerfectSize` | src/rc.rs:192-205 | a perfect tree of height h holds 2^h - 1 elements, so `size / 2` is the size of each subtree, as `lookup` assumes |
| `Spine.PerfectSizeGap` | src/rc.rs:147-153 | of two perfect trees of different sizes s < u, the larger is higher and u >= 2s + 1, so a merged segment never outgrows the segment below it |
| `Spine.ConsWellFormed` | src/rc.rs:138-164 | `cons` preserves the invariant: exact cached sizes of perfect trees, sizes strictly increasing except that the first two may be equal |
| `Spine.UnconsWellFormed` | src/rc.rs:165-182 | `uncons` preserves the same invariant; the two halves of a split node get size `size / 2`, which is exact |
| `Spine.UnconsCons` | src/arc.rs:132-176 | `uncons` after `cons(x)` returns `x` and a spine structurally equal to the original, with no precondition; in the merge case `(1 + s + s) / 2 == s` restores both segments |
| `Spine.ConsUncons` | src/rc.rs:138-182 | on a well-formed non-empty spine, `cons` of what `uncons` returned rebuilds the same spine: a split node is merged back, and a dropped leaf is pushed back because the segments below it differ in size |
| `Spine.SkewBinaryDigits` | src/arc.rs:113-118 | on a well-formed spine, every cached size is 2^k - 1, and for segment positions i < j, size i <= size j, strictly so when j >= 2 |
| `Spine.SegmentCountBound` | src/arc.rs:17-31 | a well-formed spine of m segments holds at least 2^(m-1) - 1 elements, so `get` walks O(log n) segments |
| `Fral.Fral.New` | src/arc.rs:13-16 | the empty list is valid and has no elements |
| `Fral.Fral.Len` | src/arc.rs:57-62 | on a valid handle, the cached length is the number of elements |
| `Fral.Fral.IsEmpty` | src/arc.rs:51-56 | on a valid handle, true exactly when the list has no elements |
| `Fral.Fral.Get` | src/arc.rs:17-31 | on a valid handle, `None` exactly when `index >= len`, and otherwise the element at `index` |
| `Fral.Fral.Cons` | src/arc.rs:32-43 | the length grows by one, the elements are `x` followed by the old ones, and validity is preserved |
| `Fral.Fral.Uncons` | src/arc.rs:44-50 | on a valid handle, `None` exactly when `len == 0`; otherwise the head is `get(0)`, and the tail is valid, has length `len - 1` and holds the remaining elements; the `wrapping_sub` value reaches no result |
| `Fral.ConsShiftsIndices` | src/rc.rs:287-298 | after `cons(x)`, `get(0) == Some(x)` and `get(i + 1) == get(i)` of the original, for every i |
| `Fral.UnconsShiftsIndices` | src/rc.rs:52-55 | the tail returned by `uncons` has `get(i) == get(i + 1)` of the original, for every i |
| `Fral.UnconsCons` | src/rc.rs:40-55 | `cons(x).uncons()` returns `x` and a handle structurally equal to the original, cached length included |
| `Fral.ConsUncons` | src/arc.rs:35-50 | on a valid non-empty handle, consing back what `uncons` returned gives the same handle |
| `Fral.FromIter` | src/arc.rs:103-111 | collecting `xs` gives a valid list of length `|xs|` whose element i is `xs[|xs| - 1 - i]`, and `None` past the end |
| `Fral.Iter.constructor` | src/arc.rs:63-65 | `iter` (and `into_iter`) starts an iterator over the given handle |
| `Fral.Iter.Next` | src/arc.rs:208-215 | on an empty list yields `None` and keeps the handle; otherwise yields the head and replaces the handle by the tail from `uncons`; on a valid handle, yields the first remaining element and drops just that one |
| `Fral.Iter.SizeHint` | src/arc.rs:218-221 | on a valid handle, the hint is `(n, Some(n))`, where n is the number of elements left |
| `Fral.Iter.Count` | src/arc.rs:224-226 | on a valid handle, the number of elements left |
| `Fral.Iter.Last` | src/arc.rs:229-232 | on a valid non-empty handle, the last element |
| `Fral.TakeCollect` | src/arc.rs:299-308 | `iter().take(k).collect()` gives `min(k, len)` items, and item i is `get(i)`: the iterator yields the list front to back |
| `Fral.CollectPutsLastFirst` | src/rc.rs:103-107 | collecting `[1, 2, 3]` gives `get(0) == 3` |
| `Fral.CollectReversed` | src/rc.rs:31-32 | collecting `[7, 0, 17]` reversed gives `get(2) == 17`, and 7 and 0 at indices 0 and 1 |
| `Fral.Singleton` | src/arc.rs:267-280 | after one `cons(42)`: `get(0) == 42`, `get(1)` is `None`, and `uncons` gives 42 and an empty tail |
| `Fral.ManyItems` | src/arc.rs:281-309 | after consing 1 to 5: the elements are 5, 4, 3, 2, 1; `get(5)` is `None`; `uncons` gives 5 and a tail of length 4 |

## Left out

- Reference counting, pointer identity and structural sharing through `Rc`/`Arc`: nodes are immutable datatype values, so persistence holds by construction, and sharing is not observable in the model.
- Thread safety (`Arc` versus `Rc`, `Send`/`Sync`): a property of the host type system, not of the algorithm.
- The `AsArc`/`AsRc` conversion traits: they only wrap a value, so `Cons` takes the element directly.
- `Clone` and the derived `Hash`, `Debug`, `PartialEq`, `Eq` and `Ord`: Dafny's structural equality on datatypes stands in for the derived equality.
- Fral.Fral.Cons: sizes are unbounded `nat`, so the `usize` overflow of `1 + self.size` on a list of 2^64 - 1 elements is not modelled. The `wrapping_sub(1)` in `uncons` is modelled, with `UsizeMax` as the wrapped value.
- Fral.Iter.Last: requires a non-empty list, because `len - 1` on an empty iterator is a `usize` underflow. That panics or wraps depending on how the crate is built.
- Iterators over an arbitrary input stream: `FromIter` takes the input as a finite sequence.
- The O(1) time claims for `cons` and `uncons`: not stated. The model bounds only the number of spine segments (`Spine.SegmentCountBound`).
- The crate root and the benchmark harness: the root only declares modules and re-exports, and the benchmarks measure timing against another crate using random numbers.
