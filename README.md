# rc-slice2 in Dafny

`rc-slice2` provides `ArcSlice` and `RcSlice`: zero-copy views onto a shared, reference-counted buffer.

- A view has three fields: a handle to the allocation (`Arc<C>` or `Rc<[T]>`), and the bounds `start` and `end` of the part it shows.
- Every view operation is range arithmetic on these fields, done with checked or saturating `usize` operations.
- Two operations need the handle to be the only one to its allocation:
  - `get_mut`, which lends out the visible elements for writing;
  - `shrink`, which compacts the container down to the visible elements.
- The containers a view can sit on are `[T]`, `Box<[T]>`, `Vec<T>` and `SmallVec`. They are described by the `RcSliceContainer` trait.

The model has seven modules, one file each:

| file | module | contents |
|---|---|---|
| `wrappers.dfy` | `Wrappers` | `Option`. |
| `ranges.dfy` | `Ranges` | `usize` as the subset type `Usize` with `USIZE_MAX = 2^64 - 1`; checked and saturating addition and subtraction; Rust's `Bound` and `RangeBounds`; the two clamping rules that turn any bound pair into a valid range. |
| `containers.dfy` | `Containers` | The four container kinds as one datatype; their bounds-checked `get`/`get_mut`; `shrink_container_to_range` as a method whose `retain` loop counts the elements it visits. |
| `handles.dfy` | `Handles` | The allocation as a class with a container and a strong count; the mutable window `&mut [T]` that a unique holder may borrow. |
| `arc_slice.dfy` | `ArcSlices` | `ArcSlice` as a class whose methods update `start`, `end` and `underlying` in place; its `Hash` and `PartialEq`. |
| `rc_slice.dfy` | `RcSlices` | `RcSlice` over `Rc<[T]>`, with the same range operations, and its element-wise `PartialEq`. |
| `scenarios.dfy` | `Scenarios` | The library's documented examples, written as client methods and proved from the operations' contracts alone. |

Conventions:

- **Holding a handle.** Each view holds one strong reference. So do the caller's own `Arc`/`Rc` variables: `Handle.New` starts with one, and `Handle.Drop` is the caller's `drop(buffer)`.
- **Uniqueness.** "Unique" means `strong == 1`.
- **Shrink.** A successful `shrink` consumes the old allocation: its count drops to 0, so a new `Handle` is installed. The new allocation is held by the view alone.

## Model

| member | source | states |
|---|---|---|
| Ranges.SaturatingAdd | src/arc.rs:399 | `usize::saturating_add`: the exact sum when it fits in a `usize`, otherwise `usize::MAX`. |
| Ranges.CheckedAdd | src/arc.rs:351 | `usize::checked_add`: `Some` iff the sum fits in a `usize`, and then it carries the exact sum. |
| Ranges.SaturatingSub | src/arc.rs:493 | `usize::saturating_sub`: the exact difference when `b <= a`, otherwise 0. |
| Ranges.CheckedSub | src/arc.rs:446 | `usize::checked_sub`: `Some` iff `b <= a`, and then it carries the exact difference. |
| Ranges.ResolveStart | src/arc.rs:53-57 | The resolved start is at most `len`, and an in-bounds index is at or past it exactly when the lower bound admits it. The `Excluded(x)` case uses saturating `x + 1`. |
| Ranges.ResolveEnd | src/arc.rs:58-62 | The resolved end is at most `len`, and an in-bounds index lies before it exactly when the upper bound admits it. The `Included(x)` case uses saturating `x + 1`. |
| Ranges.ResolveForNew | src/arc.rs:52-68 | `new` always gives `start <= end <= len`. The start is the resolved start (an inverted pair collapses to `start..start`). The range holds exactly the in-bounds indices the bounds contain. |
| Ranges.ResolveForChange | src/arc.rs:525-540 | `change_range` always gives `start <= end <= len`. The end is the resolved end (an inverted pair collapses to `end..end`). The range holds exactly the in-bounds indices the bounds contain. |
| Ranges.FullRangeResolvesToAll | src/arc.rs:48 | `..` resolves to `0..len` under both rules. |
| Ranges.ExclusiveRangeIsKept | src/arc.rs:147-148 | An in-bounds `s..e` with `s <= e` is kept unchanged by both rules. |
| Ranges.NewAndChangeDifferOnlyWhenEmpty | src/arc.rs:536 | The two tie-breaks select the same indices. When their ranges differ, both are empty and `change_range`'s lies before `new`'s. |
| Ranges.StartPastEndIsEmptyAtLen | src/arc.rs:50 | A lower bound at or past the end (`10..` on five elements) resolves to `len..len`. |
| Containers.LenCoversAllItems | src/lib.rs:136-138 | `len` names the whole container: `get(0..len)` yields every element, and `get(0..len + 1)` fails. |
| Containers.Container.IsShrinkable | src/lib.rs:105 | `IS_SHRINKABLE` is false exactly for `[T]` and `Box<[T]>`. Every shrinkable kind has a `Default`, so `shrink` is available for it. |
| Containers.Container.IsInline | src/lib.rs:272 | The negation of `spilled()` for a `SmallVec`: only a shrinkable kind can be inline, and an inline `SmallVec` holds at most its inline slots. |
| Containers.Container.Get | src/lib.rs:208-214 | `get` returns `Some` iff `start <= end <= len`, and then yields exactly the elements at `start..end`. |
| Containers.Container.GetMut | src/lib.rs:140-146 | `get_mut` returns `Some` iff `start <= end <= len`, and then its window is exactly that range. |
| Containers.Container.ShrunkToFit | src/lib.rs:286-287 | After `shrink_to_fit` the container holds exactly the kept elements and keeps its kind. A `SmallVec` keeps its inline capacity and is spilled exactly when the kept elements do not fit inline. |
| Containers.RetainByIndex | src/lib.rs:220-225 | The elements `retain` keeps when its closure tests the visited-element counter against `keep`: never more than there were. |
| Containers.RetainByIndexIsSlice | src/lib.rs:220-225 | Retaining by position keeps element `i` iff `keep.start <= i < keep.end`, in order: the result is one contiguous slice, and empty when `keep` is inverted. |
| Containers.ShrinkContainerToRange | src/lib.rs:271-288 | An inline `SmallVec` is untouched and gives `None`. Otherwise (`Vec`, spilled `SmallVec`) the container becomes exactly the part of `keep` inside it, and the result is `Some(0..new len)`. For an in-bounds `keep`, the new range names the same elements as `keep`. |
| Handles.Handle.New | src/arc.rs:677 | A fresh allocation with one holder. |
| Handles.Handle.Clone | src/arc.rs:690-696 | One more holder; the contents are unchanged. |
| Handles.Handle.Drop | src/lib.rs:245 | One holder fewer; the contents are unchanged. |
| Handles.Handle.IsUnique | src/arc.rs:585 | The test behind `Arc::get_mut` and `Arc::try_unwrap`: the strong count is exactly 1. |
| Handles.MutSlice.Set | src/arc.rs:565-569 | A write through a `get_mut` window needs the allocation to be uniquely held, as the exclusive borrow guarantees. It changes exactly position `lo + i` of the allocation, and nothing else: not the container kind, not the holders. |
| ArcSlices.ArcSlice.Elems | src/arc.rs:700-710 | `Deref`: the visible elements are `underlying[start..end]`. |
| ArcSlices.ArcSlice.New | src/arc.rs:52-68 | `new` adds one holder, never fails, and its range is `ResolveForNew`. |
| ArcSlices.ArcSlice.Clone | src/arc.rs:690-696 | Same allocation and range, one more holder. |
| ArcSlices.ArcSlice.Default | src/arc.rs:768-771 | `Default` gives an empty view over a fresh default container, held by the view alone. |
| ArcSlices.ArcSlice.Drop | src/lib.rs:245 | Dropping a view gives up its holder. |
| ArcSlices.ArcSlice.Len | src/arc.rs:89-95 | `len` is the number of visible elements. |
| ArcSlices.ArcSlice.IsEmpty | src/arc.rs:112-114 | `is_empty` holds iff no element is visible. |
| ArcSlices.ArcSlice.BoundsRange | src/arc.rs:310-312 | The returned range lies within the container and names exactly the visible elements. |
| ArcSlices.ArcSlice.SplitAt | src/arc.rs:141-151 | For `mid <= len`: returns `[start, start+mid)` and `[start+mid, end)` over the same allocation; their elements concatenate to the view's. The view is untouched, and two holders are added. |
| ArcSlices.ArcSlice.TrySplitAt | src/arc.rs:174-180 | `None` (no holder added) iff `mid > len`; otherwise behaves as `split_at`. |
| ArcSlices.ArcSlice.SplitOffBefore | src/arc.rs:211-223 | `Some` iff `start + index` neither overflows nor passes `end`. Then the returned view holds the front `index` elements, and the receiver keeps the rest. Otherwise the receiver is unchanged. |
| ArcSlices.ArcSlice.SplitOffAfter | src/arc.rs:255-267 | `Some` iff `start + index` neither overflows nor passes `end`. Then the receiver keeps the front `index` elements, and the returned view holds the rest. Otherwise the receiver is unchanged. |
| ArcSlices.ArcSlice.Advance | src/arc.rs:350-361 | `Some` iff the step is at most `len`. Then only `start` moves, by the step, and the shed elements are the first `incr` visible ones. On failure the view is unchanged. |
| ArcSlices.ArcSlice.SaturatingAdvance | src/arc.rs:398-407 | Never fails. `start` moves by `min(incr, len)`, and the shed elements are exactly the view's first `min(incr, len)` elements. |
| ArcSlices.ArcSlice.Retract | src/arc.rs:445-456 | `Some` iff the step is at most `len`. Then only `end` moves, back by the step, and the shed elements are the last `decr` visible ones. On failure the view is unchanged. |
| ArcSlices.ArcSlice.SaturatingRetract | src/arc.rs:492-501 | Never fails. `end` moves back by `min(decr, len)`, and the shed elements are exactly the view's last `min(decr, len)` elements. |
| ArcSlices.ArcSlice.ChangeRange | src/arc.rs:525-540 | The new range is `ResolveForChange` against the whole container, whatever the old range was. It is returned, and the allocation is untouched. |
| ArcSlices.ArcSlice.GetMut | src/arc.rs:582-588 | `Some` iff the handle is unique. Then the window covers exactly `start..end` of the allocation and shows the visible elements. |
| ArcSlices.ArcSlice.PtrEq | src/arc.rs:620-624 | Holds iff both views share the allocation and the range; then they show the same elements. |
| ArcSlices.ArcSlice.Shrink | src/arc.rs:659-686 | `true` iff the kind is shrinkable, the view is not the whole container, and the handle is unique. On `false` nothing changes. On `true` the visible elements are unchanged and the view alone holds a new allocation. Unless the container is an inline `SmallVec`, that allocation holds exactly the visible elements, at `0..len`. |
| ArcSlices.HashInput | src/arc.rs:763-765 | `Hash` feeds the hasher the visible elements only. |
| ArcSlices.EqualsAsWritten | src/arc.rs:732-736 | `==` as written compares the whole underlying containers. |
| ArcSlices.EqualsAsWrittenBreaksHash | src/arc.rs:732-765 | Two views of different lengths over one allocation are `==` as written, yet feed the hasher different elements. |
| ArcSlices.ElementsEqual | src/arc.rs:613-615 | Element-wise equality agrees with `Hash` and is implied by `ptr_eq`. |
| RcSlices.RcSlice.Elems | src/rc.rs:614-619 | `Deref`: the visible elements are `underlying[start..end]`. |
| RcSlices.RcSlice.New | src/rc.rs:50-66 | Adds one holder, never fails, and its range is `ResolveForNew`. |
| RcSlices.RcSlice.Clone | src/rc.rs:599-605 | Same allocation and range, one more holder. |
| RcSlices.RcSlice.Default | src/rc.rs:673-677 | An empty view over a fresh `Rc<[T]>` of no elements, held by the view alone. |
| RcSlices.RcSlice.Drop | src/lib.rs:245 | Dropping a view gives up its holder. |
| RcSlices.RcSlice.Len | src/rc.rs:87-93 | `len` is the number of visible elements. |
| RcSlices.RcSlice.IsEmpty | src/rc.rs:110-112 | `is_empty` holds iff no element is visible. |
| RcSlices.RcSlice.BoundsRange | src/rc.rs:301-303 | The returned range lies within the slice and names exactly the visible elements. |
| RcSlices.RcSlice.SplitAt | src/rc.rs:137-147 | For `mid <= len`: two new views over the same `Rc` that partition the view at `start + mid`. The view is untouched. |
| RcSlices.RcSlice.TrySplitAt | src/rc.rs:168-174 | `None` iff `mid > len`; otherwise behaves as `split_at`. |
| RcSlices.RcSlice.SplitOffBefore | src/rc.rs:204-216 | Partitions at `start + index` (the returned view takes the front, the receiver keeps the back). Returns `None`, with the receiver unchanged, on overflow or a cut past `end`. |
| RcSlices.RcSlice.SplitOffAfter | src/rc.rs:246-258 | Partitions at `start + index` (the receiver keeps the front, the returned view takes the back). Returns `None`, with the receiver unchanged, on overflow or a cut past `end`. |
| RcSlices.RcSlice.Advance | src/rc.rs:339-350 | Strict. `Some` iff the step is at most `len`. The shed elements are the first `incr` visible ones and the view keeps the rest. On failure the view is unchanged. |
| RcSlices.RcSlice.SaturatingAdvance | src/rc.rs:385-391 | Total. `start` moves by `min(incr, len)`, and those elements are shed. |
| RcSlices.RcSlice.Retract | src/rc.rs:427-438 | Strict. `Some` iff the step is at most `len`. The shed elements are the last `decr` visible ones and the view keeps the rest. On failure the view is unchanged. |
| RcSlices.RcSlice.SaturatingRetract | src/rc.rs:472-478 | Total. `end` moves back by `min(decr, len)`, and those elements are shed. |
| RcSlices.RcSlice.ChangeRange | src/rc.rs:498-513 | Resets the range to `ResolveForChange` against the whole slice and returns it. |
| RcSlices.RcSlice.GetMut | src/rc.rs:555-559 | `Some` iff the `Rc` is unique. Then the window is exactly positions `start..end`. |
| RcSlices.RcSlice.PtrEq | src/rc.rs:591-595 | Holds iff same allocation and same bounds; then the views show the same elements. |
| RcSlices.HashInput | src/rc.rs:667-670 | `Hash` feeds the hasher the visible elements. |
| RcSlices.Equals | src/rc.rs:641-645 | `==` compares the visible elements, agrees with `Hash`, and is implied by `ptr_eq`. |
| Scenarios.ConstructionClamps | src/arc.rs:44-50 | `1..4`, `..`, `0..=2` and `10..` over `[2, 4, 6, 8, 10]` show `[4, 6, 8]`, everything, `[2, 4, 6]` and nothing. |
| Scenarios.AdvanceAndRetract | src/lib.rs:43-52 | `advance(2)` then `retract(1)` on `[4, 6, 8, 10]` shed `[4, 6]` and `[10]`, leaving `[8]`. |
| Scenarios.StrictAndSaturating | src/arc.rs:377-396 | With `[14, 16]` left, `advance(3)` fails and leaves the view alone, while `saturating_advance(3)` takes both and empties it. |
| Scenarios.ChangeRangeWidens | src/arc.rs:518-523 | `change_range(3..)` on a `1..4` view over nine elements returns `3..9` and shows `[8, .., 18]`. |
| Scenarios.GetMutNeedsUniqueness | src/arc.rs:554-569 | `get_mut` fails while the caller's `Arc` lives, and succeeds once that `Arc` is dropped. A write through it lands at the view's offset in the buffer. |
| Scenarios.SplitBlocksGetMut | src/arc.rs:572-580 | After `split_at` on a uniquely held view, neither the low half nor the view itself can `get_mut`. |
| Scenarios.ShrinkVec | src/arc.rs:643-653 | `shrink` fails with two holders. With one holder it succeeds: the view stays `[4, 6, 8]` and so does the `Vec`. |
| Scenarios.ShrinkSmallVec | src/lib.rs:306-319 | A spilled `SmallVec` with four inline slots shrinks to `[4, 6, 8]` and is no longer spilled. |
| Scenarios.ShrinkRefused | src/arc.rs:661-667 | A unique view over its whole container, or over a boxed slice, is not shrunk. |
| Scenarios.PtrEqAndEquality | src/rc.rs:591-595 | The `ptr_eq` example: different ranges are not `ptr_eq`; a split half with the same range is; `==` holds across allocations with equal elements. |
| Scenarios.ArcEqualityIgnoresRange | src/arc.rs:732-736 | `..4` and `..8` over one buffer are `==` as written, yet differ element-wise. |
| Scenarios.AdvanceThenRestore | src/arc.rs:518-523 | `advance` followed by `change_range` back to the old bounds restores the view. |
| Scenarios.SaturatingAdvanceEmpties | src/rc.rs:385-391 | A step of `usize::MAX` empties any view without failing, and sheds all it showed. |

## Left out

- Weak references are not modelled. `shrink` invalidates them, and `Arc::get_mut` also fails while any are alive. Only the strong count decides uniqueness here.
- `Arc` and `Rc` are modelled alike: the count is a plain field, and there is no concurrency.
- Memory effects are not modelled: capacity, the `T::default()` placeholder swapped into the view during `shrink`, and the reallocation by `shrink_to_fit`. `shrink` is modelled as one step: "take the container if unique, else put the handle back".
- ArcSlices.ArcSlice.Shrink: requires a container kind other than `[T]`. The impl block needs `T: Default`, which the unsized `[T]` cannot meet.
- Containers.ShrinkContainerToRange: requires a shrinkable kind. `[T]` and `Box<[T]>` panic there (`unimplemented!`), and `shrink` never reaches them because their `IS_SHRINKABLE` is false.
- `SmallVec` is modelled by its elements, its inline capacity and a spilled flag. `shrink_to_fit` resets the flag to "more elements than inline slots", as the smallvec crate does. `SmallVec::from_vec` is not modelled; its result is written as a spilled value.
- The `Vec`/`SmallVec` `len`, `get` and `get_mut` delegations are one function per operation for all four kinds. They behave the same for every kind.
- The trait forwarding is not modelled: `Debug`, `PartialOrd`/`Ord`, `Borrow`, `AsRef`, `From`, the deprecated `bounds` (the tuple form of `bounds_range`), and the `RcBytes`/`ArcBytes` aliases. These only delegate and add no range logic.
- `RcSlice` has no `shrink` and works over `Rc<[T]>` only, as in `src/rc.rs`. The examples in `src/lib.rs` that call `RcSlice::shrink` on `Rc<Vec<u8>>` are therefore modelled with `ArcSlice`.
- The `reverse()` in the `get_mut` example is not modelled. `Scenarios.GetMutNeedsUniqueness` writes one element through the window instead.
- Handles.MutSlice.Set: the lifetime of the `&mut [T]` borrow is not enforced. The write requires a unique allocation at the moment it happens, but nothing stops a window from outliving a later `clone` or `drop` of its view. Views are also not invalidated by their own `Drop()`, so a model client could still use a dropped view, which Rust's ownership rules reject.
- A view's `Drop` is an explicit call, `Drop()`, since Dafny has no destructors.
- Inner: returns the handle itself and has no contract; the strong count is read through it.

## Findings

| source | as written | input that shows it | evidently intended | confidence | as-written member | corrected member |
|---|---|---|---|---|---|---|
| src/arc.rs:732-736 | `PartialEq for ArcSlice` compares `self.underlying == other.underlying`, the whole containers, while `Hash` (src/arc.rs:763-765) hashes only the visible elements | `..4` and `..8` over one `Arc<[u8]>` of nine elements: `==` holds, but they hash `[2, 4, 6, 8]` and `[2, .., 16]`, breaking "equal values hash alike" | compare the visible elements, as `RcSlice` does (src/rc.rs:641-645) and as the `ptr_eq` example's comment "the elements ... are the same" expects | medium, not executed | ArcSlices.EqualsAsWrittenBreaksHash | ArcSlices.ElementsEqual |
