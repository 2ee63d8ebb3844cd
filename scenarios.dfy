/** Client code over the two view types: the library's documented examples,
    proved from the operations' contracts alone, and two properties every
    view has. */
module Scenarios {
  import opened Wrappers
  import opened Ranges
  import opened Containers
  import opened Handles
  import opened ArcSlices
  import opened RcSlices

  /** Construction clamps every kind of range: `1..4`, `..`, `0..=2` and `10..`
      over `[2, 4, 6, 8, 10]`. */
  method ConstructionClamps() returns (a: seq<int>, b: seq<int>, c: seq<int>, d: seq<int>)
    ensures a == [4, 6, 8] && b == [2, 4, 6, 8, 10] && c == [2, 4, 6] && d == []
  {
    var buffer := new Handle.New(Slice([2, 4, 6, 8, 10]));
    var s1 := new ArcSlice.New(buffer, Exclusive(1, 4));
    a := s1.Elems();
    var s2 := new ArcSlice.New(buffer, Full);
    b := s2.Elems();
    var s3 := new ArcSlice.New(buffer, RangeBounds(Included(0), Included(2)));
    c := s3.Elems();
    var s4 := new ArcSlice.New(buffer, RangeBounds(Included(10), Unbounded));
    d := s4.Elems();
  }

  /** A view narrows from both ends and reports what it sheds. */
  method AdvanceAndRetract() returns (first: Option<seq<int>>, second: Option<seq<int>>, rest: seq<int>)
    ensures first == Some([4, 6]) && second == Some([10]) && rest == [8]
  {
    var buffer := new Handle.New(Slice([2, 4, 6, 8, 10]));
    var slice := new RcSlice.New(buffer, RangeBounds(Included(1), Unbounded));
    assert slice.Elems() == [4, 6, 8, 10];
    ghost var before := slice.Elems();
    first := slice.Advance(2);
    assert first.value == before[..2] == [4, 6];
    assert slice.Elems() == [8, 10];
    second := slice.Retract(1);
    rest := slice.Elems();
  }

  /** `advance` takes nothing when too few elements are left, while
      `saturating_advance` takes what there is. */
  method StrictAndSaturating() returns (taken: Option<seq<int>>, kept: seq<int>, satTaken: seq<int>, emptied: bool)
    ensures taken == None && kept == [14, 16]
    ensures satTaken == [14, 16] && emptied
  {
    var buffer := new Handle.New(Slice([2, 4, 6, 8, 10, 12, 14, 16, 18]));
    var slice := new ArcSlice.New(buffer, Exclusive(1, 8));
    var _ := slice.Advance(5);
    assert slice.Elems() == [14, 16];
    taken := slice.Advance(3);
    kept := slice.Elems();
    satTaken := slice.SaturatingAdvance(3);
    emptied := slice.IsEmpty();
  }

  /** `change_range` moves a view anywhere inside the container: `1..4`
      becomes `3..9`. */
  method ChangeRangeWidens() returns (r: Range, elems: seq<int>)
    ensures r == Range(3, 9) && elems == [8, 10, 12, 14, 16, 18]
  {
    var buffer := new Handle.New(Slice([2, 4, 6, 8, 10, 12, 14, 16, 18]));
    var slice := new ArcSlice.New(buffer, Exclusive(1, 4));
    r := slice.ChangeRange(RangeBounds(Included(3), Unbounded));
    elems := slice.Elems();
  }

  /** `get_mut` fails while the caller's own `Arc` is alive, succeeds once it
      is dropped, and a write through it lands in the shared buffer at the
      view's offset. */
  method GetMutNeedsUniqueness() returns (whileShared: bool, whileUnique: bool, buffer: seq<int>)
    ensures !whileShared && whileUnique
    ensures buffer == [2, 40, 6, 8, 10, 12, 14, 16, 18]
  {
    var arc := new Handle.New(Slice([2, 4, 6, 8, 10, 12, 14, 16, 18]));
    var slice := new ArcSlice.New(arc, Exclusive(1, 8));
    var window := slice.GetMut();
    whileShared := window.Some?;
    arc.Drop();
    window := slice.GetMut();
    whileUnique := window.Some?;
    var w := window.value;
    w.Set(0, 40);
    buffer := arc.value.items;
    assert buffer == [2, 4, 6, 8, 10, 12, 14, 16, 18][1 := 40];
  }

  /** A second view, even one over a disjoint range, blocks `get_mut`: after
      `split_at` neither the view nor its halves may write. */
  method SplitBlocksGetMut<T>(v: ArcSlice<T>) returns (lowWindow: bool, viewWindow: bool)
    requires v.Valid() && v.underlying.IsUnique() && 4 <= v.Len()
    modifies v.underlying
    ensures !lowWindow && !viewWindow
  {
    var low, _ := v.SplitAt(4);
    var window := low.GetMut();
    lowWindow := window.Some?;
    window := v.GetMut();
    viewWindow := window.Some?;
  }

  /** `shrink` over a `Vec`: refused while the caller's `Arc` is alive; once
      the view is the sole holder it succeeds, the view still shows
      `[4, 6, 8]`, and the container now holds exactly those elements. */
  method ShrinkVec() returns (whileShared: bool, unique: bool, elems: seq<int>, container: seq<int>)
    ensures !whileShared && unique
    ensures elems == [4, 6, 8] && container == [4, 6, 8]
  {
    var buffer := new Handle.New(Vector([2, 4, 6, 8, 10]));
    var slice := new ArcSlice.New(buffer, Exclusive(1, 4));
    whileShared := slice.Shrink();
    buffer.Drop();
    assert slice.underlying.strong == 1;
    unique := slice.Shrink();
    elems := slice.Elems();
    container := slice.underlying.value.items;
  }

  /** `shrink` over a spilled `SmallVec` with four inline slots: the three
      kept elements fit inline again, so it is no longer spilled. */
  method ShrinkSmallVec() returns (unique: bool, elems: seq<int>, container: Container<int>)
    ensures unique && elems == [4, 6, 8]
    ensures container == SmallVector([4, 6, 8], 4, false)
  {
    var buffer := new Handle.New(SmallVector([2, 4, 6, 8, 10], 4, true));
    var slice := new ArcSlice.New(buffer, Exclusive(1, 4));
    buffer.Drop();
    unique := slice.Shrink();
    elems := slice.Elems();
    container := slice.underlying.value;
  }

  /** A view that already shows its whole container, or one over a boxed
      slice, is not shrunk even when unique. */
  method ShrinkRefused() returns (full: bool, boxed: bool)
    ensures !full && !boxed
  {
    var v := new Handle.New(Vector([1, 2, 3]));
    var whole := new ArcSlice.New(v, Full);
    v.Drop();
    full := whole.Shrink();
    var b := new Handle.New(BoxedSlice([1, 2, 3]));
    var part := new ArcSlice.New(b, Exclusive(0, 1));
    b.Drop();
    boxed := part.Shrink();
  }

  /** `ptr_eq` asks for the same allocation and range; `==` on `RcSlice`
      asks only for the same visible elements. */
  method PtrEqAndEquality() returns (differentRanges: bool, splitEq: bool, splitPtrEq: bool, otherEq: bool, otherPtrEq: bool)
    ensures !differentRanges && splitEq && splitPtrEq && otherEq && !otherPtrEq
  {
    var buffer := new Handle.New(Slice([2, 4, 6, 8, 10, 12, 14, 16, 18]));
    var first := new RcSlice.New(buffer, RangeBounds(Unbounded, Excluded(4)));
    var second := new RcSlice.New(buffer, RangeBounds(Unbounded, Excluded(8)));
    differentRanges := first.PtrEq(second);
    var low, _ := second.SplitAt(4);
    splitEq := Equals(first, low);
    splitPtrEq := first.PtrEq(low);
    var otherBuffer := new Handle.New(Slice([2, 4, 6, 8, 10, 12, 14, 16, 18]));
    var other := new RcSlice.New(otherBuffer, RangeBounds(Unbounded, Excluded(4)));
    otherEq := Equals(first, other);
    otherPtrEq := first.PtrEq(other);
  }

  /** On `ArcSlice`, `==` as written holds for `..4` and `..8` over one
      buffer although they show different elements (and so hash apart);
      the element-wise comparison tells them apart. */
  method ArcEqualityIgnoresRange() returns (eqAsWritten: bool, eqByElements: bool)
    ensures eqAsWritten && !eqByElements
  {
    var buffer := new Handle.New(Slice([2, 4, 6, 8, 10, 12, 14, 16, 18]));
    var first := new ArcSlice.New(buffer, RangeBounds(Unbounded, Excluded(4)));
    var second := new ArcSlice.New(buffer, RangeBounds(Unbounded, Excluded(8)));
    eqAsWritten := EqualsAsWritten(first, second);
    eqByElements := ElementsEqual(first, second);
  }

  /** Narrowing is undone by `change_range` back to the original bounds: the
      view shows the same elements as before. */
  method AdvanceThenRestore<T>(v: ArcSlice<T>, k: Usize)
    requires v.Valid()
    modifies v
    ensures v.Valid() && v.underlying == old(v.underlying)
    ensures v.start == old(v.start) && v.end == old(v.end) && v.Elems() == old(v.Elems())
  {
    var s, e := v.start, v.end;
    var _ := v.Advance(k);
    ExclusiveRangeIsKept(v.underlying.value.Len(), s, e);
    var _ := v.ChangeRange(Exclusive(s, e));
  }

  /** However large the step, `saturating_advance` empties a view without
      failing once the step reaches its length, returning all it showed. */
  method SaturatingAdvanceEmpties<T>(v: RcSlice<T>) returns (shed: seq<T>)
    requires v.Valid()
    modifies v
    ensures v.Valid() && v.IsEmpty() && v.end == old(v.end)
    ensures shed == old(v.Elems())
  {
    shed := v.SaturatingAdvance(USIZE_MAX);
  }
}
