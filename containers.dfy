/** The container capability (`RcSliceContainer`): the four kinds of storage a
    view can be taken over, their bounds-checked access, and the compaction
    that shrinkable kinds perform when a view asks for it. */
module Containers {
  import opened Wrappers
  import opened Ranges

  /** The underlying storage. Every kind holds its elements in `items`:
      `Slice` is `[T]`, `BoxedSlice` is `Box<[T]>`, `Vector` is `Vec<T>` and
      `SmallVector` is a `SmallVec` with `inlineCapacity` inline slots and a
      flag that says whether its elements have moved to the heap. */
  datatype Container<T> =
    | Slice(items: seq<T>)
    | BoxedSlice(items: seq<T>)
    | Vector(items: seq<T>)
    | SmallVector(items: seq<T>, inlineCapacity: nat, spilled: bool)
  {
    /** A container's length fits a `usize`, and a `SmallVec` that has not
        spilled holds no more than its inline slots. */
    ghost predicate Valid() {
      && |items| <= USIZE_MAX
      && (SmallVector? && !spilled ==> |items| <= inlineCapacity)
    }

    /** `RcSliceContainer::len` */
    function Len(): Usize
      requires Valid()
    {
      |items|
    }

    /** `IS_SHRINKABLE`: true for `Vec` and `SmallVec`, false for `[T]` and `Box<[T]>`. */
    predicate IsShrinkable()
      ensures IsShrinkable() <==> !Slice? && !BoxedSlice?
      ensures IsShrinkable() ==> HasDefault()
    {
      Vector? || SmallVector?
    }

    /** A `SmallVec` whose elements are still in its inline slots. */
    predicate IsInline()
      ensures IsInline() ==> IsShrinkable()
      ensures SmallVector? ==> (IsInline() && Valid() ==> |items| <= inlineCapacity)
    {
      SmallVector? && !spilled
    }

    /** Whether the kind has a `Default` value; `[T]` (unsized) has none. */
    predicate HasDefault() {
      !Slice?
    }

    /** `RcSliceContainer::get`, delegating to slice `get`: the elements of
        `range`, or `None` when the range is inverted or runs past the end. */
    function Get(range: Range): (r: Option<seq<T>>)
      ensures r.Some? <==> range.Within(|items|)
      ensures r.Some? ==> |r.value| == range.end - range.start
      ensures r.Some? ==> forall k :: 0 <= k < |r.value| ==> r.value[k] == items[range.start + k]
    {
      if range.start <= range.end <= |items| then Some(items[range.start..range.end]) else None
    }

    /** `RcSliceContainer::get_mut`: the same bounds check as `get`; on success
        the caller may write the positions of `range`. The window handed out
        is identified by its range. */
    function GetMut(range: Range): (r: Option<Range>)
      ensures r.Some? <==> range.Within(|items|)
      ensures r.Some? ==> r.value == range
    {
      if range.start <= range.end <= |items| then Some(range) else None
    }

    /** The same kind of container holding `kept` after `shrink_to_fit`:
        a `SmallVec` moves back inline exactly when `kept` fits there. */
    function ShrunkToFit(kept: seq<T>): (c: Container<T>)
      requires IsShrinkable()
      ensures c.items == kept
      ensures c.Vector? == Vector? && c.SmallVector? == SmallVector?
      ensures c.SmallVector? ==> c.inlineCapacity == inlineCapacity && c.spilled == (|kept| > inlineCapacity)
      ensures c.Valid() <==> |kept| <= USIZE_MAX
    {
      match this
      case Vector(_) => Vector(kept)
      case SmallVector(_, inline, _) => SmallVector(kept, inline, |kept| > inline)
    }
  }

  /** `len` names the whole container: `0..len` is the widest range that
      `get` accepts, and it yields every element. */
  lemma LenCoversAllItems<T>(c: Container<T>)
    requires c.Valid()
    ensures c.Get(Range(0, c.Len())) == Some(c.items)
    ensures c.Get(Range(0, c.Len() + 1)).None?
  {
    assert c.items[0..c.Len()] == c.items;
  }

  /** The elements that `Vec::retain` keeps from `items` when the predicate it
      is given asks only whether the element's position lies in `keep`, in
      their original order. */
  function RetainByIndex<T>(items: seq<T>, keep: Range): (r: seq<T>)
    ensures |r| <= |items|
  {
    if items == [] then []
    else
      var last := |items| - 1;
      RetainByIndex(items[..last], keep) + (if keep.Contains(last) then [items[last]] else [])
  }

  /** Retaining by position keeps one contiguous piece: the part of `keep`
      that lies inside `items`, or nothing when `keep` is inverted. */
  lemma {:induction false} RetainByIndexIsSlice<T>(items: seq<T>, keep: Range)
    ensures var hi := Min(keep.end, |items|);
            RetainByIndex(items, keep) == items[Min(keep.start, hi)..hi]
  {
    if items != [] {
      var last := |items| - 1;
      var front := items[..last];
      RetainByIndexIsSlice(front, keep);
      var hi' := Min(keep.end, last);
      var lo' := Min(keep.start, hi');
      assert front[lo'..hi'] == items[lo'..hi'];
      if keep.Contains(last) {
        assert items[lo'..hi'] + [items[last]] == items[lo'..last + 1];
      }
    }
  }

  /** `shrink_container_to_range` for `Vec` and `SmallVec`. A `SmallVec` whose
      elements are still inline is left alone and reports `None`. Otherwise the
      container is truncated to `keep.end`, then `retain` walks it once with a
      counter `curIndex` of visited elements and keeps those whose position
      lies in `keep`; the result reports that the kept elements now occupy
      `0..len`. The trait's promise that the new range names the same
      elements as `keep` is the last postcondition. `[T]` and `Box<[T]>` panic
      here, so the caller must not reach this for them. */
  method ShrinkContainerToRange<T>(c: Container<T>, keep: Range) returns (after: Container<T>, newRange: Option<Range>)
    requires c.Valid()
    requires c.IsShrinkable()
    ensures after.Valid()
    ensures c.IsInline() ==> after == c && newRange == None
    ensures !c.IsInline() ==>
              var hi := Min(keep.end, |c.items|);
              && after == c.ShrunkToFit(c.items[Min(keep.start, hi)..hi])
              && newRange == Some(Range(0, |after.items|))
    ensures keep.Within(|c.items|) && newRange.Some? ==>
              newRange.value.Within(|after.items|) &&
              after.items[newRange.value.start..newRange.value.end] == c.items[keep.start..keep.end]
  {
    if c.IsInline() {
      // No point in shrinking an inline buffer.
      return c, None;
    }
    var items := c.items;
    // Truncate: nothing past the kept range is visited.
    if keep.end < |items| {
      items := items[..keep.end];
    }
    var kept: seq<T> := [];
    var curIndex: nat := 0;
    while curIndex < |items|
      invariant curIndex <= |items|
      invariant kept == RetainByIndex(items[..curIndex], keep)
    {
      var ret := keep.Contains(curIndex);
      if ret {
        kept := kept + [items[curIndex]];
      }
      assert items[..curIndex + 1][..curIndex] == items[..curIndex];
      curIndex := curIndex + 1;
    }
    assert items[..curIndex] == items;
    RetainByIndexIsSlice(items, keep);
    var hi := Min(keep.end, |c.items|);
    assert items[Min(keep.start, hi)..hi] == c.items[Min(keep.start, hi)..hi];
    after := c.ShrunkToFit(kept);
    newRange := Some(Range(0, |after.items|));
  }
}
