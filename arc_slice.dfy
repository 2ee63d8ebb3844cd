/** `ArcSlice`: a view `start..end` into a container held by a shared,
    atomically counted handle. Views narrow themselves in place and hand back
    what they cut off; mutation and compaction are allowed only to the holder
    of the one remaining handle. */
module ArcSlices {
  import opened Wrappers
  import opened Ranges
  import opened Containers
  import opened Handles

  class ArcSlice<T> {
    var underlying: Handle<T>
    var start: nat
    var end: nat

    /** The view's invariant: `start <= end <= underlying.len()`. */
    ghost predicate Valid()
      reads this, underlying
    {
      underlying.Valid() && start <= end <= |underlying.value.items|
    }

    /** `Deref` / `AsRef`: the visible elements, `underlying.get(start..end).unwrap()`. */
    function Elems(): (s: seq<T>)
      reads this, underlying
      requires Valid()
      ensures |s| == end - start
    {
      underlying.value.Get(Range(start, end)).value
    }

    /** `ArcSlice::new`: clones the handle and clamps `range` into the
        container; never fails. */
    constructor New(handle: Handle<T>, range: RangeBounds)
      requires handle.Valid()
      modifies handle
      ensures Valid() && underlying == handle
      ensures Range(start, end) == ResolveForNew(handle.value.Len(), range)
      ensures handle.value == old(handle.value) && handle.strong == old(handle.strong) + 1
    {
      var len := handle.value.Len();
      var s := ResolveStart(range.lower, len);
      var e := ResolveEnd(range.upper, len);
      handle.Clone();
      underlying := handle;
      start := s;
      end := Max(s, e);
    }

    /** `Clone`: the same range over the same allocation, one more holder. */
    constructor Clone(other: ArcSlice<T>)
      requires other.Valid()
      modifies other.underlying
      ensures Valid()
      ensures underlying == other.underlying && start == other.start && end == other.end
      ensures underlying.value == old(other.underlying.value)
      ensures underlying.strong == old(other.underlying.strong) + 1
    {
      other.underlying.Clone();
      underlying := other.underlying;
      start := other.start;
      end := other.end;
    }

    /** `Default`: an empty view over a fresh, empty default container
        (`T::default()` is `empty`); the temporary handle is dropped again,
        so the view is the sole holder. */
    constructor Default(empty: Container<T>)
      requires empty.Valid() && empty.HasDefault() && empty.items == []
      requires empty.SmallVector? ==> empty.IsInline()
      ensures Valid() && fresh(underlying)
      ensures underlying.value == empty && underlying.strong == 1
      ensures start == 0 && end == 0
    {
      var temp := new Handle.New(empty);
      temp.Clone();
      var r := ResolveForNew(temp.value.Len(), Full);
      underlying := temp;
      start := r.start;
      end := r.end;
      new;
      temp.Drop();
    }

    /** Dropping the view gives up its handle. */
    method Drop()
      requires Valid()
      modifies underlying
      ensures underlying.value == old(underlying.value)
      ensures underlying.strong == old(underlying.strong) - 1
    {
      underlying.Drop();
    }

    /** `ArcSlice::len`, computed from the view's own fields. */
    function Len(): (n: nat)
      reads this, underlying
      requires Valid()
      ensures n == |Elems()|
    {
      end - start
    }

    /** `ArcSlice::is_empty` */
    function IsEmpty(): (b: bool)
      reads this, underlying
      requires Valid()
      ensures b <==> Elems() == []
    {
      end == start
    }

    /** `ArcSlice::inner` */
    function Inner(): Handle<T>
      reads this
    {
      underlying
    }

    /** `ArcSlice::bounds_range`: the range of the container the view shows. */
    function BoundsRange(): (r: Range)
      reads this, underlying
      requires Valid()
      ensures r.Within(underlying.value.Len())
      ensures underlying.value.Get(r) == Some(Elems())
    {
      Range(start, end)
    }

    /** `ArcSlice::split_at`: two new views `[0, mid)` and `[mid, len)` of
        this one, built with `new` over the same allocation. The view itself
        and the elements are untouched. Panics if `mid > len`. */
    method SplitAt(mid: Usize) returns (low: ArcSlice<T>, high: ArcSlice<T>)
      requires Valid()
      requires mid <= Len()
      modifies underlying
      ensures Valid()
      ensures fresh(low) && fresh(high) && low.Valid() && high.Valid()
      ensures low.underlying == underlying && high.underlying == underlying
      ensures low.start == start && low.end == start + mid && high.start == start + mid && high.end == end
      ensures |low.Elems()| == mid && low.Elems() + high.Elems() == Elems()
      ensures underlying.value == old(underlying.value)
      ensures underlying.strong == old(underlying.strong) + 2
    {
      var realMid := start + mid;
      ExclusiveRangeIsKept(underlying.value.Len(), start, realMid);
      ExclusiveRangeIsKept(underlying.value.Len(), realMid, end);
      low := new ArcSlice.New(underlying, Exclusive(start, realMid));
      high := new ArcSlice.New(underlying, Exclusive(realMid, end));
      assert underlying.value.items[start..realMid] + underlying.value.items[realMid..end]
          == underlying.value.items[start..end];
    }

    /** `ArcSlice::try_split_at`: `split_at`, or `None` when `mid > len`. */
    method TrySplitAt(mid: Usize) returns (halves: Option<(ArcSlice<T>, ArcSlice<T>)>)
      requires Valid()
      modifies underlying
      ensures Valid()
      ensures halves.Some? <==> mid <= Len()
      ensures halves.Some? ==>
                var (low, high) := halves.value;
                && fresh(low) && fresh(high) && low.Valid() && high.Valid()
                && low.underlying == underlying && high.underlying == underlying
                && low.start == start && low.end == start + mid && high.start == start + mid && high.end == end
                && low.Elems() + high.Elems() == Elems()
                && underlying.strong == old(underlying.strong) + 2
      ensures halves.None? ==> underlying.strong == old(underlying.strong)
      ensures underlying.value == old(underlying.value)
    {
      if mid <= Len() {
        var low, high := SplitAt(mid);
        halves := Some((low, high));
      } else {
        halves := None;
      }
    }

    /** `ArcSlice::split_off_before`: cuts at `start + index`; the view keeps
        the back part and the front part is returned. `None`, with the view
        unchanged, when the addition overflows or the cut lies past `end`. */
    method SplitOffBefore(index: Usize) returns (front: Option<ArcSlice<T>>)
      requires Valid()
      modifies this, underlying
      ensures Valid() && underlying == old(underlying) && underlying.value == old(underlying.value)
      ensures front.Some? <==> old(start) + index <= old(end)
      ensures front.Some? ==>
                && fresh(front.value) && front.value.Valid() && front.value.underlying == underlying
                && front.value.start == old(start) && front.value.end == start == old(start) + index
                && end == old(end)
                && front.value.Elems() == old(Elems())[..index] && Elems() == old(Elems())[index..]
                && underlying.strong == old(underlying.strong) + 1
      ensures front.None? ==>
                start == old(start) && end == old(end) && underlying.strong == old(underlying.strong)
    {
      var cut := CheckedAdd(start, index);
      if cut.None? {
        return None;
      }
      if cut.value <= end {
        var f := new ArcSlice.Clone(this);
        f.end := cut.value;
        start := cut.value;
        assert underlying.value.items[f.start..cut.value] + underlying.value.items[cut.value..end]
            == underlying.value.items[f.start..end];
        front := Some(f);
      } else {
        front := None;
      }
    }

    /** `ArcSlice::split_off_after`: cuts at `start + index`; the view keeps
        the front part and the back part is returned. `None`, with the view
        unchanged, when the addition overflows or the cut lies past `end`. */
    method SplitOffAfter(index: Usize) returns (back: Option<ArcSlice<T>>)
      requires Valid()
      modifies this, underlying
      ensures Valid() && underlying == old(underlying) && underlying.value == old(underlying.value)
      ensures back.Some? <==> old(start) + index <= old(end)
      ensures back.Some? ==>
                && fresh(back.value) && back.value.Valid() && back.value.underlying == underlying
                && back.value.start == end == old(start) + index && back.value.end == old(end)
                && start == old(start)
                && Elems() == old(Elems())[..index] && back.value.Elems() == old(Elems())[index..]
                && underlying.strong == old(underlying.strong) + 1
      ensures back.None? ==>
                start == old(start) && end == old(end) && underlying.strong == old(underlying.strong)
    {
      var cut := CheckedAdd(start, index);
      if cut.None? {
        return None;
      }
      if cut.value <= end {
        var b := new ArcSlice.Clone(this);
        b.start := cut.value;
        end := cut.value;
        assert underlying.value.items[start..cut.value] + underlying.value.items[cut.value..b.end]
            == underlying.value.items[start..b.end];
        back := Some(b);
      } else {
        back := None;
      }
    }

    /** `ArcSlice::advance`: moves `start` forward by `incr` and returns the
        elements that fell off the front; `None`, with the view unchanged,
        when fewer than `incr` elements are visible. */
    method Advance(incr: Usize) returns (shed: Option<seq<T>>)
      requires Valid()
      modifies this
      ensures Valid() && underlying == old(underlying) && end == old(end)
      ensures shed.Some? <==> incr <= old(Len())
      ensures shed.Some? ==>
                && start == old(start) + incr
                && shed.value == old(Elems())[..incr] && Elems() == old(Elems())[incr..]
      ensures shed.None? ==> start == old(start)
    {
      var cut := CheckedAdd(start, incr);
      if cut.None? {
        return None;
      }
      if cut.value <= end {
        // The container's `get` cannot fail on a valid view.
        var s := underlying.value.Get(Range(start, cut.value)).value;
        assert s + underlying.value.items[cut.value..end] == underlying.value.items[start..end];
        start := cut.value;
        shed := Some(s);
      } else {
        shed := None;
      }
    }

    /** `ArcSlice::saturating_advance`: moves `start` forward by `incr`, or to
        `end` if fewer elements are visible, and returns what fell off. */
    method SaturatingAdvance(incr: Usize) returns (shed: seq<T>)
      requires Valid()
      modifies this
      ensures Valid() && underlying == old(underlying) && end == old(end)
      ensures start == old(start) + Min(incr, old(Len()))
      ensures shed == old(Elems())[..Min(incr, old(Len()))] && Elems() == old(Elems())[Min(incr, old(Len()))..]
    {
      var cut := Min(SaturatingAdd(start, incr), end);
      var s := underlying.value.Get(Range(start, cut)).value;
      assert s + underlying.value.items[cut..end] == underlying.value.items[start..end];
      start := cut;
      shed := s;
    }

    /** `ArcSlice::retract`: moves `end` back by `decr` and returns the
        elements that fell off the back; `None`, with the view unchanged,
        when fewer than `decr` elements are visible. */
    method Retract(decr: Usize) returns (shed: Option<seq<T>>)
      requires Valid()
      modifies this
      ensures Valid() && underlying == old(underlying) && start == old(start)
      ensures shed.Some? <==> decr <= old(Len())
      ensures shed.Some? ==>
                && end == old(end) - decr
                && Elems() == old(Elems())[..old(Len()) - decr] && shed.value == old(Elems())[old(Len()) - decr..]
      ensures shed.None? ==> end == old(end)
    {
      var cut := CheckedSub(end, decr);
      if cut.None? {
        return None;
      }
      if cut.value >= start {
        var s := underlying.value.Get(Range(cut.value, end)).value;
        assert underlying.value.items[start..cut.value] + s == underlying.value.items[start..end];
        end := cut.value;
        shed := Some(s);
      } else {
        shed := None;
      }
    }

    /** `ArcSlice::saturating_retract`: moves `end` back by `decr`, or to
        `start` if fewer elements are visible, and returns what fell off. */
    method SaturatingRetract(decr: Usize) returns (shed: seq<T>)
      requires Valid()
      modifies this
      ensures Valid() && underlying == old(underlying) && start == old(start)
      ensures end == old(end) - Min(decr, old(Len()))
      ensures Elems() == old(Elems())[..old(Len()) - Min(decr, old(Len()))]
      ensures shed == old(Elems())[old(Len()) - Min(decr, old(Len()))..]
    {
      var cut := Max(SaturatingSub(end, decr), start);
      var s := underlying.value.Get(Range(cut, end)).value;
      assert underlying.value.items[start..cut] + s == underlying.value.items[start..end];
      end := cut;
      shed := s;
    }

    /** `ArcSlice::change_range`: re-resolves the bounds against the whole
        container, whatever the view showed before; an inverted pair
        collapses onto the resolved end. Returns the new range. */
    method ChangeRange(newRange: RangeBounds) returns (r: Range)
      requires Valid()
      modifies this
      ensures Valid() && underlying == old(underlying)
      ensures r == Range(start, end)
      ensures r == ResolveForChange(underlying.value.Len(), newRange)
    {
      var len := underlying.value.Len();
      var s := ResolveStart(newRange.lower, len);
      var e := ResolveEnd(newRange.upper, len);
      s := Min(s, e);
      start := s;
      end := e;
      r := Range(s, e);
    }

    /** `ArcSlice::get_mut`: a mutable window over exactly `start..end`, handed
        out only while this view holds the one handle to the allocation; any
        other holder, even a view of a disjoint range, makes it `None`. */
    method GetMut() returns (window: Option<MutSlice<T>>)
      requires Valid()
      ensures window.Some? <==> underlying.IsUnique()
      ensures window.Some? ==>
                && fresh(window.value) && window.value.Valid()
                && window.value.target == underlying
                && window.value.lo == start && window.value.hi == end
                && window.value.Contents() == Elems()
    {
      if underlying.IsUnique() {
        // The container's `get_mut` cannot fail on a valid view.
        var range := underlying.value.GetMut(Range(start, end)).value;
        var w := new MutSlice(underlying, range.start, range.end);
        window := Some(w);
      } else {
        window := None;
      }
    }

    /** `ArcSlice::ptr_eq`: same allocation and same range. */
    function PtrEq(other: ArcSlice<T>): (b: bool)
      reads this, underlying, other, other.underlying
      requires Valid() && other.Valid()
      ensures b <==> Inner() == other.Inner() && BoundsRange() == other.BoundsRange()
      ensures b ==> Elems() == other.Elems()
    {
      underlying == other.underlying && start == other.start && end == other.end
    }

    /** `ArcSlice::shrink`: compacts the container to the visible elements.
        Fails, changing nothing, when the kind is not shrinkable, when the
        view already shows the whole container, or when another handle to
        the allocation exists. Otherwise the container is taken out of the
        allocation (which is thereby consumed), shrunk, and wrapped in a new
        allocation held by this view alone; the visible elements stay the
        same. Needs `T: Default`, which excludes `[T]`. */
    method Shrink() returns (ok: bool)
      requires Valid()
      requires underlying.value.HasDefault()
      modifies this, underlying
      ensures Valid()
      ensures ok <==>
                && old(underlying.value.IsShrinkable())
                && !(old(start) == 0 && old(end) == old(underlying.value.Len()))
                && old(underlying.IsUnique())
      ensures Elems() == old(Elems())
      ensures !ok ==>
                && underlying == old(underlying) && start == old(start) && end == old(end)
                && underlying.value == old(underlying.value) && underlying.strong == old(underlying.strong)
      ensures ok ==> fresh(underlying) && underlying.IsUnique() && old(underlying).strong == 0
      ensures ok && old(underlying.value.IsInline()) ==>
                underlying.value == old(underlying.value) && start == old(start) && end == old(end)
      ensures ok && !old(underlying.value.IsInline()) ==>
                && underlying.value == old(underlying.value).ShrunkToFit(old(Elems()))
                && start == 0 && end == |underlying.value.items|
    {
      if !underlying.value.IsShrinkable() {
        return false;
      }
      if start == 0 && end == underlying.value.Len() {
        return false;
      }
      var original := underlying;
      if original.IsUnique() {
        // `Arc::try_unwrap` succeeds: the container is moved out.
        var container := original.value;
        original.strong := 0;
        var after, newRange := ShrinkContainerToRange(container, Range(start, end));
        if newRange.Some? {
          start := newRange.value.start;
          end := newRange.value.end;
        }
        var rewrapped := new Handle.New(after);
        underlying := rewrapped;
        ok := true;
      } else {
        // `Arc::try_unwrap` fails: the original handle goes back unchanged.
        ok := false;
      }
    }
  }

  /** What `Hash for ArcSlice` feeds the hasher: the visible elements. */
  function HashInput<T>(a: ArcSlice<T>): seq<T>
    reads a, a.underlying
    requires a.Valid()
  {
    a.Elems()
  }

  /** `PartialEq for ArcSlice` as written: compares the two whole underlying
      containers, whatever ranges the views show. */
  function EqualsAsWritten<T(==)>(a: ArcSlice<T>, b: ArcSlice<T>): bool
    reads a, a.underlying, b, b.underlying
  {
    a.underlying.value.items == b.underlying.value.items
  }

  /** Two views of different lengths over one allocation are equal under
      `EqualsAsWritten` but feed the hasher different elements, so that
      equality breaks the rule that equal values hash alike. */
  lemma EqualsAsWrittenBreaksHash<T>(a: ArcSlice<T>, b: ArcSlice<T>)
    requires a.Valid() && b.Valid()
    requires a.underlying == b.underlying && a.Len() != b.Len()
    ensures EqualsAsWritten(a, b)
    ensures HashInput(a) != HashInput(b)
  {
  }

  /** Equality over the visible elements, consistent with `Hash` and implied
      by `ptr_eq`. */
  function ElementsEqual<T(==)>(a: ArcSlice<T>, b: ArcSlice<T>): (eq: bool)
    reads a, a.underlying, b, b.underlying
    requires a.Valid() && b.Valid()
    ensures eq ==> HashInput(a) == HashInput(b)
    ensures a.PtrEq(b) ==> eq
  {
    a.Elems() == b.Elems()
  }
}
