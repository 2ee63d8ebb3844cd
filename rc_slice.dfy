/** `RcSlice`: a view `start..end` into an `Rc<[T]>`. It has the same range
    operations as `ArcSlice` but works over a plain slice only (so it has no
    compaction), and its equality compares the visible elements. */
module RcSlices {
  import opened Wrappers
  import opened Ranges
  import opened Containers
  import opened Handles

  class RcSlice<T> {
    var underlying: Handle<T>
    var start: nat
    var end: nat

    /** The view's invariant: the handle holds a slice and
        `start <= end <= underlying.len()`. */
    ghost predicate Valid()
      reads this, underlying
    {
      underlying.Valid() && underlying.value.Slice? && start <= end <= |underlying.value.items|
    }

    /** `Deref` / `AsRef`: the visible elements, `&underlying[start..end]`. */
    function Elems(): (s: seq<T>)
      reads this, underlying
      requires Valid()
      ensures |s| == end - start
      ensures forall k :: 0 <= k < |s| ==> s[k] == underlying.value.items[start + k]
    {
      underlying.value.items[start..end]
    }

    /** `RcSlice::new`: clones the `Rc` and clamps `range` into the slice;
        never fails. */
    constructor New(handle: Handle<T>, range: RangeBounds)
      requires handle.Valid() && handle.value.Slice?
      modifies handle
      ensures Valid() && underlying == handle
      ensures Range(start, end) == ResolveForNew(handle.value.Len(), range)
      ensures handle.value == old(handle.value) && handle.strong == old(handle.strong) + 1
    {
      var len := handle.value.Len();
      var s := ResolveStart(range.lower, len);
      var e := ResolveEnd(range.upper, len);
      handle.Clone();
      underlying := handle;
      start := s;
      end := Max(s, e);
    }

    /** `Clone`: the same range over the same allocation, one more holder. */
    constructor Clone(other: RcSlice<T>)
      requires other.Valid()
      modifies other.underlying
      ensures Valid()
      ensures underlying == other.underlying && start == other.start && end == other.end
      ensures underlying.value == old(other.underlying.value)
      ensures underlying.strong == old(other.underlying.strong) + 1
    {
      other.underlying.Clone();
      underlying := other.underlying;
      start := other.start;
      end := other.end;
    }

    /** `Default`: an empty view over a fresh `Rc::new([])`, whose temporary
        handle is dropped again, so the view is the sole holder. */
    constructor Default()
      ensures Valid() && fresh(underlying)
      ensures underlying.value == Slice([]) && underlying.strong == 1
      ensures start == 0 && end == 0
    {
      var temp := new Handle.New(Slice([]));
      temp.Clone();
      var r := ResolveForNew(temp.value.Len(), Full);
      underlying := temp;
      start := r.start;
      end := r.end;
      new;
      temp.Drop();
    }

    /** Dropping the view gives up its handle. */
    method Drop()
      requires Valid()
      modifies underlying
      ensures underlying.value == old(underlying.value)
      ensures underlying.strong == old(underlying.strong) - 1
    {
      underlying.Drop();
    }

    /** `RcSlice::len`, computed from the view's own fields. */
    function Len(): (n: nat)
      reads this, underlying
      requires Valid()
      ensures n == |Elems()|
    {
      end - start
    }

    /** `RcSlice::is_empty` */
    function IsEmpty(): (b: bool)
      reads this, underlying
      requires Valid()
      ensures b <==> Elems() == []
    {
      end == start
    }

    /** `RcSlice::inner` */
    function Inner(): Handle<T>
      reads this
    {
      underlying
    }

    /** `RcSlice::bounds_range`: the range of the slice the view shows. */
    function BoundsRange(): (r: Range)
      reads this, underlying
      requires Valid()
      ensures r.Within(underlying.value.Len())
      ensures underlying.value.items[r.start..r.end] == Elems()
    {
      Range(start, end)
    }

    /** `RcSlice::split_at`: two new views `[0, mid)` and `[mid, len)` of
        this one, built with `new` over the same `Rc`. The view itself and
        the elements are untouched. Panics if `mid > len`. */
    method SplitAt(mid: Usize) returns (low: RcSlice<T>, high: RcSlice<T>)
      requires Valid()
      requires mid <= Len()
      modifies underlying
      ensures Valid()
      ensures fresh(low) && fresh(high) && low.Valid() && high.Valid()
      ensures low.underlying == underlying && high.underlying == underlying
      ensures low.start == start && low.end == start + mid && high.start == start + mid && high.end == end
      ensures |low.Elems()| == mid && low.Elems() + high.Elems() == Elems()
      ensures underlying.value == old(underlying.value)
      ensures underlying.strong == old(underlying.strong) + 2
    {
      var realMid := start + mid;
      ExclusiveRangeIsKept(underlying.value.Len(), start, realMid);
      ExclusiveRangeIsKept(underlying.value.Len(), realMid, end);
      low := new RcSlice.New(underlying, Exclusive(start, realMid));
      high := new RcSlice.New(underlying, Exclusive(realMid, end));
      assert underlying.value.items[start..realMid] + underlying.value.items[realMid..end]
          == underlying.value.items[start..end];
    }

    /** `RcSlice::try_split_at`: `split_at`, or `None` when `mid > len`. */
    method TrySplitAt(mid: Usize) returns (halves: Option<(RcSlice<T>, RcSlice<T>)>)
      requires Valid()
      modifies underlying
      ensures Valid()
      ensures halves.Some? <==> mid <= Len()
      ensures halves.Some? ==>
                var (low, high) := halves.value;
                && fresh(low) && fresh(high) && low.Valid() && high.Valid()
                && low.underlying == underlying && high.underlying == underlying
                && low.start == start && low.end == start + mid && high.start == start + mid && high.end == end
                && low.Elems() + high.Elems() == Elems()
                && underlying.strong == old(underlying.strong) + 2
      ensures halves.None? ==> underlying.strong == old(underlying.strong)
      ensures underlying.value == old(underlying.value)
    {
      if mid <= Len() {
        var low, high := SplitAt(mid);
        halves := Some((low, high));
      } else {
        halves := None;
      }
    }

    /** `RcSlice::split_off_before`: cuts at `start + index`; the view keeps
        the back part and the front part is returned. `None`, with the view
        unchanged, when the addition overflows or the cut lies past `end`. */
    method SplitOffBefore(index: Usize) returns (front: Option<RcSlice<T>>)
      requires Valid()
      modifies this, underlying
      ensures Valid() && underlying == old(underlying) && underlying.value == old(underlying.value)
      ensures front.Some? <==> old(start) + index <= old(end)
      ensures front.Some? ==>
                && fresh(front.value) && front.value.Valid() && front.value.underlying == underlying
                && front.value.start == old(start) && front.value.end == start == old(start) + index
                && end == old(end)
                && front.value.Elems() == old(Elems())[..index] && Elems() == old(Elems())[index..]
                && underlying.strong == old(underlying.strong) + 1
      ensures front.None? ==>
                start == old(start) && end == old(end) && underlying.strong == old(underlying.strong)
    {
      var cut := CheckedAdd(start, index);
      if cut.None? {
        return None;
      }
      if cut.value <= end {
        var f := new RcSlice.Clone(this);
        f.end := cut.value;
        start := cut.value;
        assert underlying.value.items[f.start..cut.value] + underlying.value.items[cut.value..end]
            == underlying.value.items[f.start..end];
        front := Some(f);
      } else {
        front := None;
      }
    }

    /** `RcSlice::split_off_after`: cuts at `start + index`; the view keeps
        the front part and the back part is returned. `None`, with the view
        unchanged, when the addition overflows or the cut lies past `end`. */
    method SplitOffAfter(index: Usize) returns (back: Option<RcSlice<T>>)
      requires Valid()
      modifies this, underlying
      ensures Valid() && underlying == old(underlying) && underlying.value == old(underlying.value)
      ensures back.Some? <==> old(start) + index <= old(end)
      ensures back.Some? ==>
                && fresh(back.value) && back.value.Valid() && back.value.underlying == underlying
                && back.value.start == end == old(start) + index && back.value.end == old(end)
                && start == old(start)
                && Elems() == old(Elems())[..index] && back.value.Elems() == old(Elems())[index..]
                && underlying.strong == old(underlying.strong) + 1
      ensures back.None? ==>
                start == old(start) && end == old(end) && underlying.strong == old(underlying.strong)
    {
      var cut := CheckedAdd(start, index);
      if cut.None? {
        return None;
      }
      if cut.value <= end {
        var b := new RcSlice.Clone(this);
        b.start := cut.value;
        end := cut.value;
        assert underlying.value.items[start..cut.value] + underlying.value.items[cut.value..b.end]
            == underlying.value.items[start..b.end];
        back := Some(b);
      } else {
        back := None;
      }
    }

    /** `RcSlice::advance`: moves `start` forward by `incr` and returns the
        elements that fell off the front; `None`, with the view unchanged,
        when fewer than `incr` elements are visible. */
    method Advance(incr: Usize) returns (shed: Option<seq<T>>)
      requires Valid()
      modifies this
      ensures Valid() && underlying == old(underlying) && end == old(end)
      ensures shed.Some? <==> incr <= old(Len())
      ensures shed.Some? ==>
                && start == old(start) + incr
                && shed.value == old(Elems())[..incr] && Elems() == old(Elems())[incr..]
      ensures shed.None? ==> start == old(start)
    {
      var cut := CheckedAdd(start, incr);
      if cut.None? {
        return None;
      }
      if cut.value <= end {
        var s := underlying.value.items[start..cut.value];
        assert s + underlying.value.items[cut.value..end] == underlying.value.items[start..end];
        start := cut.value;
        shed := Some(s);
      } else {
        shed := None;
      }
    }

    /** `RcSlice::saturating_advance`: moves `start` forward by `incr`, or to
        `end` if fewer elements are visible, and returns what fell off. */
    method SaturatingAdvance(incr: Usize) returns (shed: seq<T>)
      requires Valid()
      modifies this
      ensures Valid() && underlying == old(underlying) && end == old(end)
      ensures start == old(start) + Min(incr, old(Len()))
      ensures shed == old(Elems())[..Min(incr, old(Len()))] && Elems() == old(Elems())[Min(incr, old(Len()))..]
    {
      var cut := Min(SaturatingAdd(start, incr), end);
      var s := underlying.value.items[start..cut];
      assert s + underlying.value.items[cut..end] == underlying.value.items[start..end];
      start := cut;
      shed := s;
    }

    /** `RcSlice::retract`: moves `end` back by `decr` and returns the
        elements that fell off the back; `None`, with the view unchanged,
        when fewer than `decr` elements are visible. */
    method Retract(decr: Usize) returns (shed: Option<seq<T>>)
      requires Valid()
      modifies this
      ensures Valid() && underlying == old(underlying) && start == old(start)
      ensures shed.Some? <==> decr <= old(Len())
      ensures shed.Some? ==>
                && end == old(end) - decr
                && Elems() == old(Elems())[..old(Len()) - decr] && shed.value == old(Elems())[old(Len()) - decr..]
      ensures shed.None? ==> end == old(end)
    {
      var cut := CheckedSub(end, decr);
      if cut.None? {
        return None;
      }
      if cut.value >= start {
        var s := underlying.value.items[cut.value..end];
        assert underlying.value.items[start..cut.value] + s == underlying.value.items[start..end];
        end := cut.value;
        shed := Some(s);
      } else {
        shed := None;
      }
    }

    /** `RcSlice::saturating_retract`: moves `end` back by `decr`, or to
        `start` if fewer elements are visible, and returns what fell off. */
    method SaturatingRetract(decr: Usize) returns (shed: seq<T>)
      requires Valid()
      modifies this
      ensures Valid() && underlying == old(underlying) && start == old(start)
      ensures end == old(end) - Min(decr, old(Len()))
      ensures Elems() == old(Elems())[..old(Len()) - Min(decr, old(Len()))]
      ensures shed == old(Elems())[old(Len()) - Min(decr, old(Len()))..]
    {
      var cut := Max(SaturatingSub(end, decr), start);
      var s := underlying.value.items[cut..end];
      assert underlying.value.items[start..cut] + s == underlying.value.items[start..end];
      end := cut;
      shed := s;
    }

    /** `RcSlice::change_range`: re-resolves the bounds against the whole
        slice, whatever the view showed before; an inverted pair collapses
        onto the resolved end. Returns the new range. */
    method ChangeRange(newRange: RangeBounds) returns (r: Range)
      requires Valid()
      modifies this
      ensures Valid() && underlying == old(underlying)
      ensures r == Range(start, end)
      ensures r == ResolveForChange(underlying.value.Len(), newRange)
    {
      var len := underlying.value.Len();
      var s := ResolveStart(newRange.lower, len);
      var e := ResolveEnd(newRange.upper, len);
      s := Min(s, e);
      start := s;
      end := e;
      r := Range(s, e);
    }

    /** `RcSlice::get_mut`: a mutable window over exactly `start..end`, handed
        out only while this view holds the one `Rc` to the slice; any other
        holder, even a view of a disjoint range, makes it `None`. */
    method GetMut() returns (window: Option<MutSlice<T>>)
      requires Valid()
      ensures window.Some? <==> underlying.IsUnique()
      ensures window.Some? ==>
                && fresh(window.value) && window.value.Valid()
                && window.value.target == underlying
                && window.value.lo == start && window.value.hi == end
                && window.value.Contents() == Elems()
    {
      if underlying.IsUnique() {
        var w := new MutSlice(underlying, start, end);
        window := Some(w);
      } else {
        window := None;
      }
    }

    /** `RcSlice::ptr_eq`: same allocation and same range. */
    function PtrEq(other: RcSlice<T>): (b: bool)
      reads this, underlying, other, other.underlying
      requires Valid() && other.Valid()
      ensures b <==> Inner() == other.Inner() && BoundsRange() == other.BoundsRange()
      ensures b ==> Elems() == other.Elems()
    {
      underlying == other.underlying && start == other.start && end == other.end
    }
  }

  /** What `Hash for RcSlice` feeds the hasher: the visible elements. */
  function HashInput<T>(a: RcSlice<T>): seq<T>
    reads a, a.underlying
    requires a.Valid()
  {
    a.Elems()
  }

  /** `PartialEq for RcSlice`: compares the visible elements, so views over
      different allocations can be equal; it agrees with `Hash` and is
      implied by `ptr_eq`. */
  function Equals<T(==)>(a: RcSlice<T>, b: RcSlice<T>): (eq: bool)
    reads a, a.underlying, b, b.underlying
    requires a.Valid() && b.Valid()
    ensures eq ==> HashInput(a) == HashInput(b)
    ensures a.PtrEq(b) ==> eq
  {
    a.Elems() == b.Elems()
  }
}
