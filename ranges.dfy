/** Index arithmetic shared by both view types: `usize` with its checked and
    saturating operations, the three kinds of range bound, and the rule that
    turns any pair of bounds into a concrete in-bounds `start..end`. */
module Ranges {
  import opened Wrappers

  /** `usize::MAX` on a 64-bit target. */
  const USIZE_MAX: nat := 0xFFFF_FFFF_FFFF_FFFF

  type Usize = x: nat | x <= USIZE_MAX

  function Min(a: nat, b: nat): nat { if a <= b then a else b }
  function Max(a: nat, b: nat): nat { if a <= b then b else a }

  /** `usize::saturating_add` */
  function SaturatingAdd(a: Usize, b: Usize): (r: Usize)
    ensures a + b <= USIZE_MAX ==> r == a + b
    ensures a + b > USIZE_MAX ==> r == USIZE_MAX
  {
    if a + b <= USIZE_MAX then a + b else USIZE_MAX
  }

  /** `usize::checked_add` */
  function CheckedAdd(a: Usize, b: Usize): (r: Option<Usize>)
    ensures r.Some? <==> a + b <= USIZE_MAX
    ensures r.Some? ==> r.value == a + b
  {
    if a + b <= USIZE_MAX then Some(a + b) else None
  }

  /** `usize::saturating_sub` */
  function SaturatingSub(a: Usize, b: Usize): (r: Usize)
    ensures b <= a ==> r == a - b
    ensures a < b ==> r == 0
  {
    if b <= a then a - b else 0
  }

  /** `usize::checked_sub` */
  function CheckedSub(a: Usize, b: Usize): (r: Option<Usize>)
    ensures r.Some? <==> b <= a
    ensures r.Some? ==> r.value == a - b
  {
    if b <= a then Some(a - b) else None
  }

  /** `core::ops::Bound<usize>` */
  datatype Bound = Included(at: Usize) | Excluded(at: Usize) | Unbounded

  /** Does a start bound let index `i` in? */
  predicate StartAdmits(b: Bound, i: nat) {
    match b
    case Included(x) => x <= i
    case Excluded(x) => x < i
    case Unbounded => true
  }

  /** Does an end bound let index `i` in? */
  predicate EndAdmits(b: Bound, i: nat) {
    match b
    case Included(x) => i <= x
    case Excluded(x) => i < x
    case Unbounded => true
  }

  /** Any range expression (`a..b`, `a..=b`, `a..`, `..b`, `..`, or a raw
      bound pair), as seen through `RangeBounds<usize>`. */
  datatype RangeBounds = RangeBounds(lower: Bound, upper: Bound) {
    /** `RangeBounds::contains` */
    predicate Contains(i: nat) {
      StartAdmits(lower, i) && EndAdmits(upper, i)
    }
  }

  /** The range expression `s..e`. */
  function Exclusive(s: Usize, e: Usize): RangeBounds {
    RangeBounds(Included(s), Excluded(e))
  }

  /** The range expression `..`. */
  const Full: RangeBounds := RangeBounds(Unbounded, Unbounded)

  /** `core::ops::Range<usize>`: the half-open `start..end`. */
  datatype Range = Range(start: nat, end: nat) {
    predicate Contains(i: nat) { start <= i < end }

    /** `start <= end <= len`: the range names elements of a container of length `len`. */
    predicate Within(len: nat) { start <= end <= len }
  }

  /** The resolved start index of `new` and `change_range` against a container
      of length `len`: the first index the bound admits, or `len` when it admits
      none below `len`. An excluded bound is moved up by a saturating `+ 1`. */
  function ResolveStart(b: Bound, len: Usize): (s: Usize)
    ensures s <= len
    ensures forall i: nat :: i < len ==> (s <= i <==> StartAdmits(b, i))
  {
    match b
    case Excluded(x) => Min(SaturatingAdd(x, 1), len)
    case Included(x) => Min(x, len)
    case Unbounded => 0
  }

  /** The resolved end index: one past the last index below `len` that the
      bound admits. An included bound is moved up by a saturating `+ 1`. */
  function ResolveEnd(b: Bound, len: Usize): (e: Usize)
    ensures e <= len
    ensures forall i: nat :: i < len ==> (i < e <==> EndAdmits(b, i))
  {
    match b
    case Excluded(x) => Min(x, len)
    case Included(x) => Min(SaturatingAdd(x, 1), len)
    case Unbounded => len
  }

  /** The range `new` gives a view: it holds exactly the in-bounds indices the
      bounds contain, and an inverted pair collapses onto the resolved start
      (`end = max(start, end)`). */
  function ResolveForNew(len: Usize, bounds: RangeBounds): (r: Range)
    ensures r.Within(len)
    ensures r.start == ResolveStart(bounds.lower, len)
    ensures forall i: nat :: r.Contains(i) <==> i < len && bounds.Contains(i)
  {
    var start := ResolveStart(bounds.lower, len);
    var end := ResolveEnd(bounds.upper, len);
    Range(start, Max(start, end))
  }

  /** The range `change_range` gives a view: the same indices as for `new`,
      but an inverted pair collapses onto the resolved end
      (`start = min(start, end)`). */
  function ResolveForChange(len: Usize, bounds: RangeBounds): (r: Range)
    ensures r.Within(len)
    ensures r.end == ResolveEnd(bounds.upper, len)
    ensures forall i: nat :: r.Contains(i) <==> i < len && bounds.Contains(i)
  {
    var start := ResolveStart(bounds.lower, len);
    var end := ResolveEnd(bounds.upper, len);
    Range(Min(start, end), end)
  }

  /** `..` resolves to the whole container, for both rules. */
  lemma FullRangeResolvesToAll(len: Usize)
    ensures ResolveForNew(len, Full) == Range(0, len)
    ensures ResolveForChange(len, Full) == Range(0, len)
  {
  }

  /** An in-bounds `s..e` with `s <= e` is kept as it is by both rules. */
  lemma ExclusiveRangeIsKept(len: Usize, s: Usize, e: Usize)
    requires s <= e <= len
    ensures ResolveForNew(len, Exclusive(s, e)) == Range(s, e)
    ensures ResolveForChange(len, Exclusive(s, e)) == Range(s, e)
  {
  }

  /** The two rules select the same indices. They differ only on bounds that
      select nothing, where `new` sits at the resolved start and
      `change_range` at the resolved end. */
  lemma NewAndChangeDifferOnlyWhenEmpty(len: Usize, bounds: RangeBounds)
    ensures forall i: nat :: ResolveForNew(len, bounds).Contains(i) <==> ResolveForChange(len, bounds).Contains(i)
    ensures ResolveForNew(len, bounds) != ResolveForChange(len, bounds) ==>
              && ResolveForNew(len, bounds).start == ResolveForNew(len, bounds).end
              && ResolveForChange(len, bounds).start == ResolveForChange(len, bounds).end
              && ResolveForChange(len, bounds).end < ResolveForNew(len, bounds).start
  {
  }

  /** A start at or past the container's end (`10..` on five elements) gives
      the empty range `len..len`. */
  lemma StartPastEndIsEmptyAtLen(len: Usize, x: Usize)
    requires len <= x
    ensures ResolveForNew(len, RangeBounds(Included(x), Unbounded)) == Range(len, len)
    ensures ResolveForNew(len, RangeBounds(Excluded(x), Unbounded)) == Range(len, len)
  {
  }
}
