/** The shared handle: one reference-counted allocation (`Arc<C>` or `Rc<C>`)
    owning a container, and the mutable window (`&mut [T]`) that a unique
    holder may borrow into it. Only the strong count is modelled; atomic and
    non-atomic counting behave alike here. */
module Handles {
  import opened Containers

  /** One allocation. `strong` counts the live handles to it: every view
      made by `new` or `clone` holds one, and so does every `Arc`/`Rc`
      variable of the caller. */
  class Handle<T> {
    var value: Container<T>
    var strong: nat

    ghost predicate Valid()
      reads this
    {
      value.Valid() && strong >= 1
    }

    /** `Arc::new(value)` / `Rc::new(value)`: a fresh allocation with one holder. */
    constructor New(value: Container<T>)
      requires value.Valid()
      ensures Valid()
      ensures this.value == value && strong == 1
    {
      this.value := value;
      strong := 1;
    }

    /** `Arc::clone`: one more holder of the same allocation. */
    method Clone()
      requires Valid()
      modifies this
      ensures Valid()
      ensures value == old(value) && strong == old(strong) + 1
    {
      strong := strong + 1;
    }

    /** Dropping one holder (`core::mem::drop(buffer)`). */
    method Drop()
      requires strong >= 1
      modifies this
      ensures value == old(value) && strong == old(strong) - 1
    {
      strong := strong - 1;
    }

    /** The uniqueness test behind `Arc::get_mut` and `Arc::try_unwrap`. */
    predicate IsUnique()
      reads this
      ensures IsUnique() ==> strong > 0
      ensures IsUnique() <==> strong == 1
    {
      strong == 1
    }
  }

  /** A mutable borrow of positions `lo..hi` of one allocation's elements. */
  class MutSlice<T> {
    const target: Handle<T>
    const lo: nat
    const hi: nat

    ghost predicate Valid()
      reads this, target
    {
      target.Valid() && lo <= hi <= |target.value.items|
    }

    constructor (target: Handle<T>, lo: nat, hi: nat)
      requires target.Valid() && lo <= hi <= |target.value.items|
      ensures Valid()
      ensures this.target == target && this.lo == lo && this.hi == hi
    {
      this.target := target;
      this.lo := lo;
      this.hi := hi;
    }

    /** The elements the borrow can see. */
    function Contents(): (s: seq<T>)
      reads this, target
      requires Valid()
      ensures |s| == hi - lo
    {
      target.value.items[lo..hi]
    }

    /** `s[i] = x` through the borrow: the write lands at position `lo + i`
        of the allocation, and every other position, the kind of container
        and the holders are untouched. The borrow is exclusive: while it
        lives no other holder can be made, so the allocation is still
        uniquely held when the write happens. */
    method Set(i: nat, x: T)
      requires Valid()
      requires target.IsUnique()
      requires i < hi - lo
      modifies target
      ensures Valid()
      ensures target.value == old(target.value).(items := old(target.value.items)[lo + i := x])
      ensures Contents() == old(Contents())[i := x]
      ensures target.strong == old(target.strong)
    {
      target.value := target.value.(items := target.value.items[lo + i := x]);
    }
  }
}
