/**
 `t1_array<T>`: a growable array of (data, size, reserved_size). Adding
 elements either bumps `size` inside the reserved block or reallocates the
 block to the next power of two at or above `reserved_size + n`. The
 allocator is an oracle: `reallocSucceeds` says whether `realloc` returned a
 block or null.
 */
module GrowArray {
  import opened Options
  import opened Bits
  import opened Word
  import opened Rounding

  /**
   The array's fields: `data` is null (None) or a block of `reserved_size`
   element slots, each uninitialised (None) or holding a value.
   */
  datatype Array<T> = Array(data: Option<seq<Option<T>>>, size: u64, reserved: u64)

  /** The outcome of `t1_add_elements`: the array afterwards and the returned pointer, as a slot index. */
  datatype Added<T> = Added(arr: Array<T>, slot: Option<nat>)

  /** x is zero or a power of two. */
  predicate IsPow2OrZero(x: nat)
  {
    x == 0 || Pow2(CeilLog2(x)) == x
  }

  /**
   The array invariant: a null block goes with an empty, unreserved array;
   otherwise the block has `reserved_size` slots, `size` never exceeds it,
   and the reserved size is a power of two.
   */
  predicate Valid<T>(a: Array<T>)
  {
    && (a.data.None? ==> a.reserved == 0)
    && (a.data.Some? ==> |a.data.value| == a.reserved)
    && a.size <= a.reserved
    && IsPow2OrZero(a.reserved)
  }

  /** The slots in use: the first `size` slots of the block. */
  function Elements<T>(a: Array<T>): (es: seq<Option<T>>)
    requires Valid(a)
    ensures |es| == a.size
  {
    if a.data.None? then [] else a.data.value[..a.size]
  }

  /** `init(arr)`: null data, nothing used, nothing reserved. */
  function Init<T>(): (a: Array<T>)
    ensures a.data.None? && a.size == 0 && a.reserved == 0
    ensures Valid(a) && Elements(a) == []
  {
    Array(None, 0, 0)
  }

  /** `free(arr)`: release the block and reset every field. */
  function Free<T>(a: Array<T>): (r: Array<T>)
    ensures r == Init()
  {
    Array(None, 0, 0)
  }

  /**
   `realloc(data, count)` when it succeeds: a block of `count` slots whose
   prefix holds the old block's slots and whose tail is uninitialised.
   */
  function Resize<T>(data: Option<seq<Option<T>>>, count: nat): (block: seq<Option<T>>)
    ensures |block| == count
    ensures data.Some? ==> forall i :: 0 <= i < count && i < |data.value| ==> block[i] == data.value[i]
    ensures forall i :: 0 <= i < count && (data.None? || i >= |data.value|) ==> block[i] == None
  {
    seq(count, i requires 0 <= i < count => if data.Some? && i < |data.value| then data.value[i] else None)
  }

  /**
   `t1_add_elements(arr, n)`. No elements: null. If `size + n` (wrapping)
   is strictly below `reserved_size`, bump `size` in place. Otherwise ask for
   `t1_ceil_exp2(reserved_size + n)` slots; a failed realloc returns null and
   leaves the array alone. On success the result points at the old end.
   */
  function AddElements<T>(a: Array<T>, n: u64, reallocSucceeds: bool): (r: Added<T>)
    ensures n == 0 ==> r == Added(a, None)
    ensures r.slot.None? ==> r.arr == a
    ensures r.slot.Some? ==> r.slot.value == a.size && r.arr.size == Add(a.size, n)
    ensures r.arr.data.Some? && a.data.Some? ==>
      forall i :: 0 <= i < a.size && i < |a.data.value| && i < |r.arr.data.value| ==> r.arr.data.value[i] == a.data.value[i]
  {
    if n == 0 then Added(a, None)
    else
      var nsize := Add(a.size, n);
      if nsize < a.reserved then
        Added(a.(size := nsize), Some(a.size))
      else
        var newReserved := CeilExp2(Add(a.reserved, n));
        if !reallocSucceeds then Added(a, None)
        else Added(Array(Some(Resize(a.data, newReserved)), nsize, newReserved), Some(a.size))
  }

  /** `t1_add_at_end(arr)`: add one element. */
  function AddAtEnd<T>(a: Array<T>, reallocSucceeds: bool): (r: Added<T>)
    ensures r.slot.None? ==> r.arr == a
    ensures r.slot.Some? ==> r.slot.value == a.size && r.arr.size == Add(a.size, 1)
  {
    AddElements(a, 1, reallocSucceeds)
  }

  // ---------------------------------------------------------------------
  // Properties of t1_add_elements

  /**
   Without wrap-around in `reserved_size + n`, adding elements keeps the
   invariant, keeps every element already in use, and adds exactly n slots
   when it succeeds.
   */
  lemma AddElementsKeepsValid<T>(a: Array<T>, n: u64, reallocSucceeds: bool)
    requires Valid(a) && a.reserved + n <= HALF_WORD
    ensures Valid(AddElements(a, n, reallocSucceeds).arr)
    ensures Elements(AddElements(a, n, reallocSucceeds).arr)[..a.size] == Elements(a)
    ensures AddElements(a, n, reallocSucceeds).slot.Some? ==>
      |Elements(AddElements(a, n, reallocSucceeds).arr)| == a.size + n
  {
    if n > 0 && a.size + n >= a.reserved && reallocSucceeds {
      ReallocKeepsValid(a, n);
    }
  }

  /** The reallocating path keeps the invariant and the elements in use, and adds n slots. */
  lemma ReallocKeepsValid<T>(a: Array<T>, n: u64)
    requires Valid(a) && n > 0 && a.reserved + n <= HALF_WORD && a.size + n >= a.reserved
    ensures AddElements(a, n, true).slot.Some?
    ensures Valid(AddElements(a, n, true).arr)
    ensures Elements(AddElements(a, n, true).arr)[..a.size] == Elements(a)
    ensures |Elements(AddElements(a, n, true).arr)| == a.size + n
  {
    var x := a.reserved + n;
    GrowthIsNextPow2(a, n);
    CeilLog2OfPow2(CeilLog2(x));
    var r := AddElements(a, n, true);
    assert r.arr.data.value[..a.size] == Elements(a);
  }

  /** 2^k is its own next power of two. */
  lemma CeilLog2OfPow2(k: nat)
    ensures CeilLog2(Pow2(k)) == k
  {
    if k == 0 {
    } else {
      Pow2StrictMono(k - 1, k);
      CeilLog2Unique(Pow2(k), k);
    }
  }

  /**
   When the block is reallocated, its new reserved size is the least power of
   two at or above `reserved_size + n`, which leaves room for every element.
   */
  lemma GrowthIsNextPow2<T>(a: Array<T>, n: u64)
    requires Valid(a) && n > 0 && a.reserved + n <= HALF_WORD && a.size + n >= a.reserved
    ensures AddElements(a, n, true).arr.reserved == Pow2(CeilLog2(a.reserved + n))
    ensures AddElements(a, n, true).arr.reserved >= a.reserved + n
  {
    var x := a.reserved + n;
    assert Add(a.reserved, n) == x;
    assert AddElements(a, n, true).arr.reserved == CeilExp2(x);
    CeilExp2IsNextPow2(x);
    CeilLog2Bounds(x);
  }

  /** With room strictly to spare, the block is not touched and size grows by n. */
  lemma FastPathKeepsBlock<T>(a: Array<T>, n: u64, reallocSucceeds: bool)
    requires n > 0 && a.size + n < a.reserved
    ensures AddElements(a, n, reallocSucceeds) == Added(a.(size := a.size + n), Some(a.size))
  {
  }

  /**
   The room test is strict: an array filled exactly to its reserved size
   still reallocates, so a failing allocator makes the call fail although the
   block had room.
   */
  lemma ExactFitStillReallocates<T>(a: Array<T>, n: u64)
    requires n > 0 && a.size + n == a.reserved
    ensures AddElements(a, n, false) == Added(a, None)
  {
  }

  // ---------------------------------------------------------------------
  // t1_add_at_end(arr, val)

  /** The outcome of storing through the pointer `t1_add_at_end` returned. */
  datatype Pushed<T> =
    | Pushed(arr: Array<T>, slot: nat)
    | NullWrite   // the store went through a null pointer
    | WildWrite   // the store went past the end of the block

  /** Store v in slot i of the block. */
  function StoreSlot<T>(a: Array<T>, i: nat, v: T): (r: Array<T>)
    requires a.data.Some? && i < |a.data.value|
    ensures r.data.Some? && r.data.value == a.data.value[i := Some(v)]
    ensures r.size == a.size && r.reserved == a.reserved
  {
    a.(data := Some(a.data.value[i := Some(v)]))
  }

  /** The returned slot lies inside the block, so storing to it is defined. */
  predicate InBlock<T>(r: Added<T>)
  {
    r.slot.Some? && r.arr.data.Some? && r.slot.value < |r.arr.data.value|
  }

  /**
   `t1_add_at_end(arr, val)` as written: it stores val through the returned
   pointer without checking it, so a failed reallocation writes through null.
   */
  function AddAtEndValueAsWritten<T>(a: Array<T>, v: T, reallocSucceeds: bool): (r: Pushed<T>)
    ensures r.NullWrite? <==> AddAtEnd(a, reallocSucceeds).slot.None?
    ensures r.Pushed? ==> r.slot == a.size && r.arr.size == Add(a.size, 1)
  {
    var added := AddAtEnd(a, reallocSucceeds);
    if added.slot.None? then NullWrite
    else if !InBlock(added) then WildWrite
    else Pushed(StoreSlot(added.arr, added.slot.value, v), added.slot.value)
  }

  /** An empty array and a failing allocator reach the null store. */
  lemma AddAtEndValueWritesNull<T>(v: T)
    ensures AddAtEndValueAsWritten(Init(), v, false) == NullWrite
  {
  }

  /**
   `t1_add_at_end(arr, val)` with the null check it evidently intends: a
   failed reallocation returns null and stores nothing; otherwise val
   becomes the new last element.
   */
  function AddAtEndValue<T>(a: Array<T>, v: T, reallocSucceeds: bool): (r: Added<T>)
    ensures r.slot.None? ==> r.arr == a
    ensures Valid(a) && a.reserved < HALF_WORD ==> Valid(r.arr)
    ensures Valid(a) && a.reserved < HALF_WORD && r.slot.Some? ==> Elements(r.arr) == Elements(a) + [Some(v)]
  {
    var added := AddAtEnd(a, reallocSucceeds);
    if !InBlock(added) then Added(a, None)
    else
      var i := added.slot.value;
      var stored := StoreSlot(added.arr, i, v);
      AddAtEndValueAppends(a, v, reallocSucceeds);
      Added(stored, Some(i))
  }

  /** The store lands on the slot just past the old elements. */
  lemma AddAtEndValueAppends<T>(a: Array<T>, v: T, reallocSucceeds: bool)
    requires InBlock(AddAtEnd(a, reallocSucceeds))
    ensures Valid(a) && a.reserved < HALF_WORD ==>
      var added := AddAtEnd(a, reallocSucceeds);
      var stored := StoreSlot(added.arr, added.slot.value, v);
      Valid(stored) && Elements(stored) == Elements(a) + [Some(v)]
  {
    if Valid(a) && a.reserved < HALF_WORD {
      AddElementsKeepsValid(a, 1, reallocSucceeds);
      var added := AddAtEnd(a, reallocSucceeds);
      var stored := StoreSlot(added.arr, added.slot.value, v);
      assert Elements(stored) == Elements(added.arr)[a.size := Some(v)];
    }
  }

  /** Under the invariant, a successful add always returns a slot inside the block. */
  lemma AddAtEndInBlock<T>(a: Array<T>, reallocSucceeds: bool)
    requires Valid(a) && a.reserved < HALF_WORD
    ensures AddAtEnd(a, reallocSucceeds).slot.Some? ==> InBlock(AddAtEnd(a, reallocSucceeds))
  {
    AddElementsKeepsValid(a, 1, reallocSucceeds);
  }
}
