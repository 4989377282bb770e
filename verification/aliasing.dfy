/**
 The memory behind a ring buffer: one backing store of `size` bytes seen
 through several consecutive views, so that offset `off` of the whole
 region is byte `off mod size` of the store. Writing a run of bytes that
 spills past the end of one view lands at the start of the store, and
 reading the run back through the same offsets returns it unchanged.
 */
module Aliasing {
  import opened Arith

  /** The view an offset of the region falls in. */
  function ViewIndex(off: nat, size: nat): (r: nat)
    requires size > 0
  {
    off / size
  }

  /** The byte of the backing store an offset of the region denotes. */
  function StoreIndex(off: nat, size: nat): (k: nat)
    requires size > 0
    ensures k < size
  {
    off % size
  }

  /** Offset k of view i is byte k of the store. */
  lemma SplitOffset(i: nat, k: nat, size: nat)
    requires k < size
    ensures ViewIndex(i * size + k, size) == i
    ensures StoreIndex(i * size + k, size) == k
  {
    DivUnique(i * size + k, size, i, k);
  }

  /** An offset inside `count` views falls in one of them. */
  lemma ViewIndexBelow(off: nat, size: nat, count: nat)
    requires size > 0 && off < count * size
    ensures ViewIndex(off, size) < count
  {
    DivUpperBound(off, size, count);
  }

  /** A view's last offset is followed by the next view's first. */
  lemma StoreIndexSucc(o: nat, size: nat)
    requires size > 0
    ensures StoreIndex(o + 1, size) == if StoreIndex(o, size) + 1 == size then 0 else StoreIndex(o, size) + 1
  {
    var q := o / size;
    var s := o % size;
    assert o == q * size + s;
    if s + 1 == size {
      DivUnique(o + 1, size, q + 1, 0);
    } else {
      DivUnique(o + 1, size, q, s + 1);
    }
  }

  /** Moving j < size bytes forward wraps around the store at most once. */
  lemma StoreIndexAdd(o: nat, j: nat, size: nat)
    requires j < size
    ensures StoreIndex(o + j, size) ==
      if StoreIndex(o, size) + j < size then StoreIndex(o, size) + j else StoreIndex(o, size) + j - size
  {
    var q := o / size;
    var s := o % size;
    assert o == q * size + s;
    if s + j < size {
      DivUnique(o + j, size, q, s + j);
    } else {
      DivUnique(o + j, size, q + 1, s + j - size);
    }
  }

  /** How far byte k of the store lies after the store byte of offset o. */
  function Distance(o: nat, k: nat, size: nat): (d: nat)
    requires k < size
    ensures d < size
  {
    var s := StoreIndex(o, size);
    if s <= k then k - s else k + size - s
  }

  /** Offset o + j reaches store byte k exactly when k is j bytes after o's. */
  lemma DistanceOfOffset(o: nat, j: nat, size: nat)
    requires j < size
    ensures Distance(o, StoreIndex(o + j, size), size) == j
  {
    StoreIndexAdd(o, j, size);
  }

  /** Store one byte through offset `off`. */
  function WriteAt<T>(store: seq<T>, off: nat, v: T): (s: seq<T>)
    requires |store| > 0
    ensures |s| == |store|
  {
    store[StoreIndex(off, |store|) := v]
  }

  /** Store `bytes` through offsets o, o+1, ..., in order. */
  function WriteRun<T>(store: seq<T>, o: nat, bytes: seq<T>): (s: seq<T>)
    requires |store| > 0
    ensures |s| == |store|
    decreases |bytes|
  {
    if bytes == [] then store
    else WriteRun(WriteAt(store, o, bytes[0]), o + 1, bytes[1..])
  }

  /** Read n bytes through offsets o, o+1, .... */
  function ReadRun<T>(store: seq<T>, o: nat, n: nat): (r: seq<T>)
    requires |store| > 0
    ensures |r| == n
  {
    seq(n, j requires 0 <= j < n => store[StoreIndex(o + j, |store|)])
  }

  /**
   After writing a run of at most `size` bytes, store byte k holds the byte
   written Distance(o, k) positions into the run, or is unchanged when the
   run did not reach it.
   */
  lemma {:induction false} WriteRunContents<T>(store: seq<T>, o: nat, bytes: seq<T>, k: nat)
    requires 0 < |store| && |bytes| <= |store| && k < |store|
    ensures WriteRun(store, o, bytes)[k] ==
      if Distance(o, k, |store|) < |bytes| then bytes[Distance(o, k, |store|)] else store[k]
    decreases |bytes|
  {
    var size := |store|;
    if bytes != [] {
      var store1 := WriteAt(store, o, bytes[0]);
      WriteRunContents(store1, o + 1, bytes[1..], k);
      StoreIndexSucc(o, size);
    }
  }

  /**
   Wrap-around transparency: a run of at most `size` bytes written at any
   offset reads back unchanged through the same offsets, however far it
   spills into the next view.
   */
  lemma WriteRunReadBack<T>(store: seq<T>, o: nat, bytes: seq<T>)
    requires 0 < |store| && |bytes| <= |store|
    ensures ReadRun(WriteRun(store, o, bytes), o, |bytes|) == bytes
  {
    var size := |store|;
    var after := WriteRun(store, o, bytes);
    forall j | 0 <= j < |bytes|
      ensures ReadRun(after, o, |bytes|)[j] == bytes[j]
    {
      var k := StoreIndex(o + j, size);
      WriteRunContents(store, o, bytes, k);
      DistanceOfOffset(o, j, size);
    }
  }

  /** Store bytes the run did not reach keep their old contents. */
  lemma WriteRunElsewhere<T>(store: seq<T>, o: nat, bytes: seq<T>, k: nat)
    requires 0 < |store| && |bytes| <= |store| && k < |store|
    requires Distance(o, k, |store|) >= |bytes|
    ensures WriteRun(store, o, bytes)[k] == store[k]
  {
    WriteRunContents(store, o, bytes, k);
  }

  /** An offset one whole store further on denotes the same store byte. */
  lemma StoreIndexMinus(x: nat, size: nat)
    requires 0 < size <= x
    ensures StoreIndex(x - size, size) == StoreIndex(x, size)
  {
    var q := (x - size) / size;
    var s := (x - size) % size;
    assert x - size == q * size + s;
    DivUnique(x, size, q + 1, s);
  }

  /** Step an offset back by whole stores while it lies beyond the first one: the result is in 0..size. */
  function Rewind(x: nat, size: nat): (r: nat)
    requires size > 0
    ensures r <= size
    ensures x <= size ==> r == x
    ensures x > 0 ==> r > 0
    decreases x
  {
    if x > size then Rewind(x - size, size) else x
  }

  /** Rewinding keeps the store byte an offset denotes. */
  lemma {:induction false} RewindSameByte(x: nat, size: nat)
    requires size > 0
    ensures StoreIndex(Rewind(x, size), size) == StoreIndex(x, size)
    decreases x
  {
    if x > size {
      StoreIndexMinus(x, size);
      RewindSameByte(x - size, size);
    }
  }

  /** Beyond the first store, rewinding lands in 1..size: (x - 1) mod size + 1. */
  lemma {:induction false} RewindClosedForm(x: nat, size: nat)
    requires 0 < size < x
    ensures Rewind(x, size) == (x - 1) % size + 1
    decreases x
  {
    if x - size > size {
      RewindClosedForm(x - size, size);
      StoreIndexMinus(x - 1, size);
    } else {
      DivUnique(x - 1, size, 1, x - 1 - size);
    }
  }

  /** How far store byte StoreIndex(o + j) lies after o + d, for j < d < size: the run wraps almost all the way round. */
  lemma DistanceBehind(o: nat, j: nat, d: nat, size: nat)
    requires j < d < size
    ensures Distance(o + d, StoreIndex(o + j, size), size) == size - (d - j)
  {
    StoreIndexAdd(o, j, size);
    StoreIndexAdd(o, d, size);
  }

  /** One of d earlier bytes keeps its value when the next run is written right after them. */
  lemma ByteSurvivesNextRun<T>(store: seq<T>, o: nat, d: nat, o2: nat, bytes: seq<T>, j: nat)
    requires j < d && 0 < |bytes| && d + |bytes| <= |store|
    requires StoreIndex(o2, |store|) == StoreIndex(o + d, |store|)
    ensures WriteRun(store, o2, bytes)[StoreIndex(o + j, |store|)] == store[StoreIndex(o + j, |store|)]
  {
    var size := |store|;
    var k := StoreIndex(o + j, size);
    DistanceBehind(o, j, d, size);
    assert Distance(o2, k, size) == Distance(o + d, k, size);
    WriteRunElsewhere(store, o2, bytes, k);
  }

  /**
   A run written right after d earlier bytes, short enough that the two runs
   together fit in the store, leaves those d bytes as they were.
   */
  lemma RunSurvivesNextRun<T>(store: seq<T>, o: nat, d: nat, o2: nat, bytes: seq<T>)
    requires 0 < d && d + |bytes| <= |store|
    requires StoreIndex(o2, |store|) == StoreIndex(o + d, |store|)
    ensures ReadRun(WriteRun(store, o2, bytes), o, d) == ReadRun(store, o, d)
  {
    if |bytes| > 0 {
      forall j | 0 <= j < d
        ensures ReadRun(WriteRun(store, o2, bytes), o, d)[j] == ReadRun(store, o, d)[j]
      {
        ByteSurvivesNextRun(store, o, d, o2, bytes, j);
      }
    }
  }

  /** A byte stored just after a run shorter than the store does not disturb the run. */
  lemma RunThenNextByte<T>(store: seq<T>, o: nat, bytes: seq<T>, v: T)
    requires 0 < |bytes| < |store|
    ensures ReadRun(WriteAt(WriteRun(store, o, bytes), o + |bytes|, v), o, |bytes|) == bytes
  {
    var size := |store|;
    var s1 := WriteRun(store, o, bytes);
    var s2 := WriteAt(s1, o + |bytes|, v);
    WriteRunReadBack(store, o, bytes);
    forall j | 0 <= j < |bytes|
      ensures ReadRun(s2, o, |bytes|)[j] == bytes[j]
    {
      assert ReadRun(s1, o, |bytes|)[j] == bytes[j];
      DistanceOfOffset(o, j, size);
      DistanceOfOffset(o, |bytes|, size);
    }
  }

  /** Storing a run's last byte again, through the same offset, changes nothing. */
  lemma RewriteLastOfRun<T>(store: seq<T>, o: nat, bytes: seq<T>)
    requires 0 < |bytes| <= |store|
    ensures WriteAt(WriteRun(store, o, bytes), o + |bytes| - 1, bytes[|bytes| - 1]) == WriteRun(store, o, bytes)
  {
    var s1 := WriteRun(store, o, bytes);
    var last := |bytes| - 1;
    WriteRunReadBack(store, o, bytes);
    assert s1[StoreIndex(o + last, |store|)] == ReadRun(s1, o, |bytes|)[last];
  }
}
