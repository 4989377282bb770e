/**
 `t1_ring_buffer` on Linux: one memfd of `size` bytes mapped `mapping_count`
 times back to back, so that the whole region reads and writes the same
 store over and over. `init` reserves an inaccessible range, maps the memfd
 at every view's fixed address, unrolls and retries on failure; `free`
 unmaps every view.

 The operating system is an oracle (`Os`): each system call's outcome is an
 input. The address space is kept at the granularity of one view: a map from
 a chunk's start address to what occupies it.
 */
module RingBuffer {
  import opened Arith
  import opened Options
  import opened Bits
  import opened Word
  import opened Rounding
  import opened Aliasing

  /** `T1_ALLOC_RETRY_COUNT` */
  const ALLOC_RETRY_COUNT: nat := 10

  /** `t1_ring_buffer`: base address (None for null), bytes per view, number of views. */
  datatype RingBuffer = RingBuffer(data: Option<nat>, size: u64, mappingCount: u32)

  /** What occupies one view-sized chunk of the address space. */
  datatype Chunk =
    | Placeholder   // part of an inaccessible (PROT_NONE) reservation
    | View          // a shared read/write mapping of the memfd

  /** The address space: chunk start address to its occupant. */
  type Space = map<nat, Chunk>

  /**
   The outcomes of the system calls `init` makes: the page size, whether
   memfd_create and ftruncate succeed, the base of each attempt's
   reservation (None for MAP_FAILED), whether the fixed mapping of view i in
   attempt a succeeds, whether the unroll's munmap of view j in attempt a
   succeeds, and whether releasing attempt a's whole reservation succeeds
   (used only by the corrected `init`).
   */
  datatype Os = Os(
    pageSize: u64,
    memfdOk: bool,
    truncateOk: bool,
    reserve: nat -> Option<nat>,
    mapOk: (nat, nat) -> bool,
    unrollOk: (nat, nat) -> bool,
    releaseOk: nat -> bool)

  /** `ptr + i * actual_size`: the fixed address of view i (the product wraps as a uint64_t). */
  function ViewAddress(base: nat, size: u64, i: nat): (r: nat)
    requires i < WORD_LIMIT
  {
    base + Mul(i, size)
  }

  /** The start addresses of the first `count` views. */
  function ViewSet(base: nat, size: u64, count: u32): (views: set<nat>)
  {
    set i: nat | i < count :: ViewAddress(base, size, i)
  }

  /** a is the start of one of the first `count` views. */
  predicate IsViewAddress(base: nat, size: u64, count: u32, a: nat)
  {
    a in ViewSet(base, size, count)
  }

  /** Every view of the buffer is a mapping of the memfd. */
  ghost predicate AllViewsMapped(buf: RingBuffer, space: Space)
  {
    && buf.data.Some?
    && forall i: nat :: i < buf.mappingCount ==>
         var a := ViewAddress(buf.data.value, buf.size, i);
         a in space && space[a] == View
  }

  /** `after` holds nothing that `before` did not hold. */
  ghost predicate SubSpace(after: Space, before: Space)
  {
    forall a :: a in after ==> a in before && after[a] == before[a]
  }

  /** `mmap(nullptr, size * count, PROT_NONE, ...)` at base: every view's chunk becomes a placeholder. */
  function Reserve(space: Space, base: nat, size: u64, count: u32): (s: Space)
    ensures forall i: nat :: i < count ==> ViewAddress(base, size, i) in s && s[ViewAddress(base, size, i)] == Placeholder
    ensures forall a :: a in space && !IsViewAddress(base, size, count, a) ==> a in s && s[a] == space[a]
    ensures forall a :: a in s ==> a in space || IsViewAddress(base, size, count, a)
  {
    var added := map a | a in ViewSet(base, size, count) :: Placeholder;
    space + added
  }

  /** Releasing a whole reservation removes every view's chunk. */
  function Release(space: Space, base: nat, size: u64, count: u32): (s: Space)
    ensures forall a :: a in s <==> a in space && !IsViewAddress(base, size, count, a)
    ensures SubSpace(s, space)
  {
    space - ViewSet(base, size, count)
  }

  // ---------------------------------------------------------------------
  // init

  /** The inner loop's outcome: every view mapped, or the first view that failed. */
  datatype Mapping = AllMapped(space: Space) | MapFailed(space: Space, at: nat)

  /**
   Map views i, i+1, ... of attempt `attempt` at their fixed addresses,
   stopping at the first failure.
   */
  function MapViews(os: Os, attempt: nat, base: nat, size: u64, count: u32, i: nat, space: Space): (m: Mapping)
    requires i <= count
    ensures m.AllMapped? <==> forall j: nat :: i <= j < count ==> os.mapOk(attempt, j)
    ensures m.MapFailed? ==> i <= m.at < count && !os.mapOk(attempt, m.at)
    ensures m.MapFailed? ==> forall j: nat :: i <= j < m.at ==> os.mapOk(attempt, j)
    ensures m.AllMapped? && (forall j: nat :: j < i ==> ViewAddress(base, size, j) in space && space[ViewAddress(base, size, j)] == View)
      ==> forall j: nat :: j < count ==> ViewAddress(base, size, j) in m.space && m.space[ViewAddress(base, size, j)] == View
    ensures m.MapFailed? ==>
      forall a :: a in space && (forall j: nat :: i <= j < m.at ==> a != ViewAddress(base, size, j)) ==>
        a in m.space && m.space[a] == space[a]
    ensures forall a :: a in m.space ==> a in space || IsViewAddress(base, size, count, a)
    ensures forall a :: a in space && !IsViewAddress(base, size, count, a) ==> a in m.space && m.space[a] == space[a]
    decreases count - i
  {
    if i == count then AllMapped(space)
    else if !os.mapOk(attempt, i) then MapFailed(space, i)
    else MapViews(os, attempt, base, size, count, i + 1, space[ViewAddress(base, size, i) := View])
  }

  /** The unroll's outcome: whether every munmap succeeded, and the space afterwards. */
  datatype Unrolled = Unrolled(ok: bool, space: Space)

  /** Unmap views j, j+1, ..., i-1, stopping at the first failure. */
  function Unroll(os: Os, attempt: nat, base: nat, size: u64, j: nat, i: nat, space: Space): (u: Unrolled)
    requires j <= i < WORD_LIMIT
    ensures u.ok <==> forall k: nat :: j <= k < i ==> os.unrollOk(attempt, k)
    ensures u.ok ==> forall k: nat :: j <= k < i ==> ViewAddress(base, size, k) !in u.space
    ensures forall a :: a in space && (forall k: nat :: j <= k < i ==> a != ViewAddress(base, size, k)) ==> a in u.space
    ensures SubSpace(u.space, space)
    decreases i - j
  {
    if j == i then Unrolled(true, space)
    else if !os.unrollOk(attempt, j) then Unrolled(false, space)
    else Unroll(os, attempt, base, size, j + 1, i, space - {ViewAddress(base, size, j)})
  }

  /** Every view of attempt `attempt` maps. */
  ghost predicate AllMapOk(os: Os, attempt: nat, count: u32)
  {
    forall i: nat :: i < count ==> os.mapOk(attempt, i)
  }

  /** View i is the first view of attempt `attempt` that fails to map. */
  ghost predicate FirstMapFailure(os: Os, attempt: nat, count: u32, i: nat)
  {
    && i < count && !os.mapOk(attempt, i)
    && forall j: nat :: j < i ==> os.mapOk(attempt, j)
  }

  /** Attempt `attempt` fails to map a view, and unmapping one of the views mapped before it fails. */
  ghost predicate UnrollFails(os: Os, attempt: nat, count: u32)
  {
    exists i: nat, j: nat :: FirstMapFailure(os, attempt, count, i) && j < i && !os.unrollOk(attempt, j)
  }

  /** What `init` leaves behind: its return value, the buffer, the address space and how many reservations it made. */
  datatype InitResult = InitResult(ok: bool, buf: RingBuffer, space: Space, attempts: nat)

  /**
   The retry loop as written. After ALLOC_RETRY_COUNT failed attempts the
   loop ends and control falls through to the success exit, which records
   the last reservation as the buffer and returns true. An unrolled attempt
   leaves its placeholder reservation in place.
   */
  function RetryAsWritten(os: Os, buf: RingBuffer, size: u64, count: u32, space: Space, retry: nat, ptr: Option<nat>): (r: InitResult)
    requires buf.data.None? && retry <= ALLOC_RETRY_COUNT
    requires retry > 0 ==> ptr.Some? && Mul(size, count) != 0
    ensures retry <= r.attempts <= ALLOC_RETRY_COUNT
    ensures !r.ok ==> r.buf == buf
    ensures r.ok ==> r.buf.data.Some? && r.buf.size == size && r.buf.mappingCount == count
    ensures r.ok ==> size > 0 && count > 0 && Mul(size, count) != 0
    ensures r.ok ==> AllViewsMapped(r.buf, r.space) || r.attempts == ALLOC_RETRY_COUNT
    decreases ALLOC_RETRY_COUNT - retry
  {
    if retry == ALLOC_RETRY_COUNT then
      MulNonZero(size, count);
      InitResult(true, RingBuffer(ptr, size, count), space, retry)
    else
      var length := Mul(size, count);
      var reserved := if length == 0 then None else os.reserve(retry);
      match reserved
      case None => InitResult(false, buf, space, retry + 1)
      case Some(base) =>
        MulNonZero(size, count);
        var placed := Reserve(space, base, size, count);
        match MapViews(os, retry, base, size, count, 0, placed)
        case AllMapped(mapped) =>
          InitResult(true, RingBuffer(Some(base), size, count), mapped, retry + 1)
        case MapFailed(partial, i) =>
          var u := Unroll(os, retry, base, size, 0, i, partial);
          if !u.ok then InitResult(false, buf, u.space, retry + 1)
          else RetryAsWritten(os, buf, size, count, u.space, retry + 1, Some(base))
  }

  /**
   How one attempt of the retry loop as written ends: a failed or empty
   reservation returns false, an attempt that maps every view returns true
   with that reservation, and a failed munmap during the unroll returns
   false.
   */
  lemma RetryAsWrittenAttempt(os: Os, buf: RingBuffer, size: u64, count: u32, space: Space, retry: nat, ptr: Option<nat>)
    requires buf.data.None? && retry < ALLOC_RETRY_COUNT
    requires retry > 0 ==> ptr.Some? && Mul(size, count) != 0
    ensures var r := RetryAsWritten(os, buf, size, count, space, retry, ptr);
      Mul(size, count) == 0 || os.reserve(retry).None? ==> !r.ok && r.space == space
    ensures var r := RetryAsWritten(os, buf, size, count, space, retry, ptr);
      Mul(size, count) != 0 && os.reserve(retry).Some? && AllMapOk(os, retry, count) ==>
        r.ok && r.buf.data == os.reserve(retry) && AllViewsMapped(r.buf, r.space)
    ensures Mul(size, count) != 0 && os.reserve(retry).Some? && UnrollFails(os, retry, count) ==>
      !RetryAsWritten(os, buf, size, count, space, retry, ptr).ok
    ensures Mul(size, count) != 0 && os.reserve(retry).Some? && !AllMapOk(os, retry, count) && !UnrollFails(os, retry, count) ==>
      var base := os.reserve(retry).value;
      var m := MapViews(os, retry, base, size, count, 0, Reserve(space, base, size, count));
      && m.MapFailed?
      && RetryAsWritten(os, buf, size, count, space, retry, ptr)
         == RetryAsWritten(os, buf, size, count, Unroll(os, retry, base, size, 0, m.at, m.space).space, retry + 1, Some(base))
  {
    if Mul(size, count) != 0 && os.reserve(retry).Some? {
      UnrollFailureStopsAttempt(os, retry, os.reserve(retry).value, size, count, Reserve(space, os.reserve(retry).value, size, count));
      if !AllMapOk(os, retry, count) && !UnrollFails(os, retry, count) {
        AttemptContinuesAsWritten(os, buf, size, count, space, retry, ptr);
      }
    }
  }

  /** When some view fails to map and every munmap of the unroll succeeds, the loop moves on to the next attempt. */
  lemma AttemptContinuesAsWritten(os: Os, buf: RingBuffer, size: u64, count: u32, space: Space, retry: nat, ptr: Option<nat>)
    requires buf.data.None? && retry < ALLOC_RETRY_COUNT
    requires retry > 0 ==> ptr.Some? && Mul(size, count) != 0
    requires Mul(size, count) != 0 && os.reserve(retry).Some?
    requires !AllMapOk(os, retry, count) && !UnrollFails(os, retry, count)
    ensures var base := os.reserve(retry).value;
      var m := MapViews(os, retry, base, size, count, 0, Reserve(space, base, size, count));
      && m.MapFailed?
      && Unroll(os, retry, base, size, 0, m.at, m.space).ok
      && RetryAsWritten(os, buf, size, count, space, retry, ptr)
         == RetryAsWritten(os, buf, size, count, Unroll(os, retry, base, size, 0, m.at, m.space).space, retry + 1, Some(base))
  {
    var base := os.reserve(retry).value;
    var m := MapViews(os, retry, base, size, count, 0, Reserve(space, base, size, count));
    assert m.MapFailed?;
    assert FirstMapFailure(os, retry, count, m.at);
    assert forall k: nat :: k < m.at ==> os.unrollOk(retry, k);
  }

  /** When an unroll's munmap fails, the attempt maps up to its first failing view and the unroll reports the failure. */
  lemma UnrollFailureStopsAttempt(os: Os, attempt: nat, base: nat, size: u64, count: u32, space: Space)
    ensures UnrollFails(os, attempt, count) ==>
      var m := MapViews(os, attempt, base, size, count, 0, space);
      m.MapFailed? && !Unroll(os, attempt, base, size, 0, m.at, m.space).ok
  {
    if UnrollFails(os, attempt, count) {
      var i: nat, j: nat :| FirstMapFailure(os, attempt, count, i) && j < i && !os.unrollOk(attempt, j);
      var m := MapViews(os, attempt, base, size, count, 0, space);
      assert m.MapFailed? && m.at == i;
    }
  }

  /**
   `init(buf, min_size, mapping_count)` on Linux, as written: null the data
   pointer, round the size up to the page size, create and size the memfd,
   then run the retry loop. The memfd is closed on every exit and plays no
   further part.
   */
  function InitAsWritten(buf: RingBuffer, minSize: u64, count: u32, os: Os, space: Space): (r: InitResult)
    ensures r.attempts <= ALLOC_RETRY_COUNT
    ensures !r.ok ==> r.buf == buf.(data := None)
    ensures !os.memfdOk || !os.truncateOk ==> r == InitResult(false, buf.(data := None), space, 0)
    ensures r.ok ==> r.buf.data.Some? && r.buf.size == CeilMultiple2(minSize, os.pageSize) && r.buf.mappingCount == count
    ensures r.ok ==> r.buf.size > 0
    ensures r.ok ==> AllViewsMapped(r.buf, r.space) || r.attempts == ALLOC_RETRY_COUNT
    ensures var size := CeilMultiple2(minSize, os.pageSize);
      os.memfdOk && os.truncateOk && (Mul(size, count) == 0 || os.reserve(0).None?) ==> !r.ok && r.space == space
    ensures var size := CeilMultiple2(minSize, os.pageSize);
      os.memfdOk && os.truncateOk && Mul(size, count) != 0 && os.reserve(0).Some? && AllMapOk(os, 0, count) ==>
        r.ok && r.buf.data == os.reserve(0) && AllViewsMapped(r.buf, r.space)
    ensures var size := CeilMultiple2(minSize, os.pageSize);
      os.memfdOk && os.truncateOk && Mul(size, count) != 0 && os.reserve(0).Some? && UnrollFails(os, 0, count) ==> !r.ok
  {
    var nulled := buf.(data := None);
    var size := CeilMultiple2(minSize, os.pageSize);
    if !os.memfdOk then InitResult(false, nulled, space, 0)
    else if !os.truncateOk then InitResult(false, nulled, space, 0)
    else
      RetryAsWrittenAttempt(os, nulled, size, count, space, 0, None);
      RetryAsWritten(os, nulled, size, count, space, 0, None)
  }

  /** An operating system on which every fixed mapping fails, but nothing else does. */
  ghost predicate MappingAlwaysFails(os: Os)
  {
    && os.memfdOk && os.truncateOk
    && (forall a :: os.reserve(a).Some?)
    && (forall a, i :: !os.mapOk(a, i))
  }

  /**
   Once every fixed mapping fails, the retry loop runs out and reports
   success for a buffer whose first view is still an inaccessible
   placeholder.
   */
  lemma {:induction false} RetryExhaustedAsWritten(os: Os, buf: RingBuffer, size: u64, count: u32, space: Space, retry: nat, ptr: Option<nat>)
    requires MappingAlwaysFails(os) && Mul(size, count) != 0 && count > 0
    requires buf.data.None? && retry < ALLOC_RETRY_COUNT && (retry > 0 ==> ptr.Some?)
    ensures var r := RetryAsWritten(os, buf, size, count, space, retry, ptr);
      && r.ok && r.attempts == ALLOC_RETRY_COUNT
      && r.buf.data == os.reserve(ALLOC_RETRY_COUNT - 1)
      && ViewAddress(r.buf.data.value, size, 0) in r.space
      && r.space[ViewAddress(r.buf.data.value, size, 0)] == Placeholder
    decreases ALLOC_RETRY_COUNT - retry
  {
    var base := os.reserve(retry).value;
    var placed := Reserve(space, base, size, count);
    FailedAttemptAsWritten(os, buf, size, count, space, retry, ptr);
    if retry + 1 < ALLOC_RETRY_COUNT {
      RetryExhaustedAsWritten(os, buf, size, count, placed, retry + 1, Some(base));
    } else {
      assert RetryAsWritten(os, buf, size, count, placed, retry + 1, Some(base))
          == InitResult(true, RingBuffer(Some(base), size, count), placed, ALLOC_RETRY_COUNT);
      assert ViewAddress(base, size, 0) in placed && placed[ViewAddress(base, size, 0)] == Placeholder;
    }
  }

  /** When view 0 fails to map, the loop as written moves on to the next attempt with the whole reservation still in place. */
  lemma FailedAttemptAsWritten(os: Os, buf: RingBuffer, size: u64, count: u32, space: Space, retry: nat, ptr: Option<nat>)
    requires os.reserve(retry).Some? && !os.mapOk(retry, 0) && Mul(size, count) != 0 && count > 0
    requires buf.data.None? && retry < ALLOC_RETRY_COUNT && (retry > 0 ==> ptr.Some?)
    ensures var base := os.reserve(retry).value;
      RetryAsWritten(os, buf, size, count, space, retry, ptr)
        == RetryAsWritten(os, buf, size, count, Reserve(space, base, size, count), retry + 1, Some(base))
  {
    var base := os.reserve(retry).value;
    var placed := Reserve(space, base, size, count);
    assert !os.mapOk(retry, 0);
    assert MapViews(os, retry, base, size, count, 0, placed) == MapFailed(placed, 0);
    assert Unroll(os, retry, base, size, 0, 0, placed) == Unrolled(true, placed);
  }

  /** The source's `init` can report success without a usable buffer. */
  lemma InitAsWrittenSucceedsUnmapped(buf: RingBuffer, minSize: u64, count: u32, os: Os, space: Space)
    requires MappingAlwaysFails(os) && count > 0 && Mul(CeilMultiple2(minSize, os.pageSize), count) != 0
    ensures InitAsWritten(buf, minSize, count, os, space).ok
    ensures !AllViewsMapped(InitAsWritten(buf, minSize, count, os, space).buf, InitAsWritten(buf, minSize, count, os, space).space)
    ensures var r := InitAsWritten(buf, minSize, count, os, space);
      && r.buf.data == os.reserve(ALLOC_RETRY_COUNT - 1)
      && ViewAddress(r.buf.data.value, r.buf.size, 0) in r.space
      && r.space[ViewAddress(r.buf.data.value, r.buf.size, 0)] == Placeholder
  {
    var size := CeilMultiple2(minSize, os.pageSize);
    RetryExhaustedAsWritten(os, buf.(data := None), size, count, space, 0, None);
  }

  /** With non-empty views and no wrap-around, later views start at higher addresses. */
  lemma ViewAddressIncreasing(base: nat, size: u64, count: u32, j: nat, k: nat)
    requires j < k < count && 0 < size && count * size < WORD_LIMIT
    ensures ViewAddress(base, size, j) < ViewAddress(base, size, k)
  {
    MulMono(k, count, size);
    MulMono(j + 1, k, size);
    assert (j + 1) * size == j * size + size;
  }

  /**
   An unrolled attempt as written leaves its reservation behind: when view
   i is the first that fails to map, the unroll takes down views 0..i-1 but
   view i and every later view are still inaccessible placeholders when the
   next attempt starts, whether or not the unroll succeeded.
   */
  lemma UnrollLeavesPlaceholder(os: Os, base: nat, size: u64, count: u32, space: Space, attempt: nat, i: nat)
    requires FirstMapFailure(os, attempt, count, i)
    requires 0 < size && count * size < WORD_LIMIT
    ensures var m := MapViews(os, attempt, base, size, count, 0, Reserve(space, base, size, count));
      && m.MapFailed? && m.at == i
      && var u := Unroll(os, attempt, base, size, 0, i, m.space);
         forall k: nat :: i <= k < count ==>
           ViewAddress(base, size, k) in u.space && u.space[ViewAddress(base, size, k)] == Placeholder
  {
    var placed := Reserve(space, base, size, count);
    var m := MapViews(os, attempt, base, size, count, 0, placed);
    var u := Unroll(os, attempt, base, size, 0, i, m.space);
    forall k: nat | i <= k < count
      ensures ViewAddress(base, size, k) in u.space && u.space[ViewAddress(base, size, k)] == Placeholder
    {
      var a := ViewAddress(base, size, k);
      forall j: nat | j < i
        ensures a != ViewAddress(base, size, j)
      {
        ViewAddressIncreasing(base, size, count, j, k);
      }
    }
  }

  /**
   The retry loop as evidently intended: an unrolled attempt releases its
   whole reservation, and running out of attempts is a failure.
   */
  function Retry(os: Os, buf: RingBuffer, size: u64, count: u32, space: Space, retry: nat): (r: InitResult)
    requires buf.data.None? && retry <= ALLOC_RETRY_COUNT
    ensures retry <= r.attempts <= ALLOC_RETRY_COUNT
    ensures !r.ok ==> r.buf == buf
    ensures r.ok ==> r.buf.data.Some? && r.buf.size == size && r.buf.mappingCount == count
    ensures r.ok ==> size > 0 && count > 0 && Mul(size, count) != 0
    ensures r.ok ==> AllViewsMapped(r.buf, r.space)
    ensures r.ok ==> forall a :: a in r.space && !IsViewAddress(r.buf.data.value, size, count, a) ==> a in space && r.space[a] == space[a]
    ensures !r.ok && (forall a :: os.releaseOk(a)) ==> SubSpace(r.space, space)
    decreases ALLOC_RETRY_COUNT - retry
  {
    if retry == ALLOC_RETRY_COUNT then
      InitResult(false, buf, space, retry)
    else
      var length := Mul(size, count);
      var reserved := if length == 0 then None else os.reserve(retry);
      match reserved
      case None => InitResult(false, buf, space, retry + 1)
      case Some(base) =>
        var placed := Reserve(space, base, size, count);
        match MapViews(os, retry, base, size, count, 0, placed)
        case AllMapped(mapped) =>
          MulNonZero(size, count);
          InitResult(true, RingBuffer(Some(base), size, count), mapped, retry + 1)
        case MapFailed(partial, i) =>
          if !os.releaseOk(retry) then InitResult(false, buf, partial, retry + 1)
          else
            var released := Release(partial, base, size, count);
            ReleaseUndoesReserve(space, partial, base, size, count);
            Retry(os, buf, size, count, released, retry + 1)
  }

  /**
   How one attempt of the corrected retry loop ends: a failed or empty
   reservation returns false, an attempt that maps every view returns true
   with that reservation, and a failed release of a partly mapped
   reservation returns false.
   */
  lemma RetryAttempt(os: Os, buf: RingBuffer, size: u64, count: u32, space: Space, retry: nat)
    requires buf.data.None? && retry < ALLOC_RETRY_COUNT
    ensures var r := Retry(os, buf, size, count, space, retry);
      Mul(size, count) == 0 || os.reserve(retry).None? ==> !r.ok && r.space == space
    ensures Mul(size, count) != 0 && os.reserve(retry).Some? && AllMapOk(os, retry, count) ==>
      var r := Retry(os, buf, size, count, space, retry);
      r.ok && r.buf.data == os.reserve(retry)
    ensures Mul(size, count) != 0 && os.reserve(retry).Some? && !AllMapOk(os, retry, count) && !os.releaseOk(retry) ==>
      !Retry(os, buf, size, count, space, retry).ok
    ensures Mul(size, count) != 0 && os.reserve(retry).Some? && !AllMapOk(os, retry, count) && os.releaseOk(retry) ==>
      var base := os.reserve(retry).value;
      var m := MapViews(os, retry, base, size, count, 0, Reserve(space, base, size, count));
      Retry(os, buf, size, count, space, retry) == Retry(os, buf, size, count, Release(m.space, base, size, count), retry + 1)
  {
  }

  /** Once every fixed mapping fails, every attempt of the corrected loop fails and the loop reports failure. */
  lemma {:induction false} RetryFailsWhenMappingAlwaysFails(os: Os, buf: RingBuffer, size: u64, count: u32, space: Space, retry: nat)
    requires MappingAlwaysFails(os) && buf.data.None? && retry <= ALLOC_RETRY_COUNT
    ensures !Retry(os, buf, size, count, space, retry).ok
    decreases ALLOC_RETRY_COUNT - retry
  {
    if retry < ALLOC_RETRY_COUNT && Mul(size, count) != 0 {
      MulNonZero(size, count);
      var base := os.reserve(retry).value;
      var placed := Reserve(space, base, size, count);
      assert !os.mapOk(retry, 0);
      var m := MapViews(os, retry, base, size, count, 0, placed);
      assert m == MapFailed(placed, 0);
      RetryFailsWhenMappingAlwaysFails(os, buf, size, count, Release(placed, base, size, count), retry + 1);
    }
  }

  /** A non-zero reservation length has non-zero factors. */
  lemma MulNonZero(size: u64, count: u32)
    requires Mul(size, count) != 0
    ensures size > 0 && count > 0
  {
  }

  /** Reserving, mapping some views and releasing the whole range leaves a part of the old space. */
  lemma ReleaseUndoesReserve(space: Space, partial: Space, base: nat, size: u64, count: u32)
    requires forall a :: a in partial ==> a in space || IsViewAddress(base, size, count, a)
    requires forall a :: a in space && !IsViewAddress(base, size, count, a) ==> a in partial && partial[a] == space[a]
    ensures SubSpace(Release(partial, base, size, count), space)
  {
  }

  /** The corrected `init`: as written, with the corrected retry loop. */
  function Init(buf: RingBuffer, minSize: u64, count: u32, os: Os, space: Space): (r: InitResult)
    ensures r.attempts <= ALLOC_RETRY_COUNT
    ensures !r.ok ==> r.buf == buf.(data := None)
    ensures !os.memfdOk || !os.truncateOk ==> r == InitResult(false, buf.(data := None), space, 0)
    ensures r.ok ==> r.buf.size == CeilMultiple2(minSize, os.pageSize) && r.buf.mappingCount == count
    ensures r.ok ==> r.buf.size > 0 && AllViewsMapped(r.buf, r.space)
    ensures r.ok ==> forall a :: a in r.space && !IsViewAddress(r.buf.data.value, r.buf.size, count, a) ==> a in space && r.space[a] == space[a]
    ensures !r.ok && (forall a :: os.releaseOk(a)) ==> SubSpace(r.space, space)
    ensures var size := CeilMultiple2(minSize, os.pageSize);
      os.memfdOk && os.truncateOk && (Mul(size, count) == 0 || os.reserve(0).None?) ==> !r.ok && r.space == space
    ensures var size := CeilMultiple2(minSize, os.pageSize);
      os.memfdOk && os.truncateOk && Mul(size, count) != 0 && os.reserve(0).Some? && AllMapOk(os, 0, count) ==>
        r.ok && r.buf.data == os.reserve(0)
    ensures var size := CeilMultiple2(minSize, os.pageSize);
      os.memfdOk && os.truncateOk && Mul(size, count) != 0 && os.reserve(0).Some? && !AllMapOk(os, 0, count) && !os.releaseOk(0) ==>
        !r.ok
  {
    var nulled := buf.(data := None);
    var size := CeilMultiple2(minSize, os.pageSize);
    if !os.memfdOk then InitResult(false, nulled, space, 0)
    else if !os.truncateOk then InitResult(false, nulled, space, 0)
    else
      RetryAttempt(os, nulled, size, count, space, 0);
      Retry(os, nulled, size, count, space, 0)
  }

  /** Once every fixed mapping fails, the corrected `init` reports failure. */
  lemma InitFailsWhenMappingAlwaysFails(buf: RingBuffer, minSize: u64, count: u32, os: Os, space: Space)
    requires MappingAlwaysFails(os)
    ensures !Init(buf, minSize, count, os, space).ok
  {
    RetryFailsWhenMappingAlwaysFails(os, buf.(data := None), CeilMultiple2(minSize, os.pageSize), count, space, 0);
  }

  /**
   With a power-of-two page size and no wrap-around, a successful `init`
   sizes each view as the least multiple of the page size that holds
   `min_size` bytes.
   */
  lemma InitSizeRoundsToPages(buf: RingBuffer, minSize: u64, count: u32, os: Os, space: Space, k: nat)
    requires k < 64 && os.pageSize == Pow2(k) && minSize + os.pageSize - 1 < WORD_LIMIT
    requires Init(buf, minSize, count, os, space).ok
    ensures IsLeastMultipleAtLeast(Init(buf, minSize, count, os, space).buf.size, minSize, os.pageSize)
  {
    CeilMultiple2Rounds(minSize, k);
  }

  // ---------------------------------------------------------------------
  // Reading and writing through the views

  /**
   Read offset `off` of the region: the store's byte if its view maps the
   memfd, None (a fault) otherwise. An offset past the last view is treated
   as a fault too.
   */
  function ReadByte<T>(buf: RingBuffer, space: Space, store: seq<T>, off: nat): (v: Option<T>)
    requires buf.data.Some? && |store| == buf.size > 0
    ensures v.Some? ==> v.value == store[StoreIndex(off, buf.size)]
  {
    var i := ViewIndex(off, buf.size);
    if i < buf.mappingCount && ViewAddress(buf.data.value, buf.size, i) in space
       && space[ViewAddress(buf.data.value, buf.size, i)] == View
    then Some(store[StoreIndex(off, buf.size)])
    else None
  }

  /** Write offset `off` of the region: the updated store if its view maps the memfd, None (a fault) otherwise. */
  function WriteByte<T>(buf: RingBuffer, space: Space, store: seq<T>, off: nat, v: T): (s: Option<seq<T>>)
    requires buf.data.Some? && |store| == buf.size > 0
    ensures s.Some? <==> ReadByte(buf, space, store, off).Some?
    ensures s.Some? ==> s.value == WriteAt(store, off, v)
  {
    if ReadByte(buf, space, store, off).Some? then Some(WriteAt(store, off, v)) else None
  }

  /** When every view is mapped, any offset below count * size reaches store byte off mod size. */
  lemma RegionReadsStore<T>(buf: RingBuffer, space: Space, store: seq<T>, off: nat)
    requires AllViewsMapped(buf, space) && |store| == buf.size > 0
    requires off < buf.mappingCount * buf.size
    ensures ReadByte(buf, space, store, off) == Some(store[StoreIndex(off, buf.size)])
  {
    ViewIndexBelow(off, buf.size, buf.mappingCount);
  }

  /** Offset k of every view reads byte k of the store: `data + i*size + k` and `data + k` are the same memory. */
  lemma ViewsAlias<T>(buf: RingBuffer, space: Space, store: seq<T>, i: nat, k: nat)
    requires AllViewsMapped(buf, space) && |store| == buf.size
    requires i < buf.mappingCount && k < buf.size
    ensures ReadByte(buf, space, store, i * buf.size + k) == Some(store[k])
  {
    SplitOffset(i, k, buf.size);
  }

  /** A byte written through one view is read back through every other view. */
  lemma WriteVisibleInEveryView<T>(buf: RingBuffer, space: Space, store: seq<T>, i: nat, j: nat, k: nat, v: T)
    requires AllViewsMapped(buf, space) && |store| == buf.size > 0
    requires i < buf.mappingCount && j < buf.mappingCount && k < buf.size
    ensures WriteByte(buf, space, store, i * buf.size + k, v).Some?
    ensures ReadByte(buf, space, WriteByte(buf, space, store, i * buf.size + k, v).value, j * buf.size + k) == Some(v)
  {
    SplitOffset(i, k, buf.size);
    SplitOffset(j, k, buf.size);
  }

  // ---------------------------------------------------------------------
  // free

  /** What `free` leaves behind: its return value, the handle (None for a null handle) and the address space. */
  datatype FreeResult = FreeResult(ok: bool, handle: Option<RingBuffer>, space: Space)

  /** Unmap views i, i+1, ..., count-1, stopping at the first failure. */
  function UnmapViews(base: nat, size: u64, count: u32, unmapOk: nat -> bool, i: nat, space: Space): (u: Unrolled)
    requires i <= count
    ensures SubSpace(u.space, space)
    ensures u.ok <==> forall j: nat :: i <= j < count ==> unmapOk(j)
    ensures u.ok ==> forall j: nat :: i <= j < count ==> ViewAddress(base, size, j) !in u.space
    ensures forall a :: a in space && !IsViewAddress(base, size, count, a) ==> a in u.space
    decreases count - i
  {
    if i == count then Unrolled(true, space)
    else if !unmapOk(i) then Unrolled(false, space)
    else UnmapViews(base, size, count, unmapOk, i + 1, space - {ViewAddress(base, size, i)})
  }

  /**
   `free(buf)` on Linux: a null handle or a null data pointer is a successful
   no-op; otherwise unmap every view, returning false at the first failed
   munmap with the data pointer left as it was, and clearing it once all are
   unmapped. `unmapOk(i)` is the outcome of the munmap of view i.
   */
  function Free(handle: Option<RingBuffer>, unmapOk: nat -> bool, space: Space): (r: FreeResult)
    ensures handle.None? || handle.value.data.None? ==> r == FreeResult(true, handle, space)
    ensures handle.Some? && handle.value.data.Some? ==>
      (r.ok <==> forall j: nat :: j < handle.value.mappingCount ==> unmapOk(j))
    ensures !r.ok ==> r.handle == handle
    ensures r.ok && handle.Some? ==> r.handle == Some(handle.value.(data := None))
    ensures SubSpace(r.space, space)
    ensures r.ok && handle.Some? && handle.value.data.Some? ==>
      forall j: nat :: j < handle.value.mappingCount ==> ViewAddress(handle.value.data.value, handle.value.size, j) !in r.space
  {
    if handle.None? then FreeResult(true, handle, space)
    else if handle.value.data.None? then FreeResult(true, handle, space)
    else
      var b := handle.value;
      var u := UnmapViews(b.data.value, b.size, b.mappingCount, unmapOk, 0, space);
      if !u.ok then FreeResult(false, handle, u.space)
      else FreeResult(true, Some(b.(data := None)), u.space)
  }

  /** Freeing twice is safe: once freed, a second `free` changes nothing and succeeds. */
  lemma FreeTwice(handle: Option<RingBuffer>, unmapOk: nat -> bool, unmapOk2: nat -> bool, space: Space)
    requires Free(handle, unmapOk, space).ok
    ensures var r := Free(handle, unmapOk, space);
      Free(r.handle, unmapOk2, r.space) == FreeResult(true, r.handle, r.space)
  {
  }

  /**
   `init` followed by a fully successful `free` leaves nothing behind: the
   address space holds only what it held before `init`.
   */
  lemma InitThenFreeLeavesNothing(buf: RingBuffer, minSize: u64, count: u32, os: Os, space: Space, unmapOk: nat -> bool)
    requires Init(buf, minSize, count, os, space).ok
    requires forall j: nat :: j < count ==> unmapOk(j)
    ensures var r := Init(buf, minSize, count, os, space);
      var f := Free(Some(r.buf), unmapOk, r.space);
      f.ok && f.handle == Some(r.buf.(data := None)) && SubSpace(f.space, space)
  {
    var r := Init(buf, minSize, count, os, space);
    var f := Free(Some(r.buf), unmapOk, r.space);
    var base := r.buf.data.value;
    forall a | a in f.space
      ensures a in space && f.space[a] == space[a]
    {
    }
  }
}
