/**
 `t1_tprintf`: formatting into a process-wide ring buffer of two views. The
 buffer is created on first use; each call formats at the current offset,
 hands back a string pointing into the buffer, and moves the offset past the
 string and its terminator, stepping back by whole views so that the offset
 always lies in the first view or at its end. Because the second view
 aliases the first, a string that runs past the end of the first view is
 still contiguous.

 The formatting itself (`vsnprintf`) is an input: the text it would produce,
 or None when it reports an error. The memfd's bytes are the `store`; a
 newly created memfd is all zeros.
 */
module TempFormat {
  import opened Options
  import opened Bits
  import opened Word
  import opened Rounding
  import opened Aliasing
  import opened RingBuffer

  /** `t1_TFORMAT_RING_BUFFER_MIN_SIZE` */
  const TFORMAT_RING_BUFFER_MIN_SIZE: u64 := 16384

  /** The number of views `_get_static_format_buffer` asks for. */
  const TFORMAT_VIEWS: u32 := 2

  /** `INT_MAX`: the longest text `vsnprintf` can report. */
  const INT_MAX: nat := 0x7fff_ffff

  /** `t1_tformat_buffer`: the ring buffer and the offset of the next string. */
  datatype FormatBuffer = FormatBuffer(buffer: RingBuffer, offset: u64)

  /** The static format buffer together with the address space and the memfd's bytes. */
  datatype World = World(fmt: FormatBuffer, space: Space, store: seq<u8>)

  /** `t1_string`: where the text starts, as an offset from the buffer's base (None for null), and its length. */
  datatype TString = TString(start: Option<nat>, size: nat)

  /** The null string `t1_tvprintf` returns on failure. */
  const NULL_STRING := TString(None, 0)

  /**
   A formatting call either returns (a string and the new world) or faults on
   a store through a placeholder or past the last view.
   */
  datatype Outcome = Returned(s: TString, w: World) | Fault

  /** The outcome of `_get_static_format_buffer`: whether it returned the buffer (not null), and the world afterwards. */
  datatype Got = Got(ok: bool, w: World)

  /** The memory is there to be addressed: a live buffer's store has one byte per offset of a view. */
  predicate WellFormed(w: World)
  {
    w.fmt.buffer.data.Some? ==> |w.store| == w.fmt.buffer.size > 0
  }

  /**
   The invariant of the static buffer: without a buffer the offset is zero;
   with one, both views map the memfd and the offset lies in 0..size.
   */
  ghost predicate Valid(w: World)
  {
    && WellFormed(w)
    && (w.fmt.buffer.data.None? ==> w.fmt.offset == 0)
    && (w.fmt.buffer.data.Some? ==>
          && w.fmt.buffer.mappingCount == TFORMAT_VIEWS
          && AllViewsMapped(w.fmt.buffer, w.space)
          && w.fmt.offset <= w.fmt.buffer.size)
  }

  /** The zero-initialised bytes of a freshly sized memfd. */
  function Zeros(n: nat): (z: seq<u8>)
    ensures |z| == n && forall i :: 0 <= i < n ==> z[i] == 0
  {
    seq(n, _ => 0)
  }

  /** The static buffer before first use. */
  function Initial(): (w: World)
    ensures Valid(w) && w.fmt.buffer.data.None?
  {
    World(FormatBuffer(RingBuffer(None, 0, 0), 0), map[], [])
  }

  // ---------------------------------------------------------------------
  // _get_static_format_buffer

  /**
   `_get_static_format_buffer(free_buffer)`. Freeing a live buffer calls
   `free` (ignoring its result) and resets the offset; asking for the buffer
   when there is none runs `init` as written with the minimum size and two
   views, and returns null if that fails; otherwise nothing changes. `os`
   decides the outcome of `init`, `unmapOk` that of each munmap in `free`.
   */
  function GetStaticFormatBuffer(w: World, freeBuffer: bool, os: Os, unmapOk: nat -> bool): (g: Got)
    ensures freeBuffer ==> g.ok
    ensures freeBuffer && w.fmt.buffer.data.None? ==> g.w == w
    ensures freeBuffer && w.fmt.buffer.data.Some? ==> g.w.fmt.offset == 0
    ensures freeBuffer && w.fmt.buffer.data.Some? ==>
      ((forall j: nat :: j < w.fmt.buffer.mappingCount ==> unmapOk(j)) <==> g.w.fmt.buffer.data.None?)
    ensures freeBuffer ==> SubSpace(g.w.space, w.space)
    ensures !freeBuffer && w.fmt.buffer.data.Some? ==> g == Got(true, w)
    ensures !freeBuffer ==> (g.ok <==> g.w.fmt.buffer.data.Some?)
    ensures !freeBuffer && w.fmt.buffer.data.None? ==>
      (g.ok <==> InitAsWritten(w.fmt.buffer, TFORMAT_RING_BUFFER_MIN_SIZE, TFORMAT_VIEWS, os, w.space).ok)
    ensures !freeBuffer && w.fmt.buffer.data.None? && g.ok ==>
      && g.w.fmt.buffer.size == CeilMultiple2(TFORMAT_RING_BUFFER_MIN_SIZE, os.pageSize)
      && g.w.fmt.buffer.mappingCount == TFORMAT_VIEWS
      && g.w.fmt.offset == w.fmt.offset
      && g.w.store == Zeros(g.w.fmt.buffer.size)
    ensures WellFormed(w) ==> WellFormed(g.w)
  {
    var b := w.fmt.buffer;
    if freeBuffer && b.data.Some? then
      var f := Free(Some(b), unmapOk, w.space);
      Got(true, World(FormatBuffer(f.handle.value, 0), f.space, w.store))
    else if !freeBuffer && b.data.None? then
      var r := InitAsWritten(b, TFORMAT_RING_BUFFER_MIN_SIZE, TFORMAT_VIEWS, os, w.space);
      if !r.ok then Got(false, World(FormatBuffer(r.buf, w.fmt.offset), r.space, w.store))
      else Got(true, World(FormatBuffer(r.buf, w.fmt.offset), r.space, Zeros(r.buf.size)))
    else Got(true, w)
  }

  /**
   Asking for the buffer keeps the invariant unless the lazy `init` ran out
   of attempts, which is the one way it reports success with views that are
   not mapped; freeing keeps it when every munmap succeeds, and leaves no
   buffer behind.
   */
  lemma GetStaticFormatBufferKeepsValid(w: World, freeBuffer: bool, os: Os, unmapOk: nat -> bool)
    requires Valid(w)
    requires freeBuffer ==> forall j: nat :: j < TFORMAT_VIEWS ==> unmapOk(j)
    ensures var g := GetStaticFormatBuffer(w, freeBuffer, os, unmapOk);
      Valid(g.w) || (!freeBuffer && w.fmt.buffer.data.None? && g.ok &&
        InitAsWritten(w.fmt.buffer, TFORMAT_RING_BUFFER_MIN_SIZE, TFORMAT_VIEWS, os, w.space).attempts == ALLOC_RETRY_COUNT)
    ensures var g := GetStaticFormatBuffer(w, freeBuffer, os, unmapOk);
      g.ok && g.w.fmt.buffer.data.Some? && AllViewsMapped(g.w.fmt.buffer, g.w.space) ==> Valid(g.w)
    ensures freeBuffer ==> GetStaticFormatBuffer(w, freeBuffer, os, unmapOk).w.fmt.buffer.data.None?
    ensures !freeBuffer && GetStaticFormatBuffer(w, freeBuffer, os, unmapOk).ok ==>
      GetStaticFormatBuffer(w, freeBuffer, os, unmapOk).w.fmt.buffer.data.Some?
  {
  }

  /**
   As written, once every fixed mapping fails the lazy `init` hands
   `t1_tvprintf` a buffer whose first view is an inaccessible placeholder,
   and the first store through it faults.
   */
  lemma TvprintfFaultsAfterExhaustedInit(w: World, text: seq<u8>, os: Os)
    requires Valid(w) && w.fmt.buffer.data.None? && |text| <= INT_MAX
    requires MappingAlwaysFails(os)
    requires CeilMultiple2(TFORMAT_RING_BUFFER_MIN_SIZE, os.pageSize) >= 2
    requires Mul(CeilMultiple2(TFORMAT_RING_BUFFER_MIN_SIZE, os.pageSize), TFORMAT_VIEWS) != 0
    ensures GetStaticFormatBuffer(w, false, os, _ => true).ok
    ensures Tvprintf(w, Some(text), os) == Fault
  {
    InitAsWrittenSucceedsUnmapped(w.fmt.buffer, TFORMAT_RING_BUFFER_MIN_SIZE, TFORMAT_VIEWS, os, w.space);
    FormatAtFaultsOnPlaceholder(GetStaticFormatBuffer(w, false, os, _ => true).w, text);
  }

  /** A call at offset 0 whose first view is a placeholder faults on its first store. */
  lemma FormatAtFaultsOnPlaceholder(w: World, text: seq<u8>)
    requires WellFormed(w) && w.fmt.buffer.data.Some? && |text| <= INT_MAX
    requires w.fmt.offset == 0 && w.fmt.buffer.size >= 2
    requires var a := ViewAddress(w.fmt.buffer.data.value, w.fmt.buffer.size, 0); a in w.space && w.space[a] == Placeholder
    ensures FormatAt(w, text) == Fault
  {
    var b := w.fmt.buffer;
    var out := Truncated(text, b.size - 1);
    assert out != [];
    assert ViewIndex(0, b.size) == 0;
    assert ReadByte(b, w.space, w.store, 0).None?;
  }

  /** The cleanup registered with `atexit` frees a live buffer; asking again afterwards builds a fresh one. */
  lemma CleanupThenReuse(w: World, os: Os, unmapOk: nat -> bool)
    requires Valid(w) && w.fmt.buffer.data.Some?
    requires forall j: nat :: j < TFORMAT_VIEWS ==> unmapOk(j)
    ensures var f := GetStaticFormatBuffer(w, true, os, unmapOk).w;
      var g := GetStaticFormatBuffer(f, false, os, unmapOk);
      var r := InitAsWritten(f.fmt.buffer, TFORMAT_RING_BUFFER_MIN_SIZE, TFORMAT_VIEWS, os, f.space);
      && f.fmt.buffer.data.None? && (g.ok <==> r.ok)
      && (g.ok ==> g.w.fmt.offset == 0 && g.w.store == Zeros(g.w.fmt.buffer.size))
      && (g.ok && r.attempts < ALLOC_RETRY_COUNT ==> Valid(g.w))
  {
    GetStaticFormatBufferKeepsValid(w, true, os, unmapOk);
    GetStaticFormatBufferKeepsValid(GetStaticFormatBuffer(w, true, os, unmapOk).w, false, os, unmapOk);
  }

  /**
   `_get_static_format_buffer` with the evidently intended `init`: only the
   lazy creation differs from the function as written.
   */
  function GetStaticFormatBufferIntended(w: World, freeBuffer: bool, os: Os, unmapOk: nat -> bool): (g: Got)
    ensures freeBuffer || w.fmt.buffer.data.Some? ==> g == GetStaticFormatBuffer(w, freeBuffer, os, unmapOk)
    ensures !freeBuffer ==> (g.ok <==> g.w.fmt.buffer.data.Some?)
    ensures !freeBuffer && w.fmt.buffer.data.None? ==>
      (g.ok <==> Init(w.fmt.buffer, TFORMAT_RING_BUFFER_MIN_SIZE, TFORMAT_VIEWS, os, w.space).ok)
    ensures !freeBuffer && w.fmt.buffer.data.None? && g.ok ==>
      && g.w.fmt.buffer.size == CeilMultiple2(TFORMAT_RING_BUFFER_MIN_SIZE, os.pageSize)
      && g.w.fmt.buffer.mappingCount == TFORMAT_VIEWS
      && AllViewsMapped(g.w.fmt.buffer, g.w.space)
      && g.w.fmt.offset == w.fmt.offset
      && g.w.store == Zeros(g.w.fmt.buffer.size)
    ensures WellFormed(w) ==> WellFormed(g.w)
  {
    var b := w.fmt.buffer;
    if !freeBuffer && b.data.None? then
      var r := Init(b, TFORMAT_RING_BUFFER_MIN_SIZE, TFORMAT_VIEWS, os, w.space);
      if !r.ok then Got(false, World(FormatBuffer(r.buf, w.fmt.offset), r.space, w.store))
      else Got(true, World(FormatBuffer(r.buf, w.fmt.offset), r.space, Zeros(r.buf.size)))
    else GetStaticFormatBuffer(w, freeBuffer, os, unmapOk)
  }

  /** With the intended `init`, asking for the buffer always keeps the invariant. */
  lemma GetStaticFormatBufferIntendedKeepsValid(w: World, freeBuffer: bool, os: Os, unmapOk: nat -> bool)
    requires Valid(w)
    requires freeBuffer ==> forall j: nat :: j < TFORMAT_VIEWS ==> unmapOk(j)
    ensures Valid(GetStaticFormatBufferIntended(w, freeBuffer, os, unmapOk).w)
    ensures freeBuffer ==> GetStaticFormatBufferIntended(w, freeBuffer, os, unmapOk).w.fmt.buffer.data.None?
    ensures !freeBuffer && GetStaticFormatBufferIntended(w, freeBuffer, os, unmapOk).ok ==>
      GetStaticFormatBufferIntended(w, freeBuffer, os, unmapOk).w.fmt.buffer.data.Some?
  {
    GetStaticFormatBufferKeepsValid(w, freeBuffer, os, unmapOk);
  }

  // ---------------------------------------------------------------------
  // Stores through the views

  /**
   Store `bytes` through offsets o, o+1, ... of the region, one byte at a
   time; None if one of them falls outside the mapped views.
   */
  function WriteRegion(buf: RingBuffer, space: Space, store: seq<u8>, o: nat, bytes: seq<u8>): (r: Option<seq<u8>>)
    requires buf.data.Some? && |store| == buf.size > 0
    ensures r.Some? ==> r.value == WriteRun(store, o, bytes)
    decreases |bytes|
  {
    if bytes == [] then Some(store)
    else
      match WriteByte(buf, space, store, o, bytes[0])
      case None => None
      case Some(s) => WriteRegion(buf, space, s, o + 1, bytes[1..])
  }

  /** With every view mapped, a store that stays below the end of the last view never faults. */
  lemma {:induction false} WriteRegionMapped(buf: RingBuffer, space: Space, store: seq<u8>, o: nat, bytes: seq<u8>)
    requires AllViewsMapped(buf, space) && |store| == buf.size > 0
    requires o + |bytes| <= buf.mappingCount * buf.size
    ensures WriteRegion(buf, space, store, o, bytes) == Some(WriteRun(store, o, bytes))
    decreases |bytes|
  {
    if bytes != [] {
      RegionReadsStore(buf, space, store, o);
      var s := WriteAt(store, o, bytes[0]);
      WriteRegionMapped(buf, space, s, o + 1, bytes[1..]);
    }
  }

  // ---------------------------------------------------------------------
  // t1_tvprintf

  /**
   The `while (offset > size) offset -= size;` loop of `t1_tvprintf`: it
   steps back by whole views to an offset in 0..size denoting the same byte.
   */
  method ReduceOffset(offset: u64, size: u64) returns (r: u64)
    requires size > 0
    ensures r == Rewind(offset, size)
    ensures offset <= size ==> r == offset
    ensures r <= size && r <= offset
    ensures StoreIndex(r, size) == StoreIndex(offset, size)
    ensures offset > size ==> r == (offset - 1) % size + 1
  {
    r := offset;
    while r > size
      invariant r <= offset
      invariant Rewind(r, size) == Rewind(offset, size)
      decreases r
    {
      r := r - size;
    }
    RewindSameByte(offset, size);
    if offset > size {
      RewindClosedForm(offset, size);
    }
  }

  /** What `vsnprintf(dst, n, ...)` stores for a text: at most n - 1 bytes of it and a terminator, nothing when n is 0. */
  function Truncated(text: seq<u8>, n: nat): (out: seq<u8>)
    ensures n == 0 ==> out == []
    ensures n > 0 ==> |out| == Min(|text|, n - 1) + 1 && out[|out| - 1] == 0
    ensures n > 0 ==> out[..|out| - 1] == text[..|out| - 1]
    ensures |out| <= n
  {
    if n == 0 then [] else text[..Min(|text|, n - 1)] + [0]
  }

  /** `vsnprintf` reports an error (a negative count) for a missing or over-long text. */
  predicate FormatFails(text: Option<seq<u8>>)
  {
    text.None? || |text.value| > INT_MAX
  }

  /**
   The two stores `t1_tvprintf` makes at offset o, as written: `vsnprintf`'s
   output with limit size - 1, then a terminator at o + bytes_written. None
   if either falls outside the mapped views.
   */
  function StoreFormatted(b: RingBuffer, space: Space, store: seq<u8>, o: nat, text: seq<u8>): (r: Option<seq<u8>>)
    requires b.data.Some? && |store| == b.size > 0
    ensures r.Some? ==> |r.value| == |store|
  {
    match WriteRegion(b, space, store, o, Truncated(text, b.size - 1))
    case None => None
    case Some(s1) => WriteByte(b, space, s1, o + |text|, 0)
  }

  /**
   When the terminator lands inside the two views, neither store faults: the
   store holds `vsnprintf`'s output followed by the terminator at
   o + bytes_written.
   */
  lemma StoreFormattedInViews(b: RingBuffer, space: Space, store: seq<u8>, o: nat, text: seq<u8>)
    requires AllViewsMapped(b, space) && b.mappingCount == TFORMAT_VIEWS && |store| == b.size > 0
    requires o <= b.size && o + |text| < 2 * b.size
    ensures StoreFormatted(b, space, store, o, text) ==
      Some(WriteAt(WriteRun(store, o, Truncated(text, b.size - 1)), o + |text|, 0))
  {
    var out := Truncated(text, b.size - 1);
    assert b.mappingCount * b.size == 2 * b.size;
    WriteRegionMapped(b, space, store, o, out);
    var s1 := WriteRun(store, o, out);
    RegionReadsStore(b, space, s1, o + |text|);
  }

  /**
   The terminator of a text of 2 * size bytes stored at offset 0 lands one
   byte past the second view, outside the region: the model treats that
   store as a fault.
   */
  lemma StoreFormattedPastViews(b: RingBuffer, space: Space, store: seq<u8>, text: seq<u8>)
    requires AllViewsMapped(b, space) && b.mappingCount == TFORMAT_VIEWS && |store| == b.size > 0
    requires |text| == 2 * b.size
    ensures StoreFormatted(b, space, store, 0, text).None?
  {
    var out := Truncated(text, b.size - 1);
    assert b.mappingCount * b.size == 2 * b.size;
    WriteRegionMapped(b, space, store, 0, out);
    SplitOffset(2, 0, b.size);
  }

  /**
   The body of `t1_tvprintf` once it holds a live buffer and a text of at
   most INT_MAX bytes: make the two stores at the current offset; return the
   string there with the full length; advance the offset past it and step it
   back into the first view.
   */
  function FormatAt(w: World, text: seq<u8>): (r: Outcome)
    requires WellFormed(w) && w.fmt.buffer.data.Some? && |text| <= INT_MAX
    ensures r.Returned? ==>
      && r.s == TString(Some(w.fmt.offset), |text|)
      && r.w.fmt.buffer == w.fmt.buffer && r.w.space == w.space
      && r.w.fmt.offset <= w.fmt.buffer.size
      && |r.w.store| == |w.store|
  {
    var b := w.fmt.buffer;
    var o := w.fmt.offset;
    match StoreFormatted(b, w.space, w.store, o, text)
    case None => Fault
    case Some(s2) =>
      var next := Rewind(Add(o, |text| + 1), b.size);
      Returned(TString(Some(o), |text|), World(FormatBuffer(b, next), w.space, s2))
  }

  /** After a call that returns, the offset denotes the store byte just past the string's terminator. */
  lemma FormatAtAdvances(w: World, text: seq<u8>)
    requires WellFormed(w) && w.fmt.buffer.data.Some? && |text| <= INT_MAX
    requires FormatAt(w, text).Returned?
    ensures StoreIndex(FormatAt(w, text).w.fmt.offset, w.fmt.buffer.size) ==
      StoreIndex(Add(w.fmt.offset, |text| + 1), w.fmt.buffer.size)
  {
    RewindSameByte(Add(w.fmt.offset, |text| + 1), w.fmt.buffer.size);
  }

  /**
   `t1_tvprintf` as written: get the buffer, returning the null string if
   that fails or if `vsnprintf` reports an error, and format otherwise.
   */
  function Tvprintf(w: World, text: Option<seq<u8>>, os: Os): (r: Outcome)
    requires WellFormed(w)
    ensures r.Returned? ==> WellFormed(r.w)
    ensures r.Returned? && r.s.start.None? ==> r.s == NULL_STRING
    ensures r.Returned? && r.s.start.Some? ==> !FormatFails(text) && r.s.size == |text.value|
    ensures FormatFails(text) ==> r.Returned? && r.s == NULL_STRING
    ensures !GetStaticFormatBuffer(w, false, os, _ => true).ok ==> r.Returned? && r.s == NULL_STRING
  {
    var g := GetStaticFormatBuffer(w, false, os, _ => true);
    if !g.ok then Returned(NULL_STRING, g.w)
    else if FormatFails(text) then Returned(NULL_STRING, g.w)
    else FormatAt(g.w, text.value)
  }

  /** `t1_tprintf`: the variadic front end; it formats exactly as `t1_tvprintf`. */
  function Tprintf(w: World, text: Option<seq<u8>>, os: Os): (r: Outcome)
    requires WellFormed(w)
    ensures FormatFails(text) ==> r.Returned? && r.s == NULL_STRING
    ensures r.Returned? && r.s.start.Some? ==> r.s.size == |text.value|
  {
    Tvprintf(w, text, os)
  }

  /** The bytes a returned string consists of, read through the views. */
  function Contents(w: World, s: TString): (bytes: seq<u8>)
    requires WellFormed(w) && w.fmt.buffer.data.Some? && s.start.Some?
    ensures |bytes| == s.size
  {
    ReadRun(w.store, s.start.value, s.size)
  }

  /** A text of at most size - 2 bytes is stored whole, and the extra terminator rewrites the one already there. */
  lemma StoreFormattedFits(b: RingBuffer, space: Space, store: seq<u8>, o: nat, text: seq<u8>)
    requires AllViewsMapped(b, space) && b.mappingCount == TFORMAT_VIEWS && |store| == b.size > 0
    requires o <= b.size && |text| + 2 <= b.size
    ensures StoreFormatted(b, space, store, o, text) == Some(WriteRun(store, o, text + [0]))
  {
    var out := text + [0];
    assert text[..|text|] == text;
    assert Truncated(text, b.size - 1) == out;
    StoreFormattedInViews(b, space, store, o, text);
    RewriteLastOfRun(store, o, out);
  }

  /**
   A text that fits (at most size - 2 bytes) is stored whole: the call does
   not fault, the string reads back as the text followed by its terminator,
   however far it spills into the second view, and the invariant holds.
   */
  lemma FormatAtFits(w: World, text: seq<u8>)
    requires Valid(w) && w.fmt.buffer.data.Some? && |text| <= INT_MAX
    requires |text| + 2 <= w.fmt.buffer.size
    ensures FormatAt(w, text).Returned? && Valid(FormatAt(w, text).w)
    ensures FormatAt(w, text).w.store == WriteRun(w.store, w.fmt.offset, text + [0])
    ensures ReadRun(FormatAt(w, text).w.store, w.fmt.offset, |text| + 1) == text + [0]
  {
    StoreFormattedFits(w.fmt.buffer, w.space, w.store, w.fmt.offset, text);
    WriteRunReadBack(w.store, w.fmt.offset, text + [0]);
  }

  /** The same for the whole call, on a buffer `t1_tvprintf` obtains with both views mapped. */
  lemma TvprintfFits(w: World, text: seq<u8>, os: Os)
    requires Valid(w) && |text| <= INT_MAX
    requires GetStaticFormatBuffer(w, false, os, _ => true).ok
    requires AllViewsMapped(GetStaticFormatBuffer(w, false, os, _ => true).w.fmt.buffer, GetStaticFormatBuffer(w, false, os, _ => true).w.space)
    requires |text| + 2 <= GetStaticFormatBuffer(w, false, os, _ => true).w.fmt.buffer.size
    ensures var r := Tvprintf(w, Some(text), os);
      && r.Returned? && r.s.start.Some? && r.s.size == |text|
      && Valid(r.w)
      && ReadRun(r.w.store, r.s.start.value, |text| + 1) == text + [0]
  {
    GetStaticFormatBufferKeepsValid(w, false, os, _ => true);
    FormatAtFits(GetStaticFormatBuffer(w, false, os, _ => true).w, text);
  }

  // ---------------------------------------------------------------------
  // A text too long for the buffer

  /**
   For a text of size - 1 bytes the terminator lands just after
   `vsnprintf`'s output, which therefore reads back unchanged: size - 2
   bytes of the text and `vsnprintf`'s terminator.
   */
  lemma StoreFormattedOneOver(b: RingBuffer, space: Space, store: seq<u8>, o: nat, text: seq<u8>)
    requires AllViewsMapped(b, space) && b.mappingCount == TFORMAT_VIEWS && |store| == b.size > 0
    requires o <= b.size && |text| + 1 == b.size && b.size >= 2
    ensures StoreFormatted(b, space, store, o, text).Some?
    ensures ReadRun(StoreFormatted(b, space, store, o, text).value, o, |text|) == Truncated(text, b.size - 1)
  {
    var out := Truncated(text, b.size - 1);
    StoreFormattedInViews(b, space, store, o, text);
    RunThenNextByte(store, o, out, 0);
  }

  /**
   As written, a text of size - 1 bytes is cut to size - 2 bytes by
   `vsnprintf`, yet the call reports its full length: the last byte of the
   returned string is the terminator `vsnprintf` stored, not the text's last
   byte.
   */
  lemma FormatAtReportsUntruncatedLength(w: World, text: seq<u8>)
    requires Valid(w) && w.fmt.buffer.data.Some? && w.fmt.buffer.size >= 2
    requires |text| + 1 == w.fmt.buffer.size && |text| <= INT_MAX
    requires forall i :: 0 <= i < |text| ==> text[i] != 0
    ensures FormatAt(w, text).Returned?
    ensures Contents(FormatAt(w, text).w, FormatAt(w, text).s) != text
  {
    StoreFormattedOneOver(w.fmt.buffer, w.space, w.store, w.fmt.offset, text);
    var out := Truncated(text, w.fmt.buffer.size - 1);
    assert out[|text| - 1] == 0;
  }

  /**
   As written, the terminator for a text of 2 * size bytes formatted at
   offset 0 is stored at `data + 2 * size`, one byte past the second view
   and outside the region, which the model treats as a fault.
   */
  lemma FormatAtTerminatorPastViews(w: World, text: seq<u8>)
    requires Valid(w) && w.fmt.buffer.data.Some? && w.fmt.offset == 0
    requires |text| == 2 * w.fmt.buffer.size && |text| <= INT_MAX
    ensures FormatAt(w, text) == Fault
  {
    StoreFormattedPastViews(w.fmt.buffer, w.space, w.store, text);
  }

  // ---------------------------------------------------------------------
  // The intended call

  /** How much of a text the intended call keeps: what `vsnprintf` stores with limit size - 1. */
  function Kept(len: nat, size: nat): (k: nat)
    ensures size >= 2 ==> k <= size - 2
    ensures k <= len
    ensures size >= 2 && len + 2 <= size ==> k == len
  {
    if size >= 2 then Min(len, size - 2) else 0
  }

  /** The one store of the intended call: the kept prefix and its terminator. */
  function StoreIntended(b: RingBuffer, space: Space, store: seq<u8>, o: nat, text: seq<u8>): (r: Option<seq<u8>>)
    requires b.data.Some? && |store| == b.size > 0
    ensures r.Some? ==> |r.value| == |store|
  {
    WriteRegion(b, space, store, o, text[..Kept(|text|, b.size)] + [0])
  }

  /**
   The body of `t1_tvprintf` as evidently intended: the string returned is
   what `vsnprintf` stored, so its length is the text's length cut to
   size - 2, the terminator is the one `vsnprintf` wrote, and the offset
   moves past exactly those bytes.
   */
  function FormatAtIntended(w: World, text: seq<u8>): (r: Outcome)
    requires WellFormed(w) && w.fmt.buffer.data.Some? && |text| <= INT_MAX
    ensures r.Returned? ==>
      && r.s == TString(Some(w.fmt.offset), Kept(|text|, w.fmt.buffer.size))
      && r.w.fmt.buffer == w.fmt.buffer && r.w.space == w.space
      && r.w.fmt.offset <= w.fmt.buffer.size
      && |r.w.store| == |w.store|
  {
    var b := w.fmt.buffer;
    var o := w.fmt.offset;
    var kept := Kept(|text|, b.size);
    match StoreIntended(b, w.space, w.store, o, text)
    case None => Fault
    case Some(s1) =>
      var next := Rewind(Add(o, kept + 1), b.size);
      Returned(TString(Some(o), kept), World(FormatBuffer(b, next), w.space, s1))
  }

  /** `t1_tvprintf` as evidently intended. */
  function TvprintfIntended(w: World, text: Option<seq<u8>>, os: Os): (r: Outcome)
    requires WellFormed(w)
    ensures r.Returned? ==> WellFormed(r.w)
    ensures FormatFails(text) ==> r.Returned? && r.s == NULL_STRING
    ensures r.Returned? && r.s.start.Some? ==> !FormatFails(text) && r.s.size <= |text.value|
  {
    var g := GetStaticFormatBufferIntended(w, false, os, _ => true);
    if !g.ok then Returned(NULL_STRING, g.w)
    else if FormatFails(text) then Returned(NULL_STRING, g.w)
    else FormatAtIntended(g.w, text.value)
  }

  /** With both views mapped and the offset in the first view, the intended store never faults. */
  lemma StoreIntendedInViews(b: RingBuffer, space: Space, store: seq<u8>, o: nat, text: seq<u8>)
    requires AllViewsMapped(b, space) && b.mappingCount == TFORMAT_VIEWS && |store| == b.size > 0
    requires o <= b.size
    ensures StoreIntended(b, space, store, o, text) == Some(WriteRun(store, o, text[..Kept(|text|, b.size)] + [0]))
  {
    assert b.mappingCount * b.size == 2 * b.size;
    WriteRegionMapped(b, space, store, o, text[..Kept(|text|, b.size)] + [0]);
  }

  /**
   The intended call never faults on a valid buffer, keeps the invariant,
   and the string reads back as the stored prefix of the text followed by
   its terminator.
   */
  lemma FormatAtIntendedStoresPrefix(w: World, text: seq<u8>)
    requires Valid(w) && w.fmt.buffer.data.Some? && |text| <= INT_MAX
    ensures FormatAtIntended(w, text).Returned? && Valid(FormatAtIntended(w, text).w)
    ensures var k := Kept(|text|, w.fmt.buffer.size);
      ReadRun(FormatAtIntended(w, text).w.store, w.fmt.offset, k + 1) == text[..k] + [0]
  {
    var b := w.fmt.buffer;
    var o := w.fmt.offset;
    StoreIntendedInViews(b, w.space, w.store, o, text);
    WriteRunReadBack(w.store, o, text[..Kept(|text|, b.size)] + [0]);
  }

  /** The same for the whole intended call, on a buffer it obtains. */
  lemma TvprintfIntendedStoresPrefix(w: World, text: seq<u8>, os: Os)
    requires Valid(w) && |text| <= INT_MAX
    requires GetStaticFormatBufferIntended(w, false, os, _ => true).ok
    ensures var r := TvprintfIntended(w, Some(text), os);
      && r.Returned? && r.s.start.Some? && Valid(r.w)
      && ReadRun(r.w.store, r.s.start.value, r.s.size + 1) == text[..r.s.size] + [0]
  {
    GetStaticFormatBufferIntendedKeepsValid(w, false, os, _ => true);
    FormatAtIntendedStoresPrefix(GetStaticFormatBufferIntended(w, false, os, _ => true).w, text);
  }

  /** For a text that fits, the intended call and the call as written agree. */
  lemma IntendedAgreesWhenFits(w: World, text: seq<u8>)
    requires Valid(w) && w.fmt.buffer.data.Some? && |text| <= INT_MAX
    requires |text| + 2 <= w.fmt.buffer.size
    ensures FormatAtIntended(w, text) == FormatAt(w, text)
  {
    var b := w.fmt.buffer;
    FormatAtFits(w, text);
    assert text[..Kept(|text|, b.size)] == text;
    StoreIntendedInViews(b, w.space, w.store, w.fmt.offset, text);
  }

  /**
   Strings live until the buffer comes round again: after two intended
   calls whose strings and terminators fit in one view together, the first
   string still reads back unchanged.
   */
  lemma EarlierStringSurvives(w: World, t1: seq<u8>, t2: seq<u8>)
    requires Valid(w) && w.fmt.buffer.data.Some? && |t1| <= INT_MAX && |t2| <= INT_MAX
    requires |t1| + 1 + |t2| + 1 <= w.fmt.buffer.size
    requires w.fmt.offset + |t1| + 1 < WORD_LIMIT
    ensures FormatAtIntended(w, t1).Returned?
    ensures var w1 := FormatAtIntended(w, t1).w;
      && FormatAtIntended(w1, t2).Returned?
      && ReadRun(FormatAtIntended(w1, t2).w.store, w.fmt.offset, |t1| + 1) == t1 + [0]
  {
    var o := w.fmt.offset;
    var d := |t1| + 1;
    FormatAtIntendedStoresPrefix(w, t1);
    assert t1[..|t1|] == t1;
    var w1 := FormatAtIntended(w, t1).w;
    RewindSameByte(o + d, w.fmt.buffer.size);
    FormatAtIntendedLeavesBehind(w1, o, d, t2);
  }

  /**
   An intended call at the store byte just after d earlier bytes, whose
   string and terminator fit beside them in one view, leaves them as they were.
   */
  lemma FormatAtIntendedLeavesBehind(w: World, o: nat, d: nat, text: seq<u8>)
    requires Valid(w) && w.fmt.buffer.data.Some? && |text| <= INT_MAX
    requires 0 < d && d + |text| + 1 <= w.fmt.buffer.size
    requires StoreIndex(w.fmt.offset, w.fmt.buffer.size) == StoreIndex(o + d, w.fmt.buffer.size)
    ensures FormatAtIntended(w, text).Returned?
    ensures ReadRun(FormatAtIntended(w, text).w.store, o, d) == ReadRun(w.store, o, d)
  {
    FormatAtIntendedStoresPrefix(w, text);
    StoreIntendedInViews(w.fmt.buffer, w.space, w.store, w.fmt.offset, text);
    assert text[..|text|] == text;
    RunSurvivesNextRun(w.store, o, d, w.fmt.offset, text + [0]);
  }
}
