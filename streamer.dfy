/**
 * The chunked array streamer: a double array of `size` elements is read, transformed
 * and written in chunks of at most `max_cell_size` elements, so that no more than
 * one chunk is held at a time. The index range [0, size) is cut into size / m full
 * chunks of m elements and one remainder chunk, which may be empty.
 */
module Streamer {
  import opened Wrappers
  import opened Bytes
  import opened Text
  import opened Sink
  import opened Writer

  /** `[T(v) for v in s]`, built up from the front as the source's append loop does. */
  function Map<R>(T: R -> Double, s: seq<R>): (r: seq<Double>)
    ensures |r| == |s|
    ensures forall i :: 0 <= i < |s| ==> r[i] == T(s[i])
  {
    if s == [] then [] else Map(T, s[..|s| - 1]) + [T(s[|s| - 1])]
  }

  lemma {:induction false} MapAppend<R>(T: R -> Double, a: seq<R>, b: seq<R>)
    ensures Map(T, a + b) == Map(T, a) + Map(T, b)
  {
    if b == [] {
      assert a + b == a;
    } else {
      assert (a + b)[..|a + b| - 1] == a + b[..|b| - 1];
      MapAppend(T, a, b[..|b| - 1]);
    }
  }

  // ---------------------------------------------------------------- chunks

  /** The half-open index range [start, start + count) of one chunk; count is the item count packed. */
  datatype Chunk = Chunk(start: nat, count: nat) {
    function End(): nat {
      start + count
    }
  }

  /** The chunks the loops visit: [(i-1)m, im) for i = 1 .. size/m, then [(size/m)m, size). */
  function Chunks(size: nat, m: nat): seq<Chunk>
    requires m > 0
  {
    var n := size / m;
    DivBounds(size, m);
    seq(n, i requires 0 <= i => Chunk(i * m, m)) + [Chunk(n * m, size - n * m)]
  }

  lemma ChunkAt(size: nat, m: nat, j: nat)
    requires m > 0 && j <= size / m
    ensures |Chunks(size, m)| == size / m + 1
    ensures j < size / m ==> Chunks(size, m)[j] == Chunk(j * m, m)
    ensures j == size / m ==> Chunks(size, m)[j] == Chunk(j * m, size - j * m)
  {
  }

  /** Each chunk starts where the one before it ends, the first at 0. */
  predicate Contiguous(cs: seq<Chunk>) {
    && (|cs| > 0 ==> cs[0].start == 0)
    && (forall j :: 0 < j < |cs| ==> cs[j].start == cs[j - 1].End())
  }

  /** The end of the index range that contiguous chunks cover. */
  function Covered(cs: seq<Chunk>): nat {
    if cs == [] then 0 else cs[|cs| - 1].End()
  }

  lemma DivBounds(size: nat, m: nat)
    requires m > 0
    ensures (size / m) * m <= size < (size / m) * m + m
    ensures size - (size / m) * m == size % m
  {
  }

  /**
   * The chunks partition [0, size) in increasing order: there are size/m + 1 of them,
   * all but the last hold exactly m elements, the last holds fewer than m, and the
   * last is empty exactly when m divides size.
   */
  lemma ChunksPartition(size: nat, m: nat)
    requires m > 0
    ensures |Chunks(size, m)| == size / m + 1
    ensures Contiguous(Chunks(size, m))
    ensures Covered(Chunks(size, m)) == size
    ensures forall j :: 0 <= j < |Chunks(size, m)| - 1 ==> Chunks(size, m)[j].count == m
    ensures Chunks(size, m)[size / m].count < m
    ensures Chunks(size, m)[size / m].count == 0 <==> size % m == 0
  {
    DivBounds(size, m);
    var cs := Chunks(size, m);
    var n := size / m;
    forall j | 0 < j < |cs| ensures cs[j].start == cs[j - 1].End() {
      assert cs[j - 1] == Chunk((j - 1) * m, m);
      assert (j - 1) * m + m == j * m;
    }
  }

  // ---------------------------------------------------------------- streaming

  /** Reading one chunk, transforming its values and packing exactly `count` doubles. */
  function PackChunk<R>(read: (nat, nat) -> seq<R>, T: R -> Double, c: Chunk): Emission {
    PackDoubles(Map(T, read(c.start, c.End())), c.count)
  }

  /** The chunks streamed in order; a chunk that raises ends the stream. */
  function StreamChunks<R>(read: (nat, nat) -> seq<R>, T: R -> Double, cs: seq<Chunk>): Emission {
    if cs == [] then Done([])
    else Then(StreamChunks(read, T, cs[..|cs| - 1]), PackChunk(read, T, cs[|cs| - 1]))
  }

  /** `write_dataset_values(series, read, T, size, gdf_file, max_cell_size)`. */
  function StreamValues<R>(read: (nat, nat) -> seq<R>, T: R -> Double, size: nat, m: nat): Emission {
    if m == 0 then Fail(ZeroDivision) else StreamChunks(read, T, Chunks(size, m))
  }

  /** One iteration of the streaming loop: read, transform element by element, pack, write. */
  method WriteChunk<R>(f: GdfFile, read: (nat, nat) -> seq<R>, T: R -> Double, start: nat, count: nat)
    returns (st: Status)
    modifies f
    ensures f.bytes == old(f.bytes) + PackChunk(read, T, Chunk(start, count)).out
    ensures st == PackChunk(read, T, Chunk(start, count)).status
  {
    var current := read(start, start + count);
    var absolute: seq<Double> := [];
    for j := 0 to |current|
      invariant absolute == Map(T, current[..j])
    {
      assert current[..j + 1][..j] == current[..j];
      absolute := absolute + [T(current[j])];
    }
    assert current[..|current|] == current;
    st := WriteDoubles(f, absolute, count);
  }

  lemma StreamSnoc<R>(read: (nat, nat) -> seq<R>, T: R -> Double, cs: seq<Chunk>, k: nat)
    requires k < |cs|
    ensures StreamChunks(read, T, cs[..k + 1]) == Then(StreamChunks(read, T, cs[..k]), PackChunk(read, T, cs[k]))
  {
    assert cs[..k + 1][..k] == cs[..k];
  }

  /** Once a chunk has raised, the chunks after it change nothing. */
  lemma {:induction false} StreamStopsAtRaise<R>(read: (nat, nat) -> seq<R>, T: R -> Double, cs: seq<Chunk>, k: nat)
    requires k <= |cs| && StreamChunks(read, T, cs[..k]).status.Raised?
    ensures StreamChunks(read, T, cs) == StreamChunks(read, T, cs[..k])
    decreases |cs| - k
  {
    if k < |cs| {
      assert cs[..k + 1][..k] == cs[..k];
      StreamStopsAtRaise(read, T, cs, k + 1);
    } else {
      assert cs[..k] == cs;
    }
  }

  /** The prefix of the first k full chunks grows by the chunk [km, km + m). */
  lemma FullChunkStep<R>(read: (nat, nat) -> seq<R>, T: R -> Double, size: nat, m: nat, k: nat)
    requires m > 0 && k < size / m
    ensures StreamChunks(read, T, Chunks(size, m)[..k + 1])
      == Then(StreamChunks(read, T, Chunks(size, m)[..k]), PackChunk(read, T, Chunk(k * m, m)))
  {
    ChunkAt(size, m, k);
    StreamSnoc(read, T, Chunks(size, m), k);
  }

  /** A chunk that raises ends the stream of any longer prefix. */
  lemma PrefixStopsAtRaise<R>(read: (nat, nat) -> seq<R>, T: R -> Double, cs: seq<Chunk>, k: nat, n: nat)
    requires k <= n <= |cs|
    requires StreamChunks(read, T, cs[..k]).status.Raised?
    ensures StreamChunks(read, T, cs[..n]) == StreamChunks(read, T, cs[..k])
  {
    assert cs[..n][..k] == cs[..k];
    StreamStopsAtRaise(read, T, cs[..n], k);
  }

  /** The loop of `write_dataset_values` over the size / m full chunks. */
  method WriteFullChunks<R>(f: GdfFile, read: (nat, nat) -> seq<R>, T: R -> Double, size: nat, m: nat)
    returns (st: Status)
    requires m > 0
    modifies f
    ensures size / m < |Chunks(size, m)|
    ensures f.bytes == old(f.bytes) + StreamChunks(read, T, Chunks(size, m)[..size / m]).out
    ensures st == StreamChunks(read, T, Chunks(size, m)[..size / m]).status
  {
    var numberCells := size / m;
    ChunkAt(size, m, numberCells);
    ghost var start := f.bytes;
    st := Ok;
    for i := 1 to numberCells + 1
      invariant StreamChunks(read, T, Chunks(size, m)[..i - 1]).status == Ok && st == Ok
      invariant f.bytes == start + StreamChunks(read, T, Chunks(size, m)[..i - 1]).out
    {
      var idxStart := (i - 1) * m;
      FullChunkStep(read, T, size, m, i - 1);
      Appended(start, StreamChunks(read, T, Chunks(size, m)[..i - 1]), PackChunk(read, T, Chunk(idxStart, m)));
      st := WriteChunk(f, read, T, idxStart, m);
      if st.Raised? {
        PrefixStopsAtRaise(read, T, Chunks(size, m), i, numberCells);
        return;
      }
    }
  }

  /** The stream is the full chunks, then the remainder chunk. */
  lemma StreamLast<R>(read: (nat, nat) -> seq<R>, T: R -> Double, size: nat, m: nat)
    requires m > 0
    ensures (size / m) * m <= size
    ensures StreamValues(read, T, size, m)
      == Then(StreamChunks(read, T, Chunks(size, m)[..size / m]), PackChunk(read, T, Chunk((size / m) * m, size - (size / m) * m)))
  {
    var cs := Chunks(size, m);
    DivBounds(size, m);
    ChunkAt(size, m, size / m);
    StreamSnoc(read, T, cs, size / m);
    assert cs[..size / m + 1] == cs;
  }

  method WriteDatasetValues<R>(f: GdfFile, read: (nat, nat) -> seq<R>, T: R -> Double, size: nat, m: nat)
    returns (st: Status)
    modifies f
    ensures f.bytes == old(f.bytes) + StreamValues(read, T, size, m).out
    ensures st == StreamValues(read, T, size, m).status
  {
    if m == 0 {
      return Raised(ZeroDivision);
    }
    var numberCells := size / m;
    StreamLast(read, T, size, m);
    ghost var start := f.bytes;
    ghost var full := StreamChunks(read, T, Chunks(size, m)[..numberCells]);
    st := WriteFullChunks(f, read, T, size, m);
    if st.Raised? {
      return;
    }
    var idxStart := numberCells * m;
    var lastCellSize := size - numberCells * m;
    Appended(start, full, PackChunk(read, T, Chunk(idxStart, lastCellSize)));
    st := WriteChunk(f, read, T, idxStart, lastCellSize);
  }

  // ---------------------------------------------------------------- chunking is invisible

  /** The reader returns exactly the requested slice of src whenever that slice lies within src. */
  ghost predicate ReadsFrom<R>(read: (nat, nat) -> seq<R>, src: seq<R>) {
    forall lo: nat, hi: nat :: lo <= hi <= |src| ==> read(lo, hi) == src[lo..hi]
  }

  lemma ContiguousInit(cs: seq<Chunk>)
    requires Contiguous(cs) && cs != []
    ensures Contiguous(cs[..|cs| - 1]) && Covered(cs[..|cs| - 1]) == cs[|cs| - 1].start
  {
  }

  /** A faithful reader packs a chunk inside src as the encoded transformed slice. */
  lemma PackChunkReadsFrom<R>(read: (nat, nat) -> seq<R>, T: R -> Double, src: seq<R>, c: Chunk)
    requires ReadsFrom(read, src) && c.End() <= |src|
    ensures PackChunk(read, T, c) == Done(EncodeDoubles(Map(T, src[c.start..c.End()])))
  {
    assert read(c.start, c.End()) == src[c.start..c.End()];
  }

  /** Encoding the transformed prefix up to lo, then the slice [lo, hi), encodes the prefix up to hi. */
  lemma EncodeSplit<R>(T: R -> Double, src: seq<R>, lo: nat, hi: nat)
    requires lo <= hi <= |src|
    ensures EncodeDoubles(Map(T, src[..lo])) + EncodeDoubles(Map(T, src[lo..hi])) == EncodeDoubles(Map(T, src[..hi]))
  {
    assert src[..hi] == src[..lo] + src[lo..hi];
    MapAppend(T, src[..lo], src[lo..hi]);
    EncodeDoublesAppend(Map(T, src[..lo]), Map(T, src[lo..hi]));
  }

  lemma {:induction false} StreamContiguous<R>(read: (nat, nat) -> seq<R>, T: R -> Double, src: seq<R>, cs: seq<Chunk>)
    requires ReadsFrom(read, src)
    requires Contiguous(cs) && Covered(cs) <= |src|
    ensures StreamChunks(read, T, cs) == Done(EncodeDoubles(Map(T, src[..Covered(cs)])))
  {
    if cs != [] {
      var init, c := cs[..|cs| - 1], cs[|cs| - 1];
      ContiguousInit(cs);
      StreamContiguous(read, T, src, init);
      PackChunkReadsFrom(read, T, src, c);
      EncodeSplit(T, src, c.start, c.End());
    }
  }

  /**
   * Streaming a faithful reader with any chunk size m > 0 writes exactly the
   * transformed source values, in source order, and completes.
   */
  lemma StreamingWritesAllValues<R>(read: (nat, nat) -> seq<R>, T: R -> Double, src: seq<R>, m: nat)
    requires m > 0 && ReadsFrom(read, src)
    ensures StreamValues(read, T, |src|, m) == Done(EncodeDoubles(Map(T, src)))
  {
    ChunksPartition(|src|, m);
    StreamContiguous(read, T, src, Chunks(|src|, m));
    assert src[..|src|] == src;
  }

  /** The output does not depend on the chunk size, and equals reading everything in one chunk. */
  lemma ChunkingIsInvisible<R>(read: (nat, nat) -> seq<R>, T: R -> Double, src: seq<R>, m1: nat, m2: nat)
    requires m1 > 0 && m2 > 0 && ReadsFrom(read, src)
    ensures StreamValues(read, T, |src|, m1) == StreamValues(read, T, |src|, m2)
    ensures |src| > 0 ==> StreamValues(read, T, |src|, m1) == StreamValues(read, T, |src|, |src|)
  {
    StreamingWritesAllValues(read, T, src, m1);
    StreamingWritesAllValues(read, T, src, m2);
    if |src| > 0 {
      StreamingWritesAllValues(read, T, src, |src|);
    }
  }

  /** A zero chunk size raises at the chunk count, before anything is written. */
  lemma ZeroChunkSizeWritesNothing<R>(read: (nat, nat) -> seq<R>, T: R -> Double, size: nat)
    ensures StreamValues(read, T, size, 0) == Fail(ZeroDivision)
  {
  }

  // ---------------------------------------------------------------- readers

  /** The value itself, for datasets written without a unit conversion. */
  function Identity(d: Double): Double {
    d
  }

  lemma {:induction false} MapIdentity(s: seq<Double>)
    ensures Map(Identity, s) == s
  {
    if s != [] {
      MapIdentity(s[..|s| - 1]);
    }
  }

  /** A reader returning the Python slice `src[lo:hi]` of one stored record component. */
  function SliceReader<R>(src: seq<R>): (nat, nat) -> seq<R> {
    (lo: nat, hi: nat) => PySlice(src, lo, hi)
  }

  lemma SliceReaderReadsFrom<R>(src: seq<R>)
    ensures ReadsFrom(SliceReader(src), src)
  {
    forall lo: nat, hi: nat | lo <= hi <= |src| ensures SliceReader(src)(lo, hi) == src[lo..hi] {
      if lo == hi {
        assert src[lo..hi] == [];
      }
    }
  }

  /** Python's `list(zip(a, b))`: pairs up to the shorter of the two. */
  function Zip<A, B>(a: seq<A>, b: seq<B>): (r: seq<(A, B)>)
    ensures |r| == if |a| < |b| then |a| else |b|
    ensures forall i :: 0 <= i < |r| ==> r[i] == (a[i], b[i])
  {
    if a == [] || b == [] then [] else [(a[0], b[0])] + Zip(a[1..], b[1..])
  }

  /** `Read_coordinate`: the position slice zipped with the position-offset slice. */
  function CoordinateReader(position: seq<Double>, offset: seq<Double>): (nat, nat) -> seq<(Double, Double)> {
    (lo: nat, hi: nat) => Zip(PySlice(position, lo, hi), PySlice(offset, lo, hi))
  }

  lemma CoordinateReaderReadsFrom(position: seq<Double>, offset: seq<Double>)
    ensures ReadsFrom(CoordinateReader(position, offset), Zip(position, offset))
  {
    var z := Zip(position, offset);
    forall lo: nat, hi: nat | lo <= hi <= |z| ensures CoordinateReader(position, offset)(lo, hi) == z[lo..hi] {
      var r := CoordinateReader(position, offset)(lo, hi);
      assert |r| == hi - lo;
      forall i | 0 <= i < hi - lo ensures r[i] == z[lo..hi][i] {
      }
    }
  }

  /** `[value] * n`: n copies, none when n is not positive. */
  function Repeat(value: Double, n: int): (r: seq<Double>)
    ensures |r| == if n < 0 then 0 else n
    ensures forall i :: 0 <= i < |r| ==> r[i] == value
  {
    if n <= 0 then [] else Repeat(value, n - 1) + [value]
  }

  /** The broadcast of one value: every chunk is `[value] * count`. */
  function ConstReader(value: Double): (nat, nat) -> seq<Double> {
    (lo: nat, hi: nat) => Repeat(value, hi - lo)
  }

  lemma ConstReaderReadsFrom(value: Double, size: nat)
    ensures ReadsFrom(ConstReader(value), Repeat(value, size))
  {
    var src := Repeat(value, size);
    forall lo: nat, hi: nat | lo <= hi <= |src| ensures ConstReader(value)(lo, hi) == src[lo..hi] {
    }
  }

  // ---------------------------------------------------------------- a short offset record

  /** The number of elements in the whole chunks of a range of `len` elements. */
  function WholeChunks(len: nat, m: nat): (r: nat)
    requires m > 0
    ensures r <= len < r + m
  {
    DivBounds(len, m);
    (len / m) * m
  }

  lemma {:induction false} MulMonotone(x: nat, y: nat, m: nat)
    requires y <= x
    ensures y * m <= x * m
    decreases x - y
  {
    if y < x {
      MulMonotone(x, y + 1, m);
      assert (y + 1) * m == y * m + m;
    }
  }

  lemma DivMonotone(a: nat, b: nat, m: nat)
    requires m > 0 && a <= b
    ensures a / m <= b / m
  {
    var p, q := a / m, b / m;
    assert p * m <= a by { DivBounds(a, m); }
    assert b < q * m + m by { DivBounds(b, m); }
    if p > q {
      MulMonotone(p, q + 1, m);
    }
  }

  /** The chunk holding index x is chunk number x / m, and the chunks before it cover WholeChunks(x, m). */
  lemma ChunkOfIndex(size: nat, m: nat, x: nat)
    requires m > 0 && x < size
    ensures x / m < |Chunks(size, m)|
    ensures Contiguous(Chunks(size, m)[..x / m])
    ensures Covered(Chunks(size, m)[..x / m]) == WholeChunks(x, m)
    ensures Chunks(size, m)[x / m].start <= x < Chunks(size, m)[x / m].End()
  {
    var k := x / m;
    var cs := Chunks(size, m);
    DivMonotone(x, size, m);
    ChunksPartition(size, m);
    ChunkAt(size, m, k);
    assert cs[k].start == k * m;
    if k > 0 {
      ChunkAt(size, m, k - 1);
      assert (k - 1) * m + m == k * m;
      assert Covered(cs[..k]) == cs[k - 1].End();
    }
    assert WholeChunks(x, m) == k * m;
    DivBounds(x, m);
    DivBounds(size, m);
  }

  /** A reader that returns too few elements for every range reaching past index n. */
  ghost predicate RunsShortAfter<R>(read: (nat, nat) -> seq<R>, n: nat) {
    forall lo: nat, hi: nat :: lo <= n < hi ==> |read(lo, hi)| < hi - lo
  }

  /** `zip` stops at the shorter slice, so reading past the offsets returns too few pairs. */
  lemma CoordinateReaderRunsShort(position: seq<Double>, offset: seq<Double>)
    ensures RunsShortAfter(CoordinateReader(position, offset), |offset|)
  {
    forall lo: nat, hi: nat | lo <= |offset| < hi
      ensures |CoordinateReader(position, offset)(lo, hi)| < hi - lo
    {
      assert |PySlice(offset, lo, hi)| == |offset| - lo;
    }
  }

  /**
   * A reader faithful to src that runs short past it, asked for size > |src| values:
   * the chunks before the one holding index |src| are written in full, then packing
   * that chunk raises.
   */
  lemma {:induction false} ShortReadRaises<R>(read: (nat, nat) -> seq<R>, T: R -> Double, src: seq<R>, size: nat, m: nat)
    requires m > 0 && |src| < size
    requires ReadsFrom(read, src) && RunsShortAfter(read, |src|)
    ensures StreamValues(read, T, size, m)
      == Emission(EncodeDoubles(Map(T, src[..WholeChunks(|src|, m)])), Raised(ItemCount))
  {
    FullChunksBeforeShort(read, T, src, size, m);
    ShortChunkRaises(read, T, src, size, m);
    StreamStopsAt(read, T, size, m, |src| / m, EncodeDoubles(Map(T, src[..WholeChunks(|src|, m)])), ItemCount);
  }

  lemma FullChunksBeforeShort<R>(read: (nat, nat) -> seq<R>, T: R -> Double, src: seq<R>, size: nat, m: nat)
    requires m > 0 && |src| < size && ReadsFrom(read, src)
    ensures |src| / m < |Chunks(size, m)|
    ensures StreamChunks(read, T, Chunks(size, m)[..|src| / m]) == Done(EncodeDoubles(Map(T, src[..WholeChunks(|src|, m)])))
  {
    ChunkOfIndex(size, m, |src|);
    StreamContiguous(read, T, src, Chunks(size, m)[..|src| / m]);
  }

  lemma ShortChunkRaises<R>(read: (nat, nat) -> seq<R>, T: R -> Double, src: seq<R>, size: nat, m: nat)
    requires m > 0 && |src| < size && RunsShortAfter(read, |src|)
    ensures |src| / m < |Chunks(size, m)|
    ensures PackChunk(read, T, Chunks(size, m)[|src| / m]) == Fail(ItemCount)
  {
    ChunkOfIndex(size, m, |src|);
    var c := Chunks(size, m)[|src| / m];
    assert |read(c.start, c.End())| < c.count;
  }

  /** A stream whose chunk k raises is the chunks before it, then that fault. */
  lemma StreamStopsAt<R>(read: (nat, nat) -> seq<R>, T: R -> Double, size: nat, m: nat, k: nat, written: seq<byte>, fault: Fault)
    requires m > 0 && k < |Chunks(size, m)|
    requires StreamChunks(read, T, Chunks(size, m)[..k]) == Done(written)
    requires PackChunk(read, T, Chunks(size, m)[k]) == Fail(fault)
    ensures StreamValues(read, T, size, m) == Emission(written, Raised(fault))
  {
    var cs := Chunks(size, m);
    StreamSnoc(read, T, cs, k);
    StreamStopsAtRaise(read, T, cs, k + 1);
  }

  /**
   * When the position-offset component holds fewer values than the position component,
   * the chunk that reaches past the offsets gets too few pairs from `zip`, so packing it
   * raises; every chunk before it has already been written, complete and transformed.
   */
  lemma ShortOffsetRaises(position: seq<Double>, offset: seq<Double>, T: ((Double, Double)) -> Double, m: nat)
    requires m > 0 && |offset| < |position|
    ensures StreamValues(CoordinateReader(position, offset), T, |position|, m)
      == Emission(EncodeDoubles(Map(T, Zip(position, offset)[..WholeChunks(|offset|, m)])), Raised(ItemCount))
  {
    CoordinateReaderReadsFrom(position, offset);
    CoordinateReaderRunsShort(position, offset);
    ShortReadRaises(CoordinateReader(position, offset), T, Zip(position, offset), |position|, m);
  }

  // ---------------------------------------------------------------- array blocks

  /**
   * The header of a double-array block: the name field, the tag 2051 and the byte
   * length `8 * size`. A name the table does not have is None, and writing it raises
   * (`len(None)` in the padding loop) before anything is written.
   */
  function ArrayHeader(name: Option<string>, size: nat): Emission {
    match name
    case None => Fail(NoName)
    case Some(n) => Then(DatasetHeader(n), Int32Field(8 * size))
  }

  method WriteArrayHeader(f: GdfFile, name: Option<string>, size: nat) returns (st: Status)
    modifies f
    ensures f.bytes == old(f.bytes) + ArrayHeader(name, size).out && st == ArrayHeader(name, size).status
  {
    if name.None? {
      return Raised(NoName);
    }
    ghost var start := f.bytes;
    st := WriteDatasetHeader(f, name.value);
    if st.Raised? { return; }
    Appended(start, DatasetHeader(name.value), Int32Field(8 * size));
    st := WriteInt32(f, 8 * size);
  }

  /** A whole double-array block: its header, then the values streamed in chunks. */
  function ArrayBlock<R>(name: Option<string>, size: nat, read: (nat, nat) -> seq<R>, T: R -> Double, m: nat): Emission {
    Then(ArrayHeader(name, size), StreamValues(read, T, size, m))
  }

  /** The 24 header bytes of an array block whose name is ASCII and at most sixteen characters. */
  lemma ArrayHeaderLayout(name: string, size: nat)
    requires AllAscii(name) && |name| <= GDFNAMELEN && FitsInt32(8 * size)
    ensures ArrayHeader(Some(name), size) == Done(NameField(name).out + PackInt32(ARRAY_DOUBLE_TAG) + PackInt32(8 * size))
    ensures |ArrayHeader(Some(name), size).out| == 24
  {
    NameFieldOfAscii(name);
  }

  /** The bytes of an array block: 24 header bytes whose length field announces the payload that follows, which decodes to values. */
  ghost predicate ArrayBlockDecodes(out: seq<byte>, values: seq<Double>) {
    && |out| == 24 + 8 * |values|
    && UnpackInt32(out[20..24]) == 8 * |values|
    && DecodeDoubles(out[24..]) == values
  }

  /**
   * A double-array block read faithfully from src, with any chunk size m > 0, is the
   * 16-byte name, the tag 2051, the length 8 * |src|, and exactly that many payload
   * bytes, which decode to the transformed values in source order.
   */
  lemma ArrayBlockLayout<R>(name: string, read: (nat, nat) -> seq<R>, T: R -> Double, src: seq<R>, m: nat)
    requires AllAscii(name) && |name| <= GDFNAMELEN && FitsInt32(8 * |src|)
    requires m > 0 && ReadsFrom(read, src)
    ensures ArrayBlock(Some(name), |src|, read, T, m)
      == Done(NameField(name).out + PackInt32(ARRAY_DOUBLE_TAG) + PackInt32(8 * |src|) + EncodeDoubles(Map(T, src)))
    ensures ArrayBlockDecodes(ArrayBlock(Some(name), |src|, read, T, m).out, Map(T, src))
  {
    ArrayHeaderLayout(name, |src|);
    StreamingWritesAllValues(read, T, src, m);
    var header := NameField(name).out + PackInt32(ARRAY_DOUBLE_TAG) + PackInt32(8 * |src|);
    var out := header + EncodeDoubles(Map(T, src));
    assert out[20..24] == PackInt32(8 * |src|);
    assert out[24..] == EncodeDoubles(Map(T, src));
    Int32RoundTrip(8 * |src|);
    DoublesRoundTrip(Map(T, src));
  }

  /** The length field precedes the payload: a zero chunk size raises after the header, before any value. */
  lemma ArrayBlockZeroCellSize<R>(name: string, size: nat, read: (nat, nat) -> seq<R>, T: R -> Double)
    requires AllAscii(name) && |name| <= GDFNAMELEN && FitsInt32(8 * size)
    ensures ArrayBlock(Some(name), size, read, T, 0)
      == Emission(NameField(name).out + PackInt32(ARRAY_DOUBLE_TAG) + PackInt32(8 * size), Raised(ZeroDivision))
  {
    ArrayHeaderLayout(name, size);
  }

  /** A length 8 * size outside int32 raises once the name and tag are written, before any value. */
  lemma ArrayBlockTooLong<R>(name: string, size: nat, read: (nat, nat) -> seq<R>, T: R -> Double, m: nat)
    requires AllAscii(name) && |name| <= GDFNAMELEN && !FitsInt32(8 * size)
    ensures ArrayBlock(Some(name), size, read, T, m)
      == Emission(NameField(name).out + PackInt32(ARRAY_DOUBLE_TAG), Raised(OutOfRange))
  {
    NameFieldOfAscii(name);
  }

  /**
   * A broadcast block (`write_double_dataset_values`) holds exactly `size` copies of
   * the value, whatever the chunk size.
   */
  lemma BroadcastWritesCopies(name: string, size: nat, value: Double, m: nat)
    requires AllAscii(name) && |name| <= GDFNAMELEN && FitsInt32(8 * size) && m > 0
    ensures ArrayBlock(Some(name), size, ConstReader(value), Identity, m)
      == Done(NameField(name).out + PackInt32(ARRAY_DOUBLE_TAG) + PackInt32(8 * size) + EncodeDoubles(Repeat(value, size)))
  {
    ConstReaderReadsFrom(value, size);
    ArrayBlockLayout(name, ConstReader(value), Identity, Repeat(value, size), m);
    MapIdentity(Repeat(value, size));
  }
}
