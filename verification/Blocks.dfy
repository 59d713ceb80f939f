/**
 The blocks of a file body as values: a dirty-block map, a one-block decode cache and stored blocks that
 may run past the end of the file, and what each change to them does to the bytes the file shows.
 */
module FileBlocks {
  import opened Common

  const CHUNK_SIZE: nat := 1048576

  function BlockCount(size: nat): nat {
    (size + CHUNK_SIZE - 1) / CHUNK_SIZE
  }

  /** The logical length of a block in a file of this size. */
  function ValidLen(size: nat, idx: nat): nat {
    if idx * CHUNK_SIZE >= size then 0 else Min(size - idx * CHUNK_SIZE, CHUNK_SIZE)
  }

  /** A byte of a buffer whose missing end reads as zeros. */
  function At(s: Bytes, w: nat): byte {
    if w < |s| then s[w] else 0
  }

  function Take(s: Bytes, n: nat): Bytes {
    if n < |s| then s[..n] else s
  }

  /** `Vec::resize` with zeros, when growing. */
  function Grown(s: Bytes, n: nat): (r: Bytes)
    ensures |r| == Max(|s|, n)
    ensures forall w: nat :: At(r, w) == At(s, w)
  {
    if |s| < n then s + seq(n - |s|, i => 0) else s
  }

  function Fitted(s: Bytes, n: nat): (r: Bytes)
    ensures |r| == n
    ensures forall w: nat :: w < n ==> At(r, w) == At(s, w)
  {
    Grown(Take(s, n), n)
  }

  // ----- Block bodies -----

  datatype Cached = Cached(idx: nat, bytes: Bytes)

  /** The in-memory and stored blocks of one file. */
  datatype Blocks = Blocks(dirty: map<nat, Bytes>, cached: Option<Cached>, stored: map<nat, Bytes>)

  function StoredBlock(b: Blocks, idx: nat): Bytes {
    if idx in b.stored then b.stored[idx] else []
  }

  /** The newest copy of a block. */
  function Newest(b: Blocks, idx: nat): Bytes {
    if idx in b.dirty then b.dirty[idx] else StoredBlock(b, idx)
  }

  /** The copy of a block a read gets. */
  function BlockOf(b: Blocks, idx: nat): Bytes {
    if idx in b.dirty then b.dirty[idx]
    else if b.cached.Some? && b.cached.value.idx == idx then b.cached.value.bytes
    else StoredBlock(b, idx)
  }

  function Raw(b: Blocks, p: nat): byte {
    At(BlockOf(b, p / CHUNK_SIZE), p % CHUNK_SIZE)
  }

  ghost predicate SameBytes(b: Blocks, b': Blocks) {
    forall p: nat :: Raw(b', p) == Raw(b, p)
  }

  /** Only dirty blocks moved, each into the store as it was. */
  ghost predicate OnlySpills(b: Blocks, b': Blocks) {
    && b'.cached == b.cached
    && (forall k: nat :: Newest(b', k) == Newest(b, k))
    && (forall k: nat :: k !in b.dirty ==> k !in b'.dirty && StoredBlock(b', k) == StoredBlock(b, k))
  }

  /** A block is never both dirty and cached, and a cached block is as stored. */
  predicate Safe(b: Blocks) {
    b.cached.Some? ==> b.cached.value.idx !in b.dirty && b.cached.value.bytes == StoredBlock(b, b.cached.value.idx)
  }

  /** The cached copy is the newest, so dropping a dirty copy that has been stored is harmless. */
  predicate Coherent(b: Blocks) {
    b.cached.Some? ==> b.cached.value.bytes == Newest(b, b.cached.value.idx)
  }

  /** A cached copy that is not as stored is out of sight, behind a dirty copy of its block. */
  predicate Hidden(b: Blocks) {
    b.cached.Some? ==> b.cached.value.idx in b.dirty || b.cached.value.bytes == StoredBlock(b, b.cached.value.idx)
  }

  /** No dirty block runs past the end of the file. */
  ghost predicate Fits(b: Blocks, size: nat) {
    && (forall idx :: idx in b.dirty ==> |b.dirty[idx]| <= ValidLen(size, idx))
    && (b.cached.Some? ==> b.cached.value.idx < BlockCount(size))
  }

  /** Writing out one dirty block and dropping it, as the write buffer does when it is full. */
  function Spilled(b: Blocks, size: nat, idx: nat): Blocks
    requires idx in b.dirty
  {
    Blocks(b.dirty - {idx}, b.cached, b.stored[idx := Take(b.dirty[idx], ValidLen(size, idx))])
  }

  lemma SpillKeepsRaw(b: Blocks, size: nat, idx: nat)
    requires Fits(b, size) && idx in b.dirty
    ensures var b' := Spilled(b, size, idx);
            && Fits(b', size)
            && b'.stored[idx] == b.dirty[idx]
            && OnlySpills(b, b')
            && (Safe(b) ==> Safe(b') && SameBytes(b, b'))
            && (Hidden(b) && !(b.cached.Some? && b.cached.value.idx == idx && b.cached.value.bytes != b.dirty[idx]) ==>
                  Hidden(b') && SameBytes(b, b'))
  {
  }

  /**
   Spilling a block leaves every byte of the file as it reads exactly when the block's cached
   copy, if it has one, shows the same bytes. Overwriting a whole cached chunk breaks this: the
   stale copy stays cached and shows through once the dirty one is spilled.
   */
  lemma SpillVisible(b: Blocks, size: nat, idx: nat)
    requires Fits(b, size) && idx in b.dirty
    ensures (forall p: nat :: p < size ==> Raw(Spilled(b, size, idx), p) == Raw(b, p))
            <==> (b.cached.Some? && b.cached.value.idx == idx ==>
                    forall w: nat :: w < ValidLen(size, idx) ==> At(b.cached.value.bytes, w) == At(b.dirty[idx], w))
  {
    var b' := Spilled(b, size, idx);
    if b.cached.Some? && b.cached.value.idx == idx {
      if forall p: nat :: p < size ==> Raw(b', p) == Raw(b, p) {
        forall w: nat | w < ValidLen(size, idx)
          ensures At(b.cached.value.bytes, w) == At(b.dirty[idx], w)
        {
          var p := idx * CHUNK_SIZE + w;
          assert p / CHUNK_SIZE == idx && p % CHUNK_SIZE == w;
          assert Raw(b', p) == Raw(b, p);
        }
      } else {
        var p: nat :| p < size && Raw(b', p) != Raw(b, p);
        assert p / CHUNK_SIZE == idx;
      }
    } else {
      SpillKeepsRaw(b, size, idx);
    }
  }

  lemma SpillsCompose(a: Blocks, b: Blocks, c: Blocks)
    requires OnlySpills(a, b) && OnlySpills(b, c)
    ensures OnlySpills(a, c)
    ensures SameBytes(a, b) && SameBytes(b, c) ==> SameBytes(a, c)
  {
  }

  /** Decoding a block into the cache when it is neither dirty nor cached. */
  function Loaded(b: Blocks, idx: nat): Blocks {
    if idx in b.dirty || (b.cached.Some? && b.cached.value.idx == idx) then b
    else b.(cached := Some(Cached(idx, StoredBlock(b, idx))))
  }

  lemma LoadKeepsRaw(b: Blocks, size: nat, idx: nat)
    requires Hidden(b)
    ensures Hidden(Loaded(b, idx)) && BlockOf(Loaded(b, idx), idx) == BlockOf(b, idx)
    ensures Safe(b) ==> Safe(Loaded(b, idx))
    ensures SameBytes(b, Loaded(b, idx)) && Loaded(b, idx).dirty == b.dirty
    ensures Fits(b, size) && idx < BlockCount(size) ==> Fits(Loaded(b, idx), size)
  {
  }

  // ----- Writing one piece -----

  function Evicted(cached: Option<Cached>, idx: nat): Option<Cached> {
    if cached.Some? && cached.value.idx == idx then None else cached
  }

  /** Whether a write of `take` bytes at `within` replaces the block without reading it. */
  predicate Replaces(size: nat, idx: nat, within: nat, take: nat) {
    ValidLen(size, idx) == 0 || (within == 0 && take == CHUNK_SIZE)
  }

  /** The block a partial write starts from. */
  function Base(b: Blocks, size: nat, idx: nat, within: nat, take: nat): Bytes {
    if idx in b.dirty then b.dirty[idx]
    else if Replaces(size, idx, within, take) then []
    else if b.cached.Some? && b.cached.value.idx == idx then Take(b.cached.value.bytes, ValidLen(size, idx))
    else Take(StoredBlock(b, idx), ValidLen(size, idx))
  }

  function Placed(base: Bytes, within: nat, piece: Bytes): (r: Bytes)
    ensures |r| == Max(|base|, within + |piece|)
    ensures forall w: nat :: At(r, w) == if within <= w < within + |piece| then piece[w - within] else At(base, w)
  {
    var grown := Grown(base, within + |piece|);
    grown[..within] + piece + grown[within + |piece|..]
  }

  function WroteBlock(b: Blocks, size: nat, idx: nat, within: nat, piece: Bytes): Blocks {
    Blocks(b.dirty[idx := Placed(Base(b, size, idx, within, |piece|), within, piece)],
           if idx in b.dirty || Replaces(size, idx, within, |piece|) then b.cached else Evicted(b.cached, idx),
           b.stored)
  }

  /** Where the chunk a position falls in starts. */
  function Floor(pos: nat): (r: nat)
    ensures r <= pos
  {
    pos / CHUNK_SIZE * CHUNK_SIZE
  }

  /** Nothing stale lies between the end of the file and `upto`. */
  ghost predicate Blank(b: Blocks, size: nat, upto: nat) {
    forall p: nat :: size <= p < upto ==> Raw(b, p) == 0
  }

  lemma WriteOneFits(b: Blocks, size: nat, idx: nat, within: nat, piece: Bytes)
    requires Fits(b, size) && 0 < |piece| && within + |piece| <= CHUNK_SIZE
    ensures Fits(WroteBlock(b, size, idx, within, piece), Max(size, idx * CHUNK_SIZE + within + |piece|))
  {
    var size' := Max(size, idx * CHUNK_SIZE + within + |piece|);
    assert forall k: nat :: ValidLen(size, k) <= ValidLen(size', k);
    assert |Base(b, size, idx, within, |piece|)| <= ValidLen(size, idx);
  }

  /** A byte of the block a piece is written into. */
  lemma WriteInBlock(b: Blocks, size: nat, idx: nat, within: nat, piece: Bytes, w: nat)
    requires Fits(b, size) && 0 < |piece| && within + |piece| <= CHUNK_SIZE && w < CHUNK_SIZE
    requires !(within <= w < within + |piece|)
    ensures At(Base(b, size, idx, within, |piece|), w) == if w < ValidLen(size, idx) then At(BlockOf(b, idx), w) else 0
  {
  }

  /** One piece of a write changes exactly its own bytes; the file grows with zeros up to it. */
  lemma WriteOneRaw(b: Blocks, size: nat, idx: nat, within: nat, piece: Bytes, p: nat)
    requires Fits(b, size) && 0 < |piece| && within + |piece| <= CHUNK_SIZE
    requires Blank(b, size, idx * CHUNK_SIZE)
    requires p < Max(size, idx * CHUNK_SIZE + within + |piece|)
    ensures Raw(WroteBlock(b, size, idx, within, piece), p)
         == if idx * CHUNK_SIZE + within <= p < idx * CHUNK_SIZE + within + |piece| then piece[p - idx * CHUNK_SIZE - within]
            else if p < size then Raw(b, p) else 0
  {
    hide Base, Fits, Replaces;
    var b' := WroteBlock(b, size, idx, within, piece);
    var k, w := p / CHUNK_SIZE, p % CHUNK_SIZE;
    if k == idx {
      if !(within <= w < within + |piece|) {
        WriteInBlock(b, size, idx, within, piece, w);
      }
    } else {
      assert BlockOf(b', k) == BlockOf(b, k);
    }
  }

  // ----- What growth leaves behind -----

  /** The block at the end of the file does not run past it. */
  predicate Trimmed(b: Blocks, size: nat) {
    size % CHUNK_SIZE != 0 ==> |BlockOf(b, size / CHUNK_SIZE)| <= size % CHUNK_SIZE
  }

  /** No block is stored between the end of the file and the end of a file of `upto` bytes. */
  ghost predicate Vacant(b: Blocks, size: nat, upto: nat) {
    forall k: nat :: BlockCount(size) <= k < BlockCount(upto) ==> k !in b.stored
  }

  lemma GrowthIsBlank(b: Blocks, size: nat, upto: nat)
    requires Fits(b, size) && Trimmed(b, size) && Vacant(b, size, upto)
    ensures Blank(b, size, upto)
  {
    forall p: nat | size <= p < upto
      ensures Raw(b, p) == 0
    {
      var k, w := p / CHUNK_SIZE, p % CHUNK_SIZE;
      if k != size / CHUNK_SIZE || size % CHUNK_SIZE == 0 {
        assert BlockCount(size) <= k < BlockCount(upto);
      }
    }
  }

  // ----- Dropping the dirty copy -----

  /** The file's bytes, given its size. */
  function Visible(b: Blocks, size: nat): (r: Bytes)
    ensures |r| == size && forall p :: 0 <= p < size ==> r[p] == Raw(b, p)
  {
    seq(size, p requires 0 <= p < size => Raw(b, p))
  }

  /** The first `n` bytes of `buf` land at `offset`; a write past the end leaves zeros between. */
  function Spliced(f: Bytes, offset: nat, buf: Bytes): (r: Bytes)
    ensures |r| == if buf == [] then |f| else Max(|f|, offset + |buf|)
    ensures forall p :: 0 <= p < |r| ==> r[p] == if offset <= p < offset + |buf| then buf[p - offset] else At(f, p)
  {
    if buf == [] then f
    else seq(Max(|f|, offset + |buf|), p requires 0 <= p => if offset <= p < offset + |buf| then buf[p - offset] else At(f, p))
  }

  lemma SpliceMore(f: Bytes, offset: nat, buf: Bytes, n: nat, m: nat, g: Bytes)
    requires n <= m <= |buf| && n < m
    requires |g| == Max(|Spliced(f, offset, buf[..n])|, offset + m)
    requires forall p :: 0 <= p < |g| ==>
               g[p] == if offset + n <= p < offset + m then buf[p - offset] else At(Spliced(f, offset, buf[..n]), p)
    ensures g == Spliced(f, offset, buf[..m])
  {
  }

  /** Whether a write replaces the whole cached block. */
  predicate Covers(b: Blocks, offset: nat, len: nat) {
    b.cached.Some? && offset <= b.cached.value.idx * CHUNK_SIZE && (b.cached.value.idx + 1) * CHUNK_SIZE <= offset + len
  }

  /** Whether a write replaces the whole cached block with other bytes. */
  predicate Clobbers(b: Blocks, buf: Bytes, offset: nat) {
    Covers(b, offset, |buf|)
    && buf[b.cached.value.idx * CHUNK_SIZE - offset..(b.cached.value.idx + 1) * CHUNK_SIZE - offset] != b.cached.value.bytes
  }

  /**
   Overwriting a whole cached block and then spilling it brings the old bytes back: the block
   reads as its cached copy again, so the write survives exactly when it changed nothing.
   */
  lemma OverwriteThenSpill(b: Blocks, size: nat, idx: nat, piece: Bytes)
    requires Fits(b, size) && Safe(b) && b.cached.Some? && b.cached.value.idx == idx && |piece| == CHUNK_SIZE
    ensures var written := WroteBlock(b, size, idx, 0, piece);
            && BlockOf(written, idx) == piece
            && BlockOf(Spilled(written, Max(size, (idx + 1) * CHUNK_SIZE), idx), idx) == b.cached.value.bytes
            && (Coherent(written) <==> piece == b.cached.value.bytes)
  {
    WholeBlock(b, size, idx, piece);
  }

  /** A two-chunk file whose cached first chunk is overwritten and spilled reads its old bytes. */
  lemma StaleRead() returns (b: Blocks, piece: Bytes)
    ensures var size := 2 * CHUNK_SIZE;
            && Fits(b, size) && Safe(b) && |piece| == CHUNK_SIZE
            && Raw(WroteBlock(b, size, 0, 0, piece), 7) == 1
            && Raw(Spilled(WroteBlock(b, size, 0, 0, piece), size, 0), 7) == 0
  {
    var was := seq(CHUNK_SIZE, i => 0 as byte);
    b := Blocks(map[], Some(Cached(0, was)), map[0 := was]);
    piece := seq(CHUNK_SIZE, i => 1 as byte);
    OverwriteThenSpill(b, 2 * CHUNK_SIZE, 0, piece);
    assert Raw(WroteBlock(b, 2 * CHUNK_SIZE, 0, 0, piece), 7) == At(BlockOf(WroteBlock(b, 2 * CHUNK_SIZE, 0, 0, piece), 0), 7);
  }

  /** The state of the cached block while a write runs over it. */
  ghost predicate Tracked(b: Blocks, before: Blocks, buf: Bytes, offset: nat, written: nat)
    requires written <= |buf|
  {
    if b.cached.None? then !Covers(before, offset, |buf|)
    else
      && b.cached == before.cached
      && (if Covers(before, offset, written)
          then Newest(b, b.cached.value.idx)
            == buf[b.cached.value.idx * CHUNK_SIZE - offset..(b.cached.value.idx + 1) * CHUNK_SIZE - offset]
          else && b.cached.value.idx !in b.dirty
               && StoredBlock(b, b.cached.value.idx) == b.cached.value.bytes
               && (written == 0 || (b.cached.value.idx + 1) * CHUNK_SIZE <= offset
                   || offset + written <= b.cached.value.idx * CHUNK_SIZE))
  }

  /** A whole-chunk write puts exactly its own bytes in the block. */
  lemma WholeBlock(b: Blocks, size: nat, idx: nat, piece: Bytes)
    requires idx !in b.dirty && |piece| == CHUNK_SIZE
    ensures WroteBlock(b, size, idx, 0, piece) == Blocks(b.dirty[idx := piece], b.cached, b.stored)
  {
    var grown := Grown([], 0 + |piece|);
    assert grown[..0] + piece + grown[|piece|..] == piece;
  }

  lemma TrackElsewhere(b: Blocks, b': Blocks, before: Blocks, buf: Bytes, offset: nat, written: nat, idx: nat, within: nat, take: nat)
    requires written < |buf| && Tracked(b, before, buf, offset, written)
    requires offset + written == idx * CHUNK_SIZE + within && within < CHUNK_SIZE
    requires take == Min(|buf| - written, CHUNK_SIZE - within)
    requires b.cached.Some? && b.cached.value.idx != idx && b'.cached == b.cached
    requires Newest(b', b.cached.value.idx) == Newest(b, b.cached.value.idx) && b'.stored == b.stored
    requires b.cached.value.idx in b'.dirty ==> b.cached.value.idx in b.dirty
    ensures Tracked(b', before, buf, offset, written + take)
  {
    hide Newest;
    var k := b.cached.value.idx;
    if k < idx {
      assert (k + 1) * CHUNK_SIZE <= idx * CHUNK_SIZE;
    } else {
      assert (idx + 1) * CHUNK_SIZE <= k * CHUNK_SIZE;
    }
  }

  lemma HoldsBytes(b: Blocks, size: nat)
    requires Fits(b, size) && b.cached.Some?
    ensures 0 < ValidLen(size, b.cached.value.idx)
  {
  }

  lemma TrackHere(b: Blocks, size: nat, before: Blocks, buf: Bytes, offset: nat, written: nat, idx: nat, within: nat, take: nat)
    requires written < |buf| && Fits(b, size) && Tracked(b, before, buf, offset, written)
    requires offset + written == idx * CHUNK_SIZE + within && within < CHUNK_SIZE
    requires take == Min(|buf| - written, CHUNK_SIZE - within)
    requires b.cached.Some? && b.cached.value.idx == idx && (written == 0 || within == 0)
    ensures Tracked(WroteBlock(b, size, idx, within, buf[written..written + take]), before, buf, offset, written + take)
  {
    hide Base, Fits;
    HoldsBytes(b, size);
    assert !Covers(before, offset, written) && idx !in b.dirty;
    hide Placed, ValidLen;
    if within == 0 && take == CHUNK_SIZE {
      WholeBlock(b, size, idx, buf[written..written + take]);
    } else {
      assert !Covers(before, offset, |buf|);
    }
  }

  lemma TrackPiece(b: Blocks, size: nat, before: Blocks, buf: Bytes, offset: nat, written: nat, idx: nat, within: nat, take: nat)
    requires written < |buf| && Fits(b, size) && Tracked(b, before, buf, offset, written)
    requires offset + written == idx * CHUNK_SIZE + within && within < CHUNK_SIZE
    requires take == Min(|buf| - written, CHUNK_SIZE - within)
    requires written == 0 || within == 0
    ensures Tracked(WroteBlock(b, size, idx, within, buf[written..written + take]), before, buf, offset, written + take)
  {
    hide Base, Fits, Replaces, Covers;
    if b.cached.None? {
    } else if b.cached.value.idx != idx {
      TrackElsewhere(b, WroteBlock(b, size, idx, within, buf[written..written + take]), before, buf, offset, written, idx, within, take);
    } else {
      TrackHere(b, size, before, buf, offset, written, idx, within, take);
    }
  }

  /** A write leaves the cache coherent exactly when it does not put other bytes over the whole cached block. */
  lemma TrackedToTheEnd(b: Blocks, before: Blocks, buf: Bytes, offset: nat)
    requires Tracked(b, before, buf, offset, |buf|)
    ensures Coherent(b) <==> !Clobbers(before, buf, offset)
    ensures !Covers(before, offset, |buf|) ==> Safe(b)
  {
  }

  // ----- Byte accounting and tier changes -----

  /** The bytes held in a dirty map. */
  ghost function Total(m: map<nat, Bytes>): nat {
    if m == map[] then 0 else var k :| k in m; |m[k]| + Total(m - {k})
  }

  lemma {:induction false} TotalRemove(m: map<nat, Bytes>, k: nat)
    requires k in m
    ensures Total(m) == |m[k]| + Total(m - {k})
    decreases |m|
  {
    var j :| j in m && Total(m) == |m[j]| + Total(m - {j});
    if j != k {
      TotalRemove(m - {j}, k);
      TotalRemove(m - {k}, j);
      assert m - {j} - {k} == m - {k} - {j};
    }
  }

  lemma TotalInsert(m: map<nat, Bytes>, k: nat, v: Bytes)
    ensures Total(m[k := v]) == (if k in m then Total(m) - |m[k]| else Total(m)) + |v|
  {
    TotalRemove(m[k := v], k);
    if k in m {
      TotalRemove(m, k);
      assert m[k := v] - {k} == m - {k};
    } else {
      assert m[k := v] - {k} == m;
    }
  }

  /** Chunk `k` of a buffer. */
  function ChunkOf(data: Bytes, k: nat): (r: Bytes)
    ensures |r| == ValidLen(|data|, k)
    ensures forall w :: 0 <= w < |r| ==> r[w] == data[k * CHUNK_SIZE + w]
  {
    data[Min(k * CHUNK_SIZE, |data|)..Min((k + 1) * CHUNK_SIZE, |data|)]
  }

  /** A buffer cut into chunks. */
  function ChunksOf(data: Bytes): map<nat, Bytes> {
    map k: nat | k < BlockCount(|data|) :: ChunkOf(data, k)
  }

  ghost predicate SplitOf(dirty: map<nat, Bytes>, data: Bytes, n: nat) {
    && (forall k: nat :: k in dirty <==> k < n)
    && (forall k :: k in dirty ==> dirty[k] == ChunkOf(data, k))
  }

  lemma ChunkAt(data: Bytes, k: nat, w: nat)
    requires w < CHUNK_SIZE
    ensures At(ChunkOf(data, k), w) == At(data, k * CHUNK_SIZE + w)
  {
  }

  lemma SplitNone(data: Bytes)
    ensures SplitOf(map[], data, 0) && Total(map[]) == 0
  {
  }

  lemma SplitIsChunks(dirty: map<nat, Bytes>, data: Bytes)
    requires SplitOf(dirty, data, BlockCount(|data|))
    ensures dirty == ChunksOf(data)
  {
    assert dirty.Keys == ChunksOf(data).Keys;
  }

  lemma SplitMore(dirty: map<nat, Bytes>, data: Bytes, n: nat)
    requires SplitOf(dirty, data, n)
    ensures SplitOf(dirty[n := ChunkOf(data, n)], data, n + 1)
    ensures Total(dirty[n := ChunkOf(data, n)]) == Total(dirty) + ValidLen(|data|, n)
  {
    TotalInsert(dirty, n, ChunkOf(data, n));
  }

  /** A memory-resident body cut into dirty blocks. */
  method Split(data: Bytes) returns (dirty: map<nat, Bytes>, bytes: nat)
    ensures dirty == ChunksOf(data) && SplitOf(dirty, data, BlockCount(|data|))
    ensures bytes == |data| == Total(dirty)
  {
    hide SplitOf, Total, ChunkOf;
    dirty, bytes := map[], 0;
    var i := 0;
    SplitNone(data);
    while i * CHUNK_SIZE < |data|
      invariant i <= BlockCount(|data|)
      invariant SplitOf(dirty, data, i)
      invariant bytes == Min(i * CHUNK_SIZE, |data|) == Total(dirty)
    {
      SplitMore(dirty, data, i);
      var chunk := ChunkOf(data, i);
      bytes := bytes + |chunk|;
      dirty := dirty[i := chunk];
      i := i + 1;
    }
    SplitIsChunks(dirty, data);
  }

  lemma {:induction false} LowestExists(m: map<nat, Bytes>)
    requires m != map[]
    ensures exists k :: k in m && forall j :: j in m ==> k <= j
    decreases |m|
  {
    var k :| k in m;
    var rest := m - {k};
    assert rest.Keys == m.Keys - {k};
    assert forall j :: j in m ==> j == k || j in rest;
    var first := k;
    if rest != map[] {
      LowestExists(rest);
      var low :| low in rest && forall j :: j in rest ==> low <= j;
      first := Min(k, low);
    }
    assert first in m && forall j :: j in m ==> first <= j;
  }

  /** The dirty block written out first. */
  ghost function Lowest(m: map<nat, Bytes>): (r: nat)
    requires m != map[]
    ensures r in m && forall j :: j in m ==> r <= j
  {
    LowestExists(m);
    var k :| k in m && forall j :: j in m ==> k <= j;
    k
  }

  /** The blocks once the lowest dirty ones are written out, until `additional` more bytes fit the budget. */
  ghost function SpilledFor(b: Blocks, size: nat, additional: nat, budget: nat): Blocks
    decreases |b.dirty|
  {
    if Total(b.dirty) + additional <= budget || b.dirty == map[] then b
    else
      SpillCounts(b, size, Lowest(b.dirty));
      SpilledFor(Spilled(b, size, Lowest(b.dirty)), size, additional, budget)
  }

  lemma SpilledForNext(b: Blocks, size: nat, additional: nat, budget: nat, idx: nat)
    requires budget < Total(b.dirty) + additional && idx in b.dirty && forall j :: j in b.dirty ==> idx <= j
    ensures SpilledFor(b, size, additional, budget) == SpilledFor(Spilled(b, size, idx), size, additional, budget)
  {
  }

  lemma SpilledForDone(b: Blocks, size: nat, additional: nat, budget: nat)
    requires Total(b.dirty) + additional <= budget || b.dirty == map[]
    ensures SpilledFor(b, size, additional, budget) == b
  {
  }

  function From(m: map<nat, Bytes>, k: nat): map<nat, Bytes> {
    map j | j in m && k <= j :: m[j]
  }

  lemma {:induction false} TotalOfSome(m: map<nat, Bytes>, n: map<nat, Bytes>)
    requires forall k :: k in n ==> k in m && m[k] == n[k]
    ensures Total(n) <= Total(m)
    decreases |n|
  {
    if n != map[] {
      var k :| k in n;
      TotalRemove(n, k);
      TotalRemove(m, k);
      assert (n - {k}).Keys == n.Keys - {k};
      TotalOfSome(m - {k}, n - {k});
    }
  }

  /** A dirty block stays exactly when it and the dirty blocks above it leave room. */
  lemma {:induction false} StaysWhen(b: Blocks, size: nat, additional: nat, budget: nat, k: nat)
    ensures k in SpilledFor(b, size, additional, budget).dirty <==>
            k in b.dirty && Total(From(b.dirty, k)) + additional <= budget
    decreases |b.dirty|
  {
    TotalOfSome(b.dirty, From(b.dirty, k));
    if Total(b.dirty) + additional > budget && b.dirty != map[] {
      var low := Lowest(b.dirty);
      SpillCounts(b, size, low);
      StaysWhen(Spilled(b, size, low), size, additional, budget, k);
      if k == low {
        assert From(b.dirty, k) == b.dirty;
      } else if k in b.dirty {
        assert From(b.dirty - {low}, k) == From(b.dirty, k);
      }
    }
  }

  lemma {:induction false} SpilledForSpills(b: Blocks, size: nat, additional: nat, budget: nat)
    requires Fits(b, size)
    ensures Fits(SpilledFor(b, size, additional, budget), size) && OnlySpills(b, SpilledFor(b, size, additional, budget))
    ensures Safe(b) ==> Safe(SpilledFor(b, size, additional, budget))
    decreases |b.dirty|
  {
    SpillsRefl(b);
    if Total(b.dirty) + additional > budget && b.dirty != map[] {
      var low := Lowest(b.dirty);
      SpillCounts(b, size, low);
      SpillKeepsRaw(b, size, low);
      SpilledForSpills(Spilled(b, size, low), size, additional, budget);
      SpillsCompose(b, Spilled(b, size, low), SpilledFor(b, size, additional, budget));
    }
  }

  /** The smallest key, which an ordered map yields first. */
  method FirstKey(m: map<nat, Bytes>) returns (k: nat)
    requires m != map[]
    ensures k in m && forall j :: j in m ==> k <= j
  {
    k :| k in m;
    var rest := m.Keys - {k};
    while rest != {}
      invariant k in m && rest <= m.Keys
      invariant forall j :: j in m && j !in rest ==> k <= j
    {
      var j :| j in rest;
      if j < k {
        k := j;
      }
      rest := rest - {j};
    }
  }

  // ----- The open file -----

  datatype Tier = InlineTier | PackedTier | BlockTier

  /** Where the inode record says the contents are. */
  datatype FileData = Inline(bytes: Bytes) | Packed | File

  datatype Error = UnexpectedEof | ReadOnly | StoreFailed

  function ExtentBytes(extent: Option<Bytes>): Bytes {
    if extent.Some? then extent.value else []
  }

  /** The body is the first `clean` bytes of the stored extent. */
  ghost predicate ExtentReads(data: Bytes, extent: Option<Bytes>, clean: nat) {
    forall p: nat :: At(data, p) == if p < clean then At(ExtentBytes(extent), p) else 0
  }

  /** The stored extent has a byte that is not zero between these places. */
  ghost predicate ShowsBetween(extent: Option<Bytes>, clean: nat, size: nat) {
    exists p: nat :: clean <= p < size && At(ExtentBytes(extent), p) != 0
  }

  function Resized(f: Bytes, n: nat): (r: Bytes)
    ensures |r| == n && forall p :: 0 <= p < n ==> r[p] == At(f, p)
  {
    Fitted(f, n)
  }

  /** A range zeroed inside the file. */
  function Zeroed(f: Bytes, offset: nat, length: nat): (r: Bytes)
    ensures |r| == |f|
    ensures forall p :: 0 <= p < |f| ==> r[p] == if offset <= p < offset + length then 0 else f[p]
  {
    seq(|f|, p requires 0 <= p < |f| => if offset <= p < offset + length then 0 else f[p])
  }

  /** A piece cut from one block is a run of the file's bytes. */
  lemma PieceReads(b: Blocks, idx: nat, within: nat, piece: Bytes)
    requires within + |piece| <= CHUNK_SIZE
    requires forall i :: 0 <= i < |piece| ==> piece[i] == At(BlockOf(b, idx), within + i)
    ensures forall i :: 0 <= i < |piece| ==> piece[i] == Raw(b, idx * CHUNK_SIZE + within + i)
  {
    forall i | 0 <= i < |piece|
      ensures piece[i] == Raw(b, idx * CHUNK_SIZE + within + i)
    {
      var p := idx * CHUNK_SIZE + within + i;
      assert p / CHUNK_SIZE == idx && p % CHUNK_SIZE == within + i;
    }
  }

  lemma SpillsRefl(b: Blocks)
    ensures OnlySpills(b, b) && SameBytes(b, b)
  {
  }

  lemma SpillCounts(b: Blocks, size: nat, idx: nat)
    requires idx in b.dirty
    ensures Total(Spilled(b, size, idx).dirty) == Total(b.dirty) - |b.dirty[idx]|
    ensures Spilled(b, size, idx).cached == b.cached
    ensures |Spilled(b, size, idx).dirty| < |b.dirty|
  {
    TotalRemove(b.dirty, idx);
    assert (b.dirty - {idx}).Keys == b.dirty.Keys - {idx};
  }

  lemma SameIsSame(a: Blocks, b: Blocks, c: Blocks, size: nat)
    requires a == b || SameBytes(a, b)
    requires b == c || SameBytes(b, c)
    ensures SameBytes(a, c) && Visible(c, size) == Visible(a, size)
  {
  }

  lemma SamePiece(b: Blocks, b': Blocks, pos: nat, piece: Bytes)
    requires SameBytes(b, b') && forall i :: 0 <= i < |piece| ==> piece[i] == Raw(b', pos + i)
    ensures forall i :: 0 <= i < |piece| ==> piece[i] == Raw(b, pos + i)
  {
  }

  lemma LoadFits(b: Blocks, size: nat, idx: nat)
    requires Fits(b, size) && idx < BlockCount(size)
    ensures Fits(Loaded(b, idx), size) && Loaded(b, idx).dirty == b.dirty
    ensures Hidden(b) ==> Hidden(Loaded(b, idx)) && Visible(Loaded(b, idx), size) == Visible(b, size)
    ensures Safe(b) ==> Safe(Loaded(b, idx))
  {
    if Hidden(b) {
      LoadKeepsRaw(b, size, idx);
    }
  }

  /** Replacing a block by its own logical prefix shows in no byte of the file. */
  lemma CutReads(b: Blocks, size: nat, idx: nat, cut: Bytes)
    requires Fits(b, size) && idx < BlockCount(size)
    requires |cut| <= ValidLen(size, idx)
    requires forall w: nat :: w < ValidLen(size, idx) ==> At(cut, w) == At(BlockOf(b, idx), w)
    ensures var b' := Blocks(b.dirty[idx := cut], Evicted(Loaded(b, idx).cached, idx), b.stored);
            && Fits(b', size)
            && (Safe(b) ==> Safe(b'))
            && (Hidden(b) ==> Hidden(b') && Visible(b', size) == Visible(b, size))
  {
    var b' := Blocks(b.dirty[idx := cut], Evicted(Loaded(b, idx).cached, idx), b.stored);
    if Hidden(b) {
      forall p: nat | p < size
        ensures Raw(b', p) == Raw(b, p)
      {
        var k, w := p / CHUNK_SIZE, p % CHUNK_SIZE;
        if k == idx {
          assert w < ValidLen(size, idx);
        }
      }
    }
  }

  /** Only the blocks up to the end of the file show. */
  lemma VisibleBelow(b: Blocks, b': Blocks, size: nat)
    requires b' == b.(stored := b'.stored)
    requires forall k: nat :: k < BlockCount(size) ==> StoredBlock(b', k) == StoredBlock(b, k)
    ensures Visible(b', size) == Visible(b, size)
    ensures Fits(b, size) ==> Fits(b', size) && (Safe(b) ==> Safe(b')) && (Trimmed(b, size) ==> Trimmed(b', size))
    ensures Fits(b, size) && Hidden(b) ==> Hidden(b')
  {
    forall p: nat | p < size
      ensures Raw(b', p) == Raw(b, p)
    {
      assert p / CHUNK_SIZE < BlockCount(size);
    }
  }

  lemma WroteTotals(b: Blocks, size: nat, idx: nat, within: nat, piece: Bytes)
    requires Fits(b, size) && within + |piece| <= CHUNK_SIZE
    ensures idx in b.dirty ==> |b.dirty[idx]| <= Total(b.dirty)
    ensures Total(WroteBlock(b, size, idx, within, piece).dirty)
         == Total(b.dirty) - (if idx in b.dirty then |b.dirty[idx]| else 0)
          + Max(|Base(b, size, idx, within, |piece|)|, within + |piece|)
    ensures Max(|Base(b, size, idx, within, |piece|)|, within + |piece|) <= CHUNK_SIZE
  {
    hide Placed;
    if idx in b.dirty {
      TotalRemove(b.dirty, idx);
    }
    TotalInsert(b.dirty, idx, Placed(Base(b, size, idx, within, |piece|), within, piece));
  }

  lemma TrackSpill(b: Blocks, b': Blocks, before: Blocks, buf: Bytes, offset: nat, written: nat)
    requires written <= |buf| && Tracked(b, before, buf, offset, written) && OnlySpills(b, b')
    ensures Tracked(b', before, buf, offset, written)
  {
  }

  lemma StartWrite(b: Blocks, size: nat, buf: Bytes, offset: nat)
    ensures Visible(b, size) == Spliced(Visible(b, size), offset, buf[..0])
    ensures Safe(b) ==> Tracked(b, b, buf, offset, 0)
  {
  }

  lemma NothingPast(b: Blocks, size: nat, upto: nat)
    requires upto <= size
    ensures Blank(b, size, upto)
  {
  }

  lemma PieceSplices(b: Blocks, size: nat, f: Bytes, buf: Bytes, offset: nat, written: nat, idx: nat, within: nat, take: nat)
    requires Fits(b, size) && written + take <= |buf| && 0 < take
    requires offset + written == idx * CHUNK_SIZE + within && within + take <= CHUNK_SIZE
    requires Blank(b, size, idx * CHUNK_SIZE) && Visible(b, size) == Spliced(f, offset, buf[..written])
    ensures Visible(WroteBlock(b, size, idx, within, buf[written..written + take]), Max(size, offset + written + take))
         == Spliced(f, offset, buf[..written + take])
  {
    hide WroteBlock, Fits, Raw, Blank, Spliced;
    var piece := buf[written..written + take];
    var b', size' := WroteBlock(b, size, idx, within, piece), Max(size, offset + written + take);
    var g := Visible(b', size');
    forall p | 0 <= p < size'
      ensures g[p] == if offset + written <= p < offset + written + take then buf[p - offset]
                      else At(Spliced(f, offset, buf[..written]), p)
    {
      WriteOneRaw(b, size, idx, within, piece, p);
    }
    SpliceMore(f, offset, buf, written, written + take, g);
  }

  // ----- A whole write, and what a stale cached copy does to it -----

  /** The blocks after one piece of a write, before which the write buffer makes room for a chunk. */
  ghost function WrotePiece(b: Blocks, size: nat, budget: nat, piece: Bytes, pos: nat): Blocks {
    WroteBlock(SpilledFor(b, size, CHUNK_SIZE, budget), size, pos / CHUNK_SIZE, pos % CHUNK_SIZE, piece)
  }

  /** How much of a write goes into the chunk at `pos`. */
  function PieceLen(len: nat, pos: nat): (r: nat)
    ensures r <= len && (0 < len ==> 0 < r)
  {
    Min(len, CHUNK_SIZE - pos % CHUNK_SIZE)
  }

  /** The blocks after a write. */
  ghost function WroteAll(b: Blocks, size: nat, budget: nat, buf: Bytes, pos: nat): Blocks
    decreases |buf|
  {
    if buf == [] then b
    else
      var take := PieceLen(|buf|, pos);
      WroteAll(WrotePiece(b, size, budget, buf[..take], pos), Max(size, pos + take), budget, buf[take..], pos + take)
  }

  function SizeAfter(size: nat, buf: Bytes, pos: nat): nat {
    if buf == [] then size else Max(size, pos + |buf|)
  }

  predicate Boundary(pos: nat) {
    pos % CHUNK_SIZE == 0
  }

  lemma PieceFills(pos: nat, x: nat, y: nat)
    requires 0 < x && Boundary(pos + x)
    ensures PieceLen(x, pos) == PieceLen(x + y, pos)
  {
  }

  lemma WroteStep(b: Blocks, size: nat, budget: nat, buf: Bytes, pos: nat)
    ensures var take := PieceLen(|buf|, pos);
            WroteAll(b, size, budget, buf, pos)
            == if buf == [] then b
               else WroteAll(WrotePiece(b, size, budget, buf[..take], pos), Max(size, pos + take), budget, buf[take..], pos + take)
  {
  }

  /** A write that stops between chunks goes on as if it had not stopped. */
  lemma {:induction false} WroteInTwo(b: Blocks, size: nat, budget: nat, x: Bytes, y: Bytes, pos: nat)
    requires x == [] || Boundary(pos + |x|)
    ensures WroteAll(b, size, budget, x + y, pos)
         == WroteAll(WroteAll(b, size, budget, x, pos), SizeAfter(size, x, pos), budget, y, pos + |x|)
    decreases |x|
  {
    hide WroteAll, WrotePiece, PieceLen, Boundary;
    WroteStep(b, size, budget, x, pos);
    if x == [] {
      assert x + y == y;
    } else {
      WroteStep(b, size, budget, x + y, pos);
      PieceFills(pos, |x|, |y|);
      var take := PieceLen(|x|, pos);
      assert (x + y)[..take] == x[..take] && (x + y)[take..] == x[take..] + y;
      assert pos + take + |x[take..]| == pos + |x|;
      WroteInTwo(WrotePiece(b, size, budget, x[..take], pos), Max(size, pos + take), budget, x[take..], y, pos + take);
    }
  }

  /** One more piece. */
  lemma WroteMore(b: Blocks, size: nat, budget: nat, buf: Bytes, offset: nat, written: nat)
    requires written < |buf| && (written == 0 || Boundary(offset + written))
    ensures var take := PieceLen(|buf| - written, offset + written);
            WroteAll(b, size, budget, buf[..written + take], offset)
            == WrotePiece(WroteAll(b, size, budget, buf[..written], offset), SizeAfter(size, buf[..written], offset), budget,
                          buf[written..written + take], offset + written)
  {
    hide WrotePiece;
    var take := PieceLen(|buf| - written, offset + written);
    var piece := buf[written..written + take];
    assert buf[..written + take] == buf[..written] + piece;
    WroteInTwo(b, size, budget, buf[..written], piece, offset);
    assert piece[..take] == piece && piece[take..] == [];
  }

  /** The file with one block showing other bytes. */
  function Overlaid(f: Bytes, k: nat, bytes: Bytes): (r: Bytes)
    ensures |r| == |f|
    ensures forall p :: 0 <= p < |f| ==> r[p] == if p / CHUNK_SIZE == k then At(bytes, p % CHUNK_SIZE) else f[p]
  {
    seq(|f|, p requires 0 <= p < |f| => if p / CHUNK_SIZE == k then At(bytes, p % CHUNK_SIZE) else f[p])
  }

  /** The blocks as they read without the cache. */
  function Uncached(b: Blocks): Blocks {
    b.(cached := None)
  }

  /**
   How a write of `buf` to a file `f` stands. The newest copies of all blocks add up to the written
   file; but a write that read the cached block back, after its dirty copy went, wrote on top of that.
   */
  ghost predicate Follows(before: Blocks, b: Blocks, size: nat, f: Bytes, buf: Bytes, offset: nat) {
    if b.cached == before.cached then Visible(Uncached(b), size) == Spliced(f, offset, buf)
    else && before.cached.Some? && b.cached.None?
         && Visible(Uncached(b), size) == Spliced(Overlaid(f, before.cached.value.idx, before.cached.value.bytes), offset, buf)
  }

  /**
   The cached block lost its dirty copy during the write, and the older bytes it then read as are
   not what the file should hold.
   */
  ghost predicate Resurfaces(before: Blocks, b: Blocks, f: Bytes, buf: Bytes, offset: nat) {
    && before.cached.Some?
    && (var k, bytes := before.cached.value.idx, before.cached.value.bytes;
        if b.cached.Some? then k !in b.dirty && Overlaid(Spliced(f, offset, buf), k, bytes) != Spliced(f, offset, buf)
        else Spliced(Overlaid(f, k, bytes), offset, buf) != Spliced(f, offset, buf))
  }

  /** No block lost a dirty copy that its cached copy was older than. */
  predicate Quiet(before: Blocks, b: Blocks) {
    before.cached.Some? ==>
      if b.cached.Some? then Hidden(b)
      else before.cached.value.idx in before.dirty ==> before.dirty[before.cached.value.idx] == before.cached.value.bytes
  }

  lemma HiddenIsNewest(b: Blocks, size: nat)
    requires Hidden(b)
    ensures SameBytes(b, Uncached(b)) && Visible(Uncached(b), size) == Visible(b, size)
  {
    forall p: nat
      ensures Raw(Uncached(b), p) == Raw(b, p)
    {
      assert BlockOf(Uncached(b), p / CHUNK_SIZE) == BlockOf(b, p / CHUNK_SIZE);
    }
  }

  /** A cached copy that is not behind a dirty one is what its block reads as. */
  lemma CacheOverlays(b: Blocks, size: nat)
    requires b.cached.Some? && b.cached.value.idx !in b.dirty
    ensures Visible(b, size) == Overlaid(Visible(Uncached(b), size), b.cached.value.idx, b.cached.value.bytes)
  {
    forall p | 0 <= p < size
      ensures Visible(b, size)[p] == Overlaid(Visible(Uncached(b), size), b.cached.value.idx, b.cached.value.bytes)[p]
    {
      assert Visible(Uncached(b), size)[p] == Raw(Uncached(b), p);
    }
  }

  /** A write shows exactly as it should unless the cached block resurfaces. */
  lemma FollowsExactly(before: Blocks, b: Blocks, size: nat, f: Bytes, buf: Bytes, offset: nat)
    requires Follows(before, b, size, f, buf, offset)
    ensures Visible(b, size) == Spliced(f, offset, buf) <==> !Resurfaces(before, b, f, buf, offset)
  {
    hide Visible, Spliced, Overlaid;
    if b.cached.Some? && b.cached.value.idx !in b.dirty {
      CacheOverlays(b, size);
    } else {
      HiddenIsNewest(b, size);
    }
  }

  lemma OverlaidSame(b: Blocks, size: nat, k: nat, bytes: Bytes)
    requires Newest(b, k) == bytes
    ensures Overlaid(Visible(Uncached(b), size), k, bytes) == Visible(Uncached(b), size)
  {
    forall p | 0 <= p < size
      ensures Overlaid(Visible(Uncached(b), size), k, bytes)[p] == Visible(Uncached(b), size)[p]
    {
      assert Visible(Uncached(b), size)[p] == Raw(Uncached(b), p);
    }
  }

  lemma QuietDoesNot(before: Blocks, b: Blocks, size0: nat, size: nat, buf: Bytes, offset: nat)
    requires Hidden(before) && Quiet(before, b)
    requires Follows(before, b, size, Visible(before, size0), buf, offset)
    ensures Hidden(b) && !Resurfaces(before, b, Visible(before, size0), buf, offset)
  {
    hide Visible, Spliced, Overlaid;
    HiddenIsNewest(before, size0);
    if before.cached.Some? {
      var k, bytes := before.cached.value.idx, before.cached.value.bytes;
      if b.cached.Some? {
        if k !in b.dirty {
          OverlaidSame(b, size, k, bytes);
        }
      } else {
        OverlaidSame(before, size0, k, bytes);
      }
    }
  }

  lemma FollowSpill(before: Blocks, b: Blocks, b': Blocks, size: nat, f: Bytes, buf: Bytes, offset: nat)
    requires Follows(before, b, size, f, buf, offset) && OnlySpills(b, b')
    ensures Follows(before, b', size, f, buf, offset)
  {
    hide Spliced, Overlaid;
    assert forall p: nat :: Raw(Uncached(b'), p) == Raw(Uncached(b), p) by {
      assert forall k: nat :: BlockOf(Uncached(b'), k) == Newest(b', k) && BlockOf(Uncached(b), k) == Newest(b, k);
    }
  }

  /** A piece that does not start from the cached copy adds to the newest copies. */
  lemma FollowAbove(b: Blocks, size: nat, f: Bytes, buf: Bytes, offset: nat, written: nat, idx: nat, within: nat, take: nat)
    requires Fits(b, size) && written + take <= |buf| && 0 < take
    requires offset + written == idx * CHUNK_SIZE + within && within + take <= CHUNK_SIZE
    requires Blank(Uncached(b), size, idx * CHUNK_SIZE) && Visible(Uncached(b), size) == Spliced(f, offset, buf[..written])
    requires idx in b.dirty || Replaces(size, idx, within, take) || b.cached == Evicted(b.cached, idx)
    ensures var b' := WroteBlock(b, size, idx, within, buf[written..written + take]);
            && b'.cached == b.cached
            && Visible(Uncached(b'), Max(size, offset + written + take)) == Spliced(f, offset, buf[..written + take])
  {
    hide Visible, Spliced, Blank, Placed;
    PieceSplices(Uncached(b), size, f, buf, offset, written, idx, within, take);
    assert Uncached(WroteBlock(b, size, idx, within, buf[written..written + take]))
        == WroteBlock(Uncached(b), size, idx, within, buf[written..written + take]);
  }

  /** The cached copy put in the place of the stored one, as far as the file goes. */
  function Swapped(b: Blocks, size: nat): Blocks
    requires b.cached.Some?
  {
    Blocks(b.dirty, None, b.stored[b.cached.value.idx := Take(b.cached.value.bytes, ValidLen(size, b.cached.value.idx))])
  }

  lemma SwappedReads(b: Blocks, size: nat, f: Bytes, buf: Bytes, offset: nat, upto: nat)
    requires Fits(b, size) && b.cached.Some? && b.cached.value.idx !in b.dirty
    requires Blank(Uncached(b), size, upto) && Visible(Uncached(b), size) == Spliced(f, offset, buf)
    requires buf == [] || offset + |buf| <= b.cached.value.idx * CHUNK_SIZE
    ensures Fits(Swapped(b, size), size) && Blank(Swapped(b, size), size, upto)
    ensures Visible(Swapped(b, size), size) == Spliced(Overlaid(f, b.cached.value.idx, b.cached.value.bytes), offset, buf)
  {
    var s, k, bytes := Swapped(b, size), b.cached.value.idx, b.cached.value.bytes;
    forall p: nat
      ensures Raw(s, p) == if p / CHUNK_SIZE != k then Raw(Uncached(b), p) else if p < size then At(bytes, p % CHUNK_SIZE) else 0
    {
      if p / CHUNK_SIZE == k {
        assert p < size <==> p % CHUNK_SIZE < ValidLen(size, k);
      }
    }
    hide Raw, Fits, Take, ValidLen;
    assert |Spliced(f, offset, buf)| == |Spliced(Overlaid(f, k, bytes), offset, buf)| == size;
    forall p | 0 <= p < size
      ensures Visible(s, size)[p] == Spliced(Overlaid(f, k, bytes), offset, buf)[p]
    {
      assert Visible(Uncached(b), size)[p] == Spliced(f, offset, buf)[p];
      SpliceAt(f, k, bytes, offset, buf, p);
    }
  }

  lemma SpliceAt(f: Bytes, k: nat, bytes: Bytes, offset: nat, buf: Bytes, p: nat)
    requires buf == [] || offset + |buf| <= k * CHUNK_SIZE
    requires p < |Spliced(f, offset, buf)|
    ensures Spliced(Overlaid(f, k, bytes), offset, buf)[p]
         == if p / CHUNK_SIZE == k && p < |f| then At(bytes, p % CHUNK_SIZE) else Spliced(f, offset, buf)[p]
  {
    if p / CHUNK_SIZE == k {
      assert k * CHUNK_SIZE <= p;
    }
  }

  /** A piece that starts from the cached copy adds to a file that shows it. */
  lemma FollowCached(b: Blocks, size: nat, f: Bytes, buf: Bytes, offset: nat, written: nat, idx: nat, within: nat, take: nat)
    requires Fits(b, size) && written + take <= |buf| && 0 < take && (written == 0 || within == 0)
    requires offset + written == idx * CHUNK_SIZE + within && within + take <= CHUNK_SIZE
    requires Blank(Uncached(b), size, idx * CHUNK_SIZE) && Visible(Uncached(b), size) == Spliced(f, offset, buf[..written])
    requires idx !in b.dirty && !Replaces(size, idx, within, take) && b.cached.Some? && b.cached.value.idx == idx
    ensures var b' := WroteBlock(b, size, idx, within, buf[written..written + take]);
            && b'.cached == None
            && Visible(Uncached(b'), Max(size, offset + written + take))
               == Spliced(Overlaid(f, idx, b.cached.value.bytes), offset, buf[..written + take])
  {
    hide Spliced, Blank, Placed, Overlaid, Replaces, ValidLen, Fits;
    var s, piece, size' := Swapped(b, size), buf[written..written + take], Max(size, offset + written + take);
    SwappedReads(b, size, f, buf[..written], offset, idx * CHUNK_SIZE);
    PieceSplices(s, size, Overlaid(f, idx, b.cached.value.bytes), buf, offset, written, idx, within, take);
    var b' := WroteBlock(b, size, idx, within, piece);
    assert Take(Take(b.cached.value.bytes, ValidLen(size, idx)), ValidLen(size, idx)) == Take(b.cached.value.bytes, ValidLen(size, idx));
    var s' := WroteBlock(s, size, idx, within, piece);
    assert s'.dirty == b'.dirty;
    assert forall k: nat :: BlockOf(Uncached(b'), k) == BlockOf(s', k);
    assert forall p: nat :: Raw(Uncached(b'), p) == Raw(s', p);
  }

  lemma FollowPiece(before: Blocks, b: Blocks, size: nat, f: Bytes, buf: Bytes, offset: nat, written: nat, idx: nat, within: nat, take: nat)
    requires Fits(b, size) && written + take <= |buf| && 0 < take && (written == 0 || within == 0)
    requires offset + written == idx * CHUNK_SIZE + within && within + take <= CHUNK_SIZE
    requires Blank(Uncached(b), size, idx * CHUNK_SIZE) && Follows(before, b, size, f, buf[..written], offset)
    ensures Follows(before, WroteBlock(b, size, idx, within, buf[written..written + take]), Max(size, offset + written + take),
                    f, buf[..written + take], offset)
  {
    hide Visible, Spliced, Blank, Placed, Overlaid, Replaces, Fits, WroteBlock;
    if idx in b.dirty || Replaces(size, idx, within, take) || b.cached == Evicted(b.cached, idx) {
      var g := if b.cached == before.cached then f else Overlaid(f, before.cached.value.idx, before.cached.value.bytes);
      FollowAbove(b, size, g, buf, offset, written, idx, within, take);
    } else {
      FollowCached(b, size, f, buf, offset, written, idx, within, take);
    }
  }

  lemma FollowOne(before: Blocks, b: Blocks, size: nat, budget: nat, f: Bytes, buf: Bytes, offset: nat, written: nat)
    requires Fits(b, size) && written < |buf| && (written == 0 || Boundary(offset + written))
    requires Blank(Uncached(b), size, Floor(offset + written)) && Follows(before, b, size, f, buf[..written], offset)
    ensures var take := PieceLen(|buf| - written, offset + written);
            Follows(before, WrotePiece(b, size, budget, buf[written..written + take], offset + written),
                    Max(size, offset + written + take), f, buf[..written + take], offset)
  {
    hide Fits, WroteBlock, SpilledFor, Follows, OnlySpills, Blank;
    var pos := offset + written;
    var s := SpilledFor(b, size, CHUNK_SIZE, budget);
    SpilledForSpills(b, size, CHUNK_SIZE, budget);
    FollowSpill(before, b, s, size, f, buf[..written], offset);
    BlankSpill(b, s, size, Floor(pos));
    FollowPiece(before, s, size, f, buf, offset, written, pos / CHUNK_SIZE, pos % CHUNK_SIZE, PieceLen(|buf| - written, pos));
  }

  /** However it spilled on the way, a write ends as `Follows` says. */
  lemma {:induction false} FollowAll(before: Blocks, b: Blocks, size: nat, budget: nat, f: Bytes, buf: Bytes, offset: nat, written: nat)
    requires Fits(b, size) && written <= |buf| && (written == 0 || written == |buf| || Boundary(offset + written))
    requires Blank(Uncached(b), size, Floor(offset + written)) && Follows(before, b, size, f, buf[..written], offset)
    ensures Follows(before, WroteAll(b, size, budget, buf[written..], offset + written),
                    SizeAfter(size, buf[written..], offset + written), f, buf, offset)
    decreases |buf| - written
  {
    hide Blank, Fits, WroteAll, WrotePiece, Follows, PieceLen, Boundary;
    WroteStep(b, size, budget, buf[written..], offset + written);
    if written == |buf| {
      assert buf[..written] == buf && buf[written..] == [];
    } else {
      var take := PieceLen(|buf| - written, offset + written);
      assert buf[written..][..take] == buf[written..written + take] && buf[written..][take..] == buf[written + take..];
      var next := WrotePiece(b, size, budget, buf[written..written + take], offset + written);
      FollowOne(before, b, size, budget, f, buf, offset, written);
      PieceFits(b, size, budget, |buf| - written, buf[written..written + take], offset + written);
      PieceSplit(b, size, buf, offset, written);
      NothingPast(Uncached(next), Max(size, offset + written + take), Floor(offset + written + take));
      FollowAll(before, next, Max(size, offset + written + take), budget, f, buf, offset, written + take);
    }
  }

  lemma BlankSpill(b: Blocks, s: Blocks, size: nat, upto: nat)
    requires OnlySpills(b, s) && Blank(Uncached(b), size, upto)
    ensures Blank(Uncached(s), size, upto)
  {
    assert forall k: nat :: BlockOf(Uncached(s), k) == Newest(s, k) && BlockOf(Uncached(b), k) == Newest(b, k);
    assert forall p: nat :: Raw(Uncached(s), p) == Raw(Uncached(b), p);
  }

  /**
   What a write does to the file, however far it came and whatever it spilled on the way: the bytes
   written are in it, and no other changed, exactly when the cached block does not resurface.
   */
  lemma WriteShows(b: Blocks, size: nat, budget: nat, buf: Bytes, offset: nat, b': Blocks)
    requires Hidden(b) && Fits(b, size) && Blank(b, size, Floor(offset))
    requires OnlySpills(WroteAll(b, size, budget, buf, offset), b')
    ensures Visible(b', SizeAfter(size, buf, offset)) == Spliced(Visible(b, size), offset, buf)
            <==> !Resurfaces(b, b', Visible(b, size), buf, offset)
    ensures Quiet(b, b') ==> Hidden(b') && !Resurfaces(b, b', Visible(b, size), buf, offset)
  {
    hide Visible, Spliced, Overlaid, Fits, WroteBlock, SpilledFor, OnlySpills, Hidden, Raw, Quiet, Resurfaces;
    HiddenIsNewest(b, size);
    EmptySplice(Visible(b, size), offset);
    assert buf[..0] == [] && buf[0..] == buf;
    FollowAll(b, b, size, budget, Visible(b, size), buf, offset, 0);
    FollowSpill(b, WroteAll(b, size, budget, buf, offset), b', SizeAfter(size, buf, offset), Visible(b, size), buf, offset);
    FollowsExactly(b, b', SizeAfter(size, buf, offset), Visible(b, size), buf, offset);
    if Quiet(b, b') {
      QuietDoesNot(b, b', size, SizeAfter(size, buf, offset), buf, offset);
    }
  }

  lemma StoppedShows(b: Blocks, size: nat, budget: nat, buf: Bytes, offset: nat, b': Blocks)
    requires Fits(b, size) && OnlySpills(WroteAll(b, size, budget, buf, offset), b')
    ensures Hidden(b) && Blank(b, size, Floor(offset)) ==>
              (Visible(b', SizeAfter(size, buf, offset)) == Spliced(Visible(b, size), offset, buf)
               <==> !Resurfaces(b, b', Visible(b, size), buf, offset))
  {
    hide Hidden, Blank;
    if Hidden(b) && Blank(b, size, Floor(offset)) {
      WriteShows(b, size, budget, buf, offset, b');
    }
  }

  lemma StartAll(b: Blocks, size: nat, budget: nat, buf: Bytes, offset: nat)
    ensures WroteAll(b, size, budget, buf[..0], offset) == b && OnlySpills(b, b)
  {
  }

  /** Where the next piece of a write goes. */
  lemma PieceSplit(b: Blocks, size: nat, buf: Bytes, offset: nat, written: nat)
    requires written < |buf|
    ensures var pos := offset + written;
            var take := PieceLen(|buf| - written, pos);
            && pos / CHUNK_SIZE * CHUNK_SIZE + pos % CHUNK_SIZE == pos && pos % CHUNK_SIZE + take <= CHUNK_SIZE
            && (written + take == |buf| || Boundary(pos + take))
            && Max(SizeAfter(size, buf[..written], offset), pos + take) == SizeAfter(size, buf[..written + take], offset)
            && Pieces(|buf| - written, pos) == 1 + Pieces(|buf| - written - take, pos + take)
  {
  }

  /** Spills show in no byte exactly when the cached block does not resurface. */
  lemma SpillShows(b: Blocks, size: nat, b': Blocks)
    requires OnlySpills(b, b')
    ensures Hidden(b) ==> (Visible(b', size) == Visible(b, size) <==> !Resurfaces(b, b', Visible(b, size), [], 0))
  {
    if Hidden(b) {
      hide Visible, Spliced, Overlaid, OnlySpills, Resurfaces;
      HiddenIsNewest(b, size);
      EmptySplice(Visible(b, size), 0);
      FollowSpill(b, b, b', size, Visible(b, size), [], 0);
      FollowsExactly(b, b', size, Visible(b, size), [], 0);
    }
  }

  /**
   When making room shows, told from the blocks before it: the cached block is dirty, it and the
   dirty blocks above it do not leave the room asked for, and its cached bytes are older.
   */
  lemma SpillShowsWhen(b: Blocks, size: nat, additional: nat, budget: nat)
    requires Hidden(b) && Fits(b, size)
    ensures Visible(SpilledFor(b, size, additional, budget), size) != Visible(b, size) <==>
            && b.cached.Some? && b.cached.value.idx in b.dirty
            && budget < Total(From(b.dirty, b.cached.value.idx)) + additional
            && Overlaid(Visible(b, size), b.cached.value.idx, b.cached.value.bytes) != Visible(b, size)
  {
    hide Visible, Spliced, Overlaid, OnlySpills, SpilledFor, Fits, Total, From;
    var b' := SpilledFor(b, size, additional, budget);
    SpilledForSpills(b, size, additional, budget);
    assert b'.cached == b.cached by {
      SpillsSame(b, b');
    }
    SpillShows(b, size, b');
    EmptySplice(Visible(b, size), 0);
    if b.cached.Some? {
      StaysWhen(b, size, additional, budget, b.cached.value.idx);
      if b.cached.value.idx !in b.dirty {
        HiddenIsNewest(b, size);
        OverlaidSame(b, size, b.cached.value.idx, b.cached.value.bytes);
      }
    }
  }

  lemma SpillsSame(b: Blocks, b': Blocks)
    requires OnlySpills(b, b')
    ensures b'.cached == b.cached
  {
  }

  lemma EmptySplice(f: Bytes, offset: nat)
    ensures Spliced(f, offset, []) == f
  {
  }

  /** How many chunks a write touches. */
  function Pieces(len: nat, pos: nat): nat
    decreases len
  {
    if len == 0 then 0 else 1 + Pieces(len - PieceLen(len, pos), pos + PieceLen(len, pos))
  }

  lemma {:induction false} FewerPieces(len: nat, n: nat, pos: nat)
    requires n <= len
    ensures Pieces(n, pos) <= Pieces(len, pos)
    decreases n
  {
    if 0 < n {
      if PieceLen(n, pos) == n {
        assert Pieces(n, pos) == 1 + Pieces(0, pos + n);
      } else {
        assert PieceLen(n, pos) == PieceLen(len, pos);
        FewerPieces(len - PieceLen(n, pos), n - PieceLen(n, pos), pos + PieceLen(n, pos));
      }
    }
  }

  /** Nothing was written out: stored blocks are as they were, dirty ones stay dirty. */
  predicate NothingSpilled(before: Blocks, b: Blocks) {
    && b.stored == before.stored && before.dirty.Keys <= b.dirty.Keys
    && (b.cached == before.cached || (b.cached.None? && before.cached.Some? && before.cached.value.idx !in before.dirty))
  }

  lemma UnspilledIsQuiet(before: Blocks, b: Blocks)
    requires Hidden(before) && NothingSpilled(before, b)
    ensures Quiet(before, b)
  {
  }

  lemma RoomyPiece(before: Blocks, b: Blocks, size: nat, budget: nat, piece: Bytes, pos: nat)
    requires Fits(b, size) && Total(b.dirty) + CHUNK_SIZE <= budget && NothingSpilled(before, b)
    requires pos % CHUNK_SIZE + |piece| <= CHUNK_SIZE
    ensures NothingSpilled(before, WrotePiece(b, size, budget, piece, pos))
    ensures Total(WrotePiece(b, size, budget, piece, pos).dirty) <= Total(b.dirty) + CHUNK_SIZE
  {
    hide Fits, Total, Base, Placed, Replaces;
    SpilledForDone(b, size, CHUNK_SIZE, budget);
    WroteTotals(b, size, pos / CHUNK_SIZE, pos % CHUNK_SIZE, piece);
  }

  lemma PieceFits(b: Blocks, size: nat, budget: nat, len: nat, piece: Bytes, pos: nat)
    requires Fits(b, size) && 0 < |piece| == PieceLen(len, pos)
    ensures Fits(WrotePiece(b, size, budget, piece, pos), Max(size, pos + |piece|))
    ensures pos % CHUNK_SIZE + |piece| <= CHUNK_SIZE
  {
    hide Fits, SpilledFor, WroteBlock, OnlySpills;
    SpilledForSpills(b, size, CHUNK_SIZE, budget);
    WriteOneFits(SpilledFor(b, size, CHUNK_SIZE, budget), size, pos / CHUNK_SIZE, pos % CHUNK_SIZE, piece);
    assert pos / CHUNK_SIZE * CHUNK_SIZE + pos % CHUNK_SIZE == pos;
  }

  /** A write for which the buffer has room spills nothing. */
  lemma {:induction false} RoomyWrite(before: Blocks, b: Blocks, size: nat, budget: nat, buf: Bytes, pos: nat)
    requires Fits(b, size) && Total(b.dirty) + Pieces(|buf|, pos) * CHUNK_SIZE <= budget && NothingSpilled(before, b)
    ensures NothingSpilled(before, WroteAll(b, size, budget, buf, pos))
    ensures Total(WroteAll(b, size, budget, buf, pos).dirty) <= Total(b.dirty) + Pieces(|buf|, pos) * CHUNK_SIZE
    decreases |buf|
  {
    hide Fits, Total, WroteAll, WrotePiece, PieceLen, NothingSpilled;
    WroteStep(b, size, budget, buf, pos);
    if buf != [] {
      var take := PieceLen(|buf|, pos);
      PieceFits(b, size, budget, |buf|, buf[..take], pos);
      RoomyPiece(before, b, size, budget, buf[..take], pos);
      RoomyWrite(before, WrotePiece(b, size, budget, buf[..take], pos), Max(size, pos + take), budget, buf[take..], pos + take);
    }
  }

  /** The range holds no block whole. */
  predicate Partial(offset: nat, len: nat) {
    offset + len < (BlockCount(offset) + 1) * CHUNK_SIZE
  }

  lemma PartialPieces(pos: nat, len: nat)
    requires Partial(pos, len) && 0 < len
    ensures Partial(pos + PieceLen(len, pos), len - PieceLen(len, pos))
    ensures !(pos % CHUNK_SIZE == 0 && PieceLen(len, pos) == CHUNK_SIZE)
  {
  }

  lemma PartialPieceSafe(b: Blocks, size: nat, budget: nat, piece: Bytes, pos: nat)
    requires Safe(b) && Fits(b, size) && !(pos % CHUNK_SIZE == 0 && |piece| == CHUNK_SIZE)
    ensures Safe(WrotePiece(b, size, budget, piece, pos))
  {
    hide Fits, SpilledFor, OnlySpills, Base, Placed, ValidLen;
    var spilled := SpilledFor(b, size, CHUNK_SIZE, budget);
    SpilledForSpills(b, size, CHUNK_SIZE, budget);
    if spilled.cached.Some? {
      HoldsBytes(spilled, size);
    }
  }

  /** A write that replaces no block whole leaves no block both dirty and cached. */
  lemma {:induction false} PartialWrite(b: Blocks, size: nat, budget: nat, buf: Bytes, pos: nat)
    requires Safe(b) && Fits(b, size) && Partial(pos, |buf|)
    ensures Safe(WroteAll(b, size, budget, buf, pos))
    decreases |buf|
  {
    hide Fits, Safe, Partial, WroteAll, WrotePiece, PieceLen;
    WroteStep(b, size, budget, buf, pos);
    if buf != [] {
      var take := PieceLen(|buf|, pos);
      PartialPieces(pos, |buf|);
      PartialPieceSafe(b, size, budget, buf[..take], pos);
      PieceFits(b, size, budget, |buf|, buf[..take], pos);
      PartialWrite(WrotePiece(b, size, budget, buf[..take], pos), Max(size, pos + take), budget, buf[take..], pos + take);
    }
  }

  lemma SafeIsQuiet(before: Blocks, b: Blocks)
    requires Safe(before) && Safe(b)
    ensures Quiet(before, b)
  {
  }

  lemma TrackOne(before: Blocks, b: Blocks, size: nat, budget: nat, buf: Bytes, offset: nat, written: nat)
    requires Fits(b, size) && written < |buf| && (written == 0 || Boundary(offset + written))
    requires Tracked(b, before, buf, offset, written)
    ensures var take := PieceLen(|buf| - written, offset + written);
            Tracked(WrotePiece(b, size, budget, buf[written..written + take], offset + written), before, buf, offset, written + take)
  {
    hide Fits, Tracked, SpilledFor, WroteBlock, OnlySpills;
    var pos := offset + written;
    var take := PieceLen(|buf| - written, pos);
    var spilled := SpilledFor(b, size, CHUNK_SIZE, budget);
    SpilledForSpills(b, size, CHUNK_SIZE, budget);
    TrackSpill(b, spilled, before, buf, offset, written);
    TrackPiece(spilled, size, before, buf, offset, written, pos / CHUNK_SIZE, pos % CHUNK_SIZE, take);
  }

  /** The cache after a whole write. */
  lemma {:induction false} TrackAll(before: Blocks, b: Blocks, size: nat, budget: nat, buf: Bytes, offset: nat, written: nat)
    requires Fits(b, size) && written <= |buf| && (written == 0 || written == |buf| || Boundary(offset + written))
    requires Tracked(b, before, buf, offset, written)
    ensures Tracked(WroteAll(b, size, budget, buf[written..], offset + written), before, buf, offset, |buf|)
    decreases |buf| - written
  {
    hide Fits, Tracked, WroteAll, WrotePiece, PieceLen, Boundary;
    WroteStep(b, size, budget, buf[written..], offset + written);
    if written < |buf| {
      var take := PieceLen(|buf| - written, offset + written);
      assert buf[written..][..take] == buf[written..written + take] && buf[written..][take..] == buf[written + take..];
      TrackOne(before, b, size, budget, buf, offset, written);
      PieceFits(b, size, budget, |buf| - written, buf[written..written + take], offset + written);
      PieceSplit(b, size, buf, offset, written);
      var next := WrotePiece(b, size, budget, buf[written..written + take], offset + written);
      TrackAll(before, next, Max(size, offset + written + take), budget, buf, offset, written + take);
    }
  }

  // ----- Making ready to grow -----

  /** The blocks with the final one cut back to the end of the file. */
  function SizeTrimmed(b: Blocks, size: nat): Blocks {
    var idx, valid := size / CHUNK_SIZE, size % CHUNK_SIZE;
    if valid == 0 then b
    else if |BlockOf(b, idx)| <= valid then Loaded(b, idx)
    else Blocks(b.dirty[idx := BlockOf(b, idx)[..valid]], Evicted(Loaded(b, idx).cached, idx), b.stored)
  }

  /** The blocks without those stored between the end of the file and the end of a file of `upto` bytes. */
  function Vacated(b: Blocks, size: nat, upto: nat): Blocks {
    Without(b, BlockCount(size), BlockCount(upto))
  }

  function Without(b: Blocks, low: nat, high: nat): Blocks {
    b.(stored := map k | k in b.stored && !(low <= k < high) :: b.stored[k])
  }

  lemma WithoutNone(b: Blocks, low: nat, high: nat)
    requires high <= low
    ensures Without(b, low, high) == b
  {
    assert Without(b, low, high).stored == b.stored;
  }

  lemma WithoutMore(b: Blocks, low: nat, high: nat)
    requires low <= high
    ensures Without(b, low, high).(stored := Without(b, low, high).stored - {high}) == Without(b, low, high + 1)
  {
    var s, t := Without(b, low, high).stored - {high}, Without(b, low, high + 1).stored;
    assert s.Keys == t.Keys;
    assert s == t;
  }

  /** Removing stored blocks past the end of the file shows in no byte. */
  lemma WithoutKeeps(b: Blocks, size: nat, high: nat)
    ensures var b' := Without(b, BlockCount(size), high);
            && Visible(b', size) == Visible(b, size)
            && (forall k: nat :: k < BlockCount(size) ==> StoredBlock(b', k) == StoredBlock(b, k))
            && (forall k: nat :: BlockCount(size) <= k < high ==> k !in b'.stored)
            && (Fits(b, size) ==> Fits(b', size) && (Safe(b) ==> Safe(b')) && (Hidden(b) ==> Hidden(b'))
                                  && (Trimmed(b, size) ==> Trimmed(b', size)))
            && (b.stored == map[] ==> b' == b)
  {
    hide Visible, Fits, Trimmed, Safe, Hidden;
    var b' := Without(b, BlockCount(size), high);
    VisibleBelow(b, b', size);
    assert b.stored == map[] ==> b'.stored == b.stored;
  }

  /** The blocks made ready for a file of `end` bytes. */
  function Ready(b: Blocks, size: nat, end: nat, trim: bool): Blocks {
    Vacated(if trim then SizeTrimmed(b, size) else b, size, end)
  }

  /** Cutting the final block back shows in no byte, and nothing is left past the end of the file in it. */
  lemma TrimKeeps(b: Blocks, size: nat)
    ensures var b' := SizeTrimmed(b, size);
            && SizeCut(b, b', size) && Trimmed(b', size) && b'.stored == b.stored
            && (b'.cached == b.cached || (b'.cached.Some? ==> b'.cached.value.idx == size / CHUNK_SIZE))
            && (Fits(b, size) ==> Fits(b', size) && (size / CHUNK_SIZE in b.dirty ==> |b.dirty[size / CHUNK_SIZE]| <= size % CHUNK_SIZE))
            && (Fits(b, size) && Safe(b) ==> Safe(b'))
            && (Fits(b, size) && Hidden(b) ==> Hidden(b') && Visible(b', size) == Visible(b, size))
  {
    hide Visible, Raw;
    var idx, valid := size / CHUNK_SIZE, size % CHUNK_SIZE;
    if valid != 0 && Fits(b, size) {
      LoadFits(b, size, idx);
      if valid < |BlockOf(b, idx)| {
        CutReads(b, size, idx, BlockOf(b, idx)[..valid]);
      }
    }
  }

  /** Making ready to grow caches the final block in the place of another. */
  predicate Reloads(b: Blocks, size: nat) {
    && b.cached.Some? && size % CHUNK_SIZE != 0
    && size / CHUNK_SIZE !in b.dirty && b.cached.value.idx != size / CHUNK_SIZE
  }

  /** So growth shows what the blocks showed, stale or not; or, once it has cached the final block, their newest copies. */
  lemma ReadyReads(b: Blocks, size: nat, end: nat)
    requires Fits(b, size)
    ensures Visible(Ready(b, size, end, true), size) == Visible(if Reloads(b, size) then Uncached(b) else b, size)
  {
    var t, u := SizeTrimmed(b, size), if Reloads(b, size) then Uncached(b) else b;
    WithoutKeeps(t, size, BlockCount(end));
    hide Fits, SizeTrimmed;
    forall p: nat | p < size
      ensures Raw(t, p) == Raw(u, p)
    {
      hide Visible;
      assert p / CHUNK_SIZE == size / CHUNK_SIZE ==> p % CHUNK_SIZE < size % CHUNK_SIZE;
      TrimmedBlock(b, size, p / CHUNK_SIZE, p % CHUNK_SIZE);
    }
  }

  lemma TrimmedBlock(b: Blocks, size: nat, k: nat, w: nat)
    requires Fits(b, size) && (k == size / CHUNK_SIZE ==> w < size % CHUNK_SIZE)
    ensures At(BlockOf(SizeTrimmed(b, size), k), w) == At(BlockOf(if Reloads(b, size) then Uncached(b) else b, k), w)
  {
  }

  lemma ReadyInside(b: Blocks, size: nat, end: nat)
    requires end <= size
    ensures Ready(b, size, end, false) == b
  {
    WithoutNone(b, BlockCount(size), BlockCount(end));
  }

  lemma EmptyWrite(f: Bytes, b: Blocks, offset: nat, buf: Bytes)
    ensures Spliced(f, offset, buf[..0]) == f
    ensures buf[..|buf|] == buf
    ensures buf == [] ==> !Clobbers(b, buf, offset)
    ensures Safe(b) ==> Coherent(b)
  {
  }

  lemma CachedInside(b: Blocks, size: nat)
    ensures Fits(b, size) && b.cached.Some? ==> b.cached.value.idx < BlockCount(size)
  {
  }

  lemma UncachedCovers(before: Blocks, b: Blocks, buf: Bytes, offset: nat)
    requires before.cached == None && b.cached == None
    ensures Coherent(b) && !Clobbers(before, buf, offset) && !Clobbers(b, buf, offset)
  {
  }

  /** The bytes a write reports as written. */
  function Reported(buf: Bytes, r: Result<nat, Error>): Bytes {
    if r.Ok? && r.value <= |buf| then buf[..r.value] else []
  }

  lemma QuietSame(b: Blocks)
    ensures Hidden(b) ==> Quiet(b, b)
    ensures forall b0: Blocks :: b0.cached == None ==> Quiet(b0, b)
  {
  }

  lemma NothingResurfaces(b0: Blocks, f: Bytes, buf: Bytes, offset: nat)
    ensures b0.cached == None ==> forall b: Blocks :: !Resurfaces(b0, b, f, buf, offset)
  {
  }

  lemma NoCacheIsHidden(b: Blocks)
    ensures b.cached == None ==> Hidden(b) && Safe(b)
    ensures Safe(b) ==> Hidden(b)
  {
  }

  /** A write for which the buffer has room spills nothing, wherever it stops. */
  lemma RoomyStop(b: Blocks, size: nat, budget: nat, buf: Bytes, offset: nat, written: nat)
    requires Fits(b, size) && Hidden(b) && written <= |buf|
    ensures Total(b.dirty) + Pieces(|buf|, offset) * CHUNK_SIZE <= budget ==> Quiet(b, WroteAll(b, size, budget, buf[..written], offset))
  {
    hide Fits, Hidden, WroteAll, Quiet, Total, Pieces;
    if Total(b.dirty) + Pieces(|buf|, offset) * CHUNK_SIZE <= budget {
      FewerPieces(|buf|, written, offset);
      RoomyWrite(b, b, size, budget, buf[..written], offset);
      UnspilledIsQuiet(b, WroteAll(b, size, budget, buf[..written], offset));
    }
  }

  // ----- Blocks left in the store by a body that was never recorded -----

  /** A body of memory moved into blocks, over whatever is stored already. */
  function Moved(b: Blocks, data: Bytes): Blocks {
    Blocks(ChunksOf(data), None, b.stored)
  }

  /** The stored byte at a place of the file. */
  function StoredAt(b: Blocks, p: nat): byte {
    At(StoredBlock(b, p / CHUNK_SIZE), p % CHUNK_SIZE)
  }

  /** A stored byte that is not zero, in a block that no chunk of a body of `len` bytes covers. */
  predicate LeftAt(b: Blocks, len: nat, p: nat) {
    BlockCount(len) <= p / CHUNK_SIZE && StoredAt(b, p) != 0
  }

  /** Some such byte lies below `limit`, outside the `n` bytes at `from`. */
  predicate LeftShows(b: Blocks, len: nat, limit: nat, from: nat, n: nat) {
    exists p: nat :: p < limit && !(from <= p < from + n) && LeftAt(b, len, p)
  }

  /** A file with those bytes showing in it. */
  function Under(f: Bytes, b: Blocks, len: nat): (r: Bytes)
    ensures |r| == |f|
    ensures forall p :: 0 <= p < |f| ==> r[p] == if LeftAt(b, len, p) then StoredAt(b, p) else f[p]
  {
    seq(|f|, p requires 0 <= p < |f| => if LeftAt(b, len, p) then StoredAt(b, p) else f[p])
  }

  /** How far a file of `size` bytes shows once the blocks between it and a write of `n` bytes at `offset` are gone. */
  function Reach(size: nat, offset: nat, n: nat): (r: nat)
    ensures size <= r
  {
    if n == 0 || Floor(offset) <= size then size else BlockCount(size) * CHUNK_SIZE
  }

  lemma ChunkRaw(b: Blocks, data: Bytes, p: nat)
    ensures Raw(Moved(b, data), p) == if LeftAt(b, |data|, p) then StoredAt(b, p) else At(data, p)
  {
    var k, w := p / CHUNK_SIZE, p % CHUNK_SIZE;
    if k < BlockCount(|data|) {
      ChunkAt(data, k, w);
    }
  }

  /** Moved into blocks, a body shows what was left in the store past its chunks. */
  lemma MovedReads(b: Blocks, data: Bytes, size: nat)
    ensures Visible(Moved(b, data), size) == Under(Fitted(data, size), b, |data|)
    ensures |data| <= size ==> Fits(Moved(b, data), size)
  {
    var f := Fitted(data, size);
    forall p | 0 <= p < size
      ensures Visible(Moved(b, data), size)[p] == Under(f, b, |data|)[p]
    {
      ChunkRaw(b, data, p);
      assert f[p] == At(f, p);
    }
  }

  /** The same once the blocks past the end of the file are gone up to `end`. */
  lemma VacatedReads(b: Blocks, data: Bytes, size: nat, end: nat, n: nat)
    requires |data| <= size <= n <= end
    ensures Fits(Vacated(Moved(b, data), size, end), size)
    ensures Visible(Vacated(Moved(b, data), size, end), n)
         == Resized(Under(Fitted(data, Min(n, BlockCount(size) * CHUNK_SIZE)), b, |data|), n)
  {
    var m, v, limit := Moved(b, data), Vacated(Moved(b, data), size, end), Min(n, BlockCount(size) * CHUNK_SIZE);
    var f := Fitted(data, limit);
    MovedReads(b, data, size);
    VisibleBelow(m, v, size);
    forall p | 0 <= p < n
      ensures Visible(v, n)[p] == Resized(Under(f, b, |data|), n)[p]
    {
      if p < limit {
        assert BlockOf(v, p / CHUNK_SIZE) == BlockOf(m, p / CHUNK_SIZE);
        ChunkRaw(b, data, p);
        assert f[p] == At(f, p);
      } else {
        assert BlockCount(size) <= p / CHUNK_SIZE < BlockCount(end);
        assert BlockOf(v, p / CHUNK_SIZE) == [];
      }
    }
  }

  /** Bytes placed over the left ones hide them, and show exactly when some lie elsewhere. */
  lemma UnderSplice(f: Bytes, b: Blocks, len: nat, offset: nat, buf: Bytes)
    requires forall p :: len <= p < |f| ==> f[p] == 0
    ensures Spliced(Under(f, b, len), offset, buf) == Spliced(f, offset, buf) <==> !LeftShows(b, len, |f|, offset, |buf|)
  {
    var g, h := Spliced(Under(f, b, len), offset, buf), Spliced(f, offset, buf);
    if LeftShows(b, len, |f|, offset, |buf|) {
      var p: nat :| p < |f| && !(offset <= p < offset + |buf|) && LeftAt(b, len, p);
      assert len <= p;
      assert g[p] == Under(f, b, len)[p] != h[p];
    }
  }

  lemma {:induction false} SpillAtAnySize(b: Blocks, size: nat, larger: nat, additional: nat, budget: nat)
    requires Fits(b, size) && size <= larger
    ensures SpilledFor(b, size, additional, budget) == SpilledFor(b, larger, additional, budget)
    decreases |b.dirty|
  {
    if Total(b.dirty) + additional > budget && b.dirty != map[] {
      var low := Lowest(b.dirty);
      assert ValidLen(size, low) <= ValidLen(larger, low);
      assert Spilled(b, size, low) == Spilled(b, larger, low);
      SpillCounts(b, size, low);
      SpillKeepsRaw(b, size, low);
      SpillAtAnySize(Spilled(b, size, low), size, larger, additional, budget);
    }
  }

  /** A write past the end starts as if the file already reached its first chunk. */
  lemma WroteFrom(b: Blocks, size: nat, budget: nat, buf: Bytes, offset: nat)
    requires Fits(b, size) && buf != []
    ensures WroteAll(b, size, budget, buf, offset) == WroteAll(b, Max(size, Floor(offset)), budget, buf, offset)
  {
    hide SpilledFor, Fits, WroteAll, Placed;
    var larger, take := Max(size, Floor(offset)), PieceLen(|buf|, offset);
    SpillAtAnySize(b, size, larger, CHUNK_SIZE, budget);
    assert ValidLen(size, offset / CHUNK_SIZE) == ValidLen(larger, offset / CHUNK_SIZE);
    WroteStep(b, size, budget, buf, offset);
    WroteStep(b, larger, budget, buf, offset);
    assert Max(size, offset + take) == Max(larger, offset + take);
  }

  lemma FitsMore(b: Blocks, size: nat, larger: nat)
    requires Fits(b, size) && size <= larger
    ensures Fits(b, larger)
  {
    assert forall k: nat :: ValidLen(size, k) <= ValidLen(larger, k);
  }

  /** With no block cached, a write shows what the blocks showed up to its first chunk, and its bytes. */
  lemma UncachedWrite(b: Blocks, size: nat, budget: nat, buf: Bytes, offset: nat, b': Blocks)
    requires b.cached == None && Fits(b, size) && OnlySpills(WroteAll(b, size, budget, buf, offset), b')
    ensures Visible(b', SizeAfter(size, buf, offset))
         == Spliced(Visible(b, if buf == [] then size else Max(size, Floor(offset))), offset, buf)
  {
    hide Visible, Spliced, Fits, OnlySpills, WroteAll, Raw;
    if buf == [] {
      WroteStep(b, size, budget, buf, offset);
      EmptySplice(Visible(b, size), offset);
      EmptySplice(Visible(b, size), 0);
      SpillShows(b, size, b');
    } else {
      var larger := Max(size, Floor(offset));
      WroteFrom(b, size, budget, buf, offset);
      FitsMore(b, size, larger);
      NothingPast(b, larger, Floor(offset));
      WriteShows(b, larger, budget, buf, offset, b');
    }
  }

  /** A write to a body it moved into blocks. */
  lemma MovedWrite(b: Blocks, data: Bytes, size: nat, budget: nat, buf: Bytes, offset: nat, end: nat, b': Blocks)
    requires |data| <= size && (buf == [] || offset + |buf| <= end)
    requires OnlySpills(WroteAll(Vacated(Moved(b, data), size, end), size, budget, buf, offset), b')
    ensures Visible(b', SizeAfter(size, buf, offset))
         == Spliced(Under(Fitted(data, Reach(size, offset, |buf|)), b, |data|), offset, buf)
  {
    hide Visible, Fits, OnlySpills, WroteAll, Raw, Vacated, Fitted, BlockCount;
    var v, n := Vacated(Moved(b, data), size, end), if buf == [] then size else Max(size, Floor(offset));
    VacatedPast(Moved(b, data), size, end);
    VacatedReads(b, data, size, Max(size, end), n);
    assert v.cached == None by {
      NoneCached(Moved(b, data), size, end);
    }
    UncachedWrite(v, size, budget, buf, offset, b');
    FloorReaches(size, offset);
    var u := Under(Fitted(data, Reach(size, offset, |buf|)), b, |data|);
    assert Spliced(Resized(u, n), offset, buf) == Spliced(u, offset, buf);
  }

  lemma VacatedPast(b: Blocks, size: nat, end: nat)
    ensures Vacated(b, size, end) == Vacated(b, size, Max(size, end))
  {
    if end < size {
      WithoutNone(b, BlockCount(size), BlockCount(end));
      WithoutNone(b, BlockCount(size), BlockCount(size));
    }
  }

  lemma NoneCached(b: Blocks, size: nat, end: nat)
    ensures Vacated(b, size, end).cached == b.cached && Vacated(b, size, end).dirty == b.dirty
  {
  }

  lemma FloorReaches(size: nat, offset: nat)
    ensures size <= BlockCount(size) * CHUNK_SIZE
    ensures size < Floor(offset) ==> BlockCount(size) * CHUNK_SIZE <= Floor(offset)
  {
  }

  /** It shows as it should exactly when nothing was left where neither the body nor the write has bytes. */
  lemma MovedExactly(b: Blocks, data: Bytes, size: nat, offset: nat, buf: Bytes)
    requires |data| <= size
    ensures var reach := Reach(size, offset, |buf|);
            Spliced(Under(Fitted(data, reach), b, |data|), offset, buf) == Spliced(Fitted(data, size), offset, buf)
            <==> !LeftShows(b, |data|, reach, offset, |buf|)
  {
    hide LeftShows, BlockCount, Under, Spliced;
    var f, g := Fitted(data, size), Fitted(data, Reach(size, offset, |buf|));
    FloorReaches(size, offset);
    assert forall p :: 0 <= p < |g| ==> g[p] == At(g, p) == At(data, p);
    assert forall p :: 0 <= p < |f| ==> f[p] == At(f, p) == At(data, p);
    UnderSplice(g, b, |data|, offset, buf);
    assert Spliced(g, offset, buf) == Spliced(f, offset, buf);
  }

  lemma MovedStops(b: Blocks, data: Bytes, size: nat, offset: nat, buf: Bytes)
    requires |data| <= size
    ensures Reach(size, offset, 0) == size && Spliced(Fitted(data, size), offset, []) == Fitted(data, size)
    ensures var f := Under(Fitted(data, size), b, |data|);
            Spliced(f, offset, []) == f && (f == Fitted(data, size) <==> !LeftShows(b, |data|, size, offset, 0))
    ensures buf[..0] == []
  {
    hide LeftShows, Under, Spliced;
    EmptySplice(Fitted(data, size), offset);
    EmptySplice(Under(Fitted(data, size), b, |data|), offset);
    MovedExactly(b, data, size, offset, []);
  }

  lemma SurfacedExactly(b: Blocks, data: Bytes, size: nat)
    ensures Under(Fitted(data, size), b, |data|) == Fitted(data, size) <==> !LeftShows(b, |data|, size, 0, 0)
  {
    hide LeftShows, Under;
    var f := Fitted(data, size);
    assert forall p :: 0 <= p < size ==> f[p] == At(f, p) == At(data, p);
    UnderSplice(f, b, |data|, 0, []);
    EmptySplice(f, 0);
    EmptySplice(Under(f, b, |data|), 0);
  }

  /** The same of growth to `end` bytes. */
  lemma MovedGrowth(b: Blocks, data: Bytes, size: nat, end: nat)
    requires |data| <= size <= end
    ensures Visible(Vacated(Moved(b, data), size, end), end) == Resized(Fitted(data, size), end)
            <==> !LeftShows(b, |data|, Min(end, BlockCount(size) * CHUNK_SIZE), 0, 0)
  {
    hide LeftShows, BlockCount, Under, Visible, Vacated, Spliced;
    var limit := Min(end, BlockCount(size) * CHUNK_SIZE);
    FloorReaches(size, 0);
    var f, g := Fitted(data, size), Fitted(data, limit);
    VacatedReads(b, data, size, end, end);
    assert forall p :: 0 <= p < |g| ==> g[p] == At(g, p) == At(data, p);
    assert forall p :: 0 <= p < |f| ==> f[p] == At(f, p) == At(data, p);
    UnderSplice(g, b, |data|, 0, []);
    EmptySplice(g, 0);
    EmptySplice(Under(g, b, |data|), 0);
    assert Resized(g, end) == Resized(f, end);
    var u := Under(g, b, |data|);
    if u != g {
      var p :| 0 <= p < limit && u[p] != g[p];
      assert Resized(u, end)[p] != Resized(g, end)[p];
    }
  }

  lemma UnderNothing(f: Bytes, b: Blocks, len: nat)
    requires |f| <= len
    ensures Under(f, b, len) == f
  {
    assert BlockCount(|f|) <= BlockCount(len);
  }

  /** Whether a write leaves a gap after the file's final block as it stands. */
  predicate NeedsTrim(size: nat, offset: nat, len: nat) {
    size < offset + len && size / CHUNK_SIZE * CHUNK_SIZE < offset
  }

  lemma InsideNeedsNone(size: nat, offset: nat, len: nat)
    requires offset + len <= size
    ensures !NeedsTrim(size, offset, len)
  {
  }

  /** Making ready for a write changes neither what it covers nor what it clobbers. */
  lemma PreparedCovers(before: Blocks, b: Blocks, size: nat, buf: Bytes, offset: nat, trim: bool)
    requires Fits(b, size) && (before.cached.Some? ==> before.cached.value.idx < BlockCount(size))
    requires trim == NeedsTrim(size, offset, |buf|)
    requires trim || b.cached == before.cached
    requires trim ==> Blank(b, size, offset + |buf|)
    ensures Blank(b, size, Floor(offset))
    ensures Covers(b, offset, |buf|) == Covers(before, offset, |buf|)
    ensures Clobbers(b, buf, offset) == Clobbers(before, buf, offset)
  {
    hide Raw;
  }

  /** Random padding after a final block shorter than the file's end shows as file bytes at `w`. */
  predicate PadShowsAt(block: Bytes, pad: Bytes, valid: nat, w: nat) {
    |block| <= w < Min(|block| + |pad|, valid) && pad[w - |block|] != 0
  }

  ghost predicate PadShows(block: Bytes, pad: Bytes, valid: nat) {
    exists w: nat :: PadShowsAt(block, pad, valid, w)
  }

  /** Whether a flush rewrites the final block with padding that shows. */
  ghost predicate FinalPadShows(b: Blocks, size: nat, diskSize: nat, pad: Bytes) {
    var last := BlockCount(size) - 1;
    && 0 < size
    && (last in b.dirty || (size < diskSize && size % CHUNK_SIZE != 0))
    && PadShows(BlockOf(b, last), pad, ValidLen(size, last))
  }

  /** Growth has cut the final block back to the end of the file, and left the others. */
  ghost predicate SizeCut(b: Blocks, b': Blocks, size: nat) {
    var idx, valid := size / CHUNK_SIZE, size % CHUNK_SIZE;
    && (forall k :: k in b'.dirty <==> k in b.dirty || (k == idx && 0 < valid < |BlockOf(b, idx)|))
    && (0 < valid ==> BlockOf(b', idx) == Take(BlockOf(b, idx), valid))
  }

  /** Whether growing to `n` bytes and flushing rewrites the final block with padding that shows. */
  ghost predicate GrowthPadShows(b: Blocks, size: nat, n: nat, diskSize: nat, pad: Bytes)
    requires size < n
  {
    var last, valid := BlockCount(n) - 1, size % CHUNK_SIZE;
    var kept := if last == size / CHUNK_SIZE then Take(BlockOf(b, last), valid) else [];
    && (last in b.dirty || (last == size / CHUNK_SIZE && 0 < valid < |BlockOf(b, last)|) || (n < diskSize && n % CHUNK_SIZE != 0))
    && PadShows(kept, pad, ValidLen(n, last))
  }

  lemma SizeCutStill(b: Blocks, b1: Blocks, b2: Blocks, size: nat)
    requires SizeCut(b, b1, size) && b2.dirty == b1.dirty && b2.cached == b1.cached
    requires forall k: nat :: k < BlockCount(size) ==> StoredBlock(b2, k) == StoredBlock(b1, k)
    ensures SizeCut(b, b2, size)
  {
    assert size % CHUNK_SIZE != 0 ==> size / CHUNK_SIZE < BlockCount(size);
  }

  /** Removing blocks past the end changes nothing about the padding of a body just moved into blocks. */
  lemma VacatedPads(b: Blocks, size: nat, end: nat, pad: Bytes)
    requires b.cached == None
    ensures FinalPadShows(Vacated(b, size, end), end, 0, pad) <==> FinalPadShows(b, end, 0, pad)
  {
    hide PadShows;
  }

  /** Nothing is left past a body that reaches the end of its file. */
  lemma NoneLeft(b: Blocks, size: nat, limit: nat)
    requires limit <= BlockCount(size) * CHUNK_SIZE
    ensures !LeftShows(b, size, limit, 0, 0)
  {
  }

  /** A body moved into blocks of which some left in the store shows has no final block to pad. */
  lemma LeftIsUnpadded(b: Blocks, data: Bytes, n: nat, limit: nat, pad: Bytes)
    requires limit <= n
    ensures LeftShows(b, |data|, limit, 0, 0) ==> !FinalPadShows(Moved(b, data), n, 0, pad)
  {
    if LeftShows(b, |data|, limit, 0, 0) {
      var p: nat :| p < limit && LeftAt(b, |data|, p);
      assert BlockCount(|data|) <= p / CHUNK_SIZE <= BlockCount(n) - 1;
      assert BlockCount(n) - 1 !in ChunksOf(data);
    }
  }

  lemma GrowthShows(b: Blocks, b': Blocks, size: nat, n: nat, diskSize: nat, pad: Bytes)
    requires size < n && Fits(b, size) && Fits(b', size) && SizeCut(b, b', size) && Vacant(b', size, n)
    ensures FinalPadShows(b', n, diskSize, pad) <==> GrowthPadShows(b, size, n, diskSize, pad)
  {
    hide PadShows;
    var last, idx := BlockCount(n) - 1, size / CHUNK_SIZE;
    if last != idx || size % CHUNK_SIZE == 0 {
      assert BlockCount(size) <= last && ValidLen(size, last) == 0;
      assert BlockOf(b', last) == [];
      assert last == idx ==> Take(BlockOf(b, last), size % CHUNK_SIZE) == [];
    }
  }

  /** Whether a flush rewrites the final block, and leaves room in it for padding that would show. */
  predicate FinalPadCan(b: Blocks, size: nat, diskSize: nat) {
    && 0 < size
    && (BlockCount(size) - 1 in b.dirty || (size < diskSize && size % CHUNK_SIZE != 0))
    && |BlockOf(b, BlockCount(size) - 1)| < ValidLen(size, BlockCount(size) - 1)
  }

  /** The same of growth to `n` bytes followed by a flush. */
  predicate GrowthPadCan(b: Blocks, size: nat, n: nat, diskSize: nat)
    requires size < n
  {
    var last, valid := BlockCount(n) - 1, size % CHUNK_SIZE;
    var kept := if last == size / CHUNK_SIZE then Take(BlockOf(b, last), valid) else [];
    && (last in b.dirty || (last == size / CHUNK_SIZE && 0 < valid < |BlockOf(b, last)|) || (n < diskSize && n % CHUNK_SIZE != 0))
    && |kept| < ValidLen(n, last)
  }

  /** Padding of a given length can show exactly when there is room for it before the end of the file. */
  lemma PadCan(block: Bytes, valid: nat, len: nat)
    requires 0 < len
    ensures (exists pad: Bytes :: |pad| == len && PadShows(block, pad, valid)) <==> |block| < valid
  {
    if |block| < valid {
      var pad := seq(len, i => 1 as byte);
      assert PadShowsAt(block, pad, valid, |block|);
      assert |pad| == len && PadShows(block, pad, valid);
    }
  }

  lemma FinalPadCanExactly(b: Blocks, size: nat, diskSize: nat, len: nat)
    requires 0 < len
    ensures (exists pad: Bytes :: |pad| == len && FinalPadShows(b, size, diskSize, pad)) <==> FinalPadCan(b, size, diskSize)
    ensures forall pad: Bytes :: FinalPadShows(b, size, diskSize, pad) ==> FinalPadCan(b, size, diskSize)
  {
    if 0 < size {
      var last := BlockCount(size) - 1;
      PadCan(BlockOf(b, last), ValidLen(size, last), len);
      hide PadShows;
      if FinalPadCan(b, size, diskSize) {
        var pad: Bytes :| |pad| == len && PadShows(BlockOf(b, last), pad, ValidLen(size, last));
        assert FinalPadShows(b, size, diskSize, pad);
      }
    }
    forall pad: Bytes | FinalPadShows(b, size, diskSize, pad)
      ensures FinalPadCan(b, size, diskSize)
    {
    }
  }

  lemma GrowthPadCanExactly(b: Blocks, size: nat, n: nat, diskSize: nat, len: nat)
    requires 0 < len && size < n
    ensures (exists pad: Bytes :: |pad| == len && GrowthPadShows(b, size, n, diskSize, pad)) <==> GrowthPadCan(b, size, n, diskSize)
    ensures forall pad: Bytes :: GrowthPadShows(b, size, n, diskSize, pad) ==> GrowthPadCan(b, size, n, diskSize)
  {
    var last := BlockCount(n) - 1;
    var kept := if last == size / CHUNK_SIZE then Take(BlockOf(b, last), size % CHUNK_SIZE) else [];
    PadCan(kept, ValidLen(n, last), len);
    if GrowthPadCan(b, size, n, diskSize) {
      var pad: Bytes :| |pad| == len && PadShows(kept, pad, ValidLen(n, last));
      assert GrowthPadShows(b, size, n, diskSize, pad);
    }
    forall pad: Bytes | GrowthPadShows(b, size, n, diskSize, pad)
      ensures GrowthPadCan(b, size, n, diskSize)
    {
    }
  }

  lemma CutPad(block: Bytes, pad: Bytes, valid: nat)
    ensures PadShows(Take(block, valid), pad, valid) <==> PadShows(block, pad, valid)
  {
    if w: nat :| PadShowsAt(block, pad, valid, w) {
      assert PadShowsAt(Take(block, valid), pad, valid, w);
    }
    if w: nat :| PadShowsAt(Take(block, valid), pad, valid, w) {
      assert PadShowsAt(block, pad, valid, w);
    }
  }

  /** Cutting the final block to the file's end shows in no byte, as long as no stale copy shows. */
  lemma FinalCut(b: Blocks, size: nat, idx: nat, cut: Bytes, diskSize: nat, pad: Bytes)
    requires size % CHUNK_SIZE != 0 && idx == BlockCount(size) - 1 && size < diskSize
    requires cut == Take(BlockOf(b, idx), size % CHUNK_SIZE)
    ensures var b' := Blocks(b.dirty[idx := cut], Evicted(Loaded(b, idx).cached, idx), b.stored);
            && (Coherent(b) ==> Coherent(b'))
            && (Hidden(b) ==> Hidden(b') && Visible(b', size) == Visible(b, size))
            && (FinalPadShows(b', size, size, pad) <==> FinalPadShows(b, size, diskSize, pad))
  {
    var b' := Blocks(b.dirty[idx := cut], Evicted(Loaded(b, idx).cached, idx), b.stored);
    CutPad(BlockOf(b, idx), pad, size % CHUNK_SIZE);
    if Hidden(b) {
      forall p: nat | p < size
        ensures Raw(b', p) == Raw(b, p)
      {
        var k, w := p / CHUNK_SIZE, p % CHUNK_SIZE;
        if k == idx {
          assert w < size % CHUNK_SIZE;
        }
      }
    }
  }

  lemma LoadSame(b: Blocks, idx: nat)
    ensures BlockOf(Loaded(b, idx), idx) == BlockOf(b, idx)
    ensures Loaded(b, idx).dirty == b.dirty && Loaded(b, idx).stored == b.stored
    ensures idx in b.dirty ==> BlockOf(b, idx) == b.dirty[idx]
  {
  }

  /** Dropping a cached block that is dirty, or past the end of the file, shows in no byte. */
  lemma EvictReads(b: Blocks, b': Blocks, size: nat, pad: Bytes)
    requires b' == b || (b' == b.(cached := None) && b.cached.Some?
                         && (BlockCount(size) <= b.cached.value.idx || b.cached.value.idx in b.dirty))
    ensures Visible(b', size) == Visible(b, size)
    ensures Coherent(b) ==> Coherent(b')
    ensures Hidden(b) ==> Hidden(b')
    ensures Hidden(b) && (b'.cached.Some? ==> b'.cached.value.idx !in b'.dirty) ==> Safe(b')
    ensures FinalPadShows(b', size, size, pad) <==> FinalPadShows(b, size, size, pad)
  {
    forall p: nat | p < size
      ensures Raw(b', p) == Raw(b, p)
    {
      assert p / CHUNK_SIZE < BlockCount(size);
    }
  }

  /** Dropping a dirty block once its logical bytes are stored shows in no byte. */
  lemma WriteOutReads(b: Blocks, size: nat, idx: nat, stored: map<nat, Bytes>)
    requires idx in b.dirty && (b.cached.Some? ==> b.cached.value.idx !in b.dirty)
    requires idx < BlockCount(size) ==> stored == b.stored[idx := Take(b.dirty[idx], ValidLen(size, idx))]
    requires BlockCount(size) <= idx ==> stored == b.stored
    ensures Visible(Blocks(b.dirty - {idx}, b.cached, stored), size) == Visible(b, size)
    ensures Safe(b) ==> Safe(Blocks(b.dirty - {idx}, b.cached, stored))
  {
    var b' := Blocks(b.dirty - {idx}, b.cached, stored);
    forall p: nat | p < size
      ensures Raw(b', p) == Raw(b, p)
    {
      var k, w := p / CHUNK_SIZE, p % CHUNK_SIZE;
      assert k < BlockCount(size);
      if k == idx {
        assert w < ValidLen(size, idx);
      }
    }
  }

  /** Padding the final block shows in no byte of the file exactly when no padding lands before the file's end. */
  lemma PaddedReads(b: Blocks, size: nat, idx: nat, pad: Bytes)
    requires idx in b.dirty && idx < BlockCount(size) && (b.cached.Some? ==> b.cached.value.idx !in b.dirty)
    ensures var valid := ValidLen(size, idx);
            var b' := Blocks(b.dirty - {idx}, b.cached, b.stored[idx := Take(b.dirty[idx], valid) + pad]);
            && (Visible(b', size) == Visible(b, size) <==> !PadShows(b.dirty[idx], pad, valid))
            && (Safe(b) ==> Safe(b'))
  {
    var valid := ValidLen(size, idx);
    var b' := Blocks(b.dirty - {idx}, b.cached, b.stored[idx := Take(b.dirty[idx], valid) + pad]);
    if w: nat :| PadShowsAt(b.dirty[idx], pad, valid, w) {
      PieceReads(b', idx, w, [pad[w - |b.dirty[idx]|]]);
      PieceReads(b, idx, w, [0]);
      assert Visible(b', size)[idx * CHUNK_SIZE + w + 0] != Visible(b, size)[idx * CHUNK_SIZE + w + 0];
    } else {
      forall p: nat | p < size
        ensures Raw(b', p) == Raw(b, p)
      {
        var k, w := p / CHUNK_SIZE, p % CHUNK_SIZE;
        if k == idx {
          assert w < valid && !PadShowsAt(b.dirty[idx], pad, valid, w);
        }
      }
    }
  }

  /** One dirty block stored, the final one with padding, or dropped when it lies past the end. */
  function Out(b: Blocks, size: nat, idx: nat, padded: bool, pad: Bytes): Blocks
    requires idx in b.dirty
  {
    var bytes := Take(b.dirty[idx], ValidLen(size, idx));
    Blocks(b.dirty - {idx}, b.cached,
           if idx < BlockCount(size) then b.stored[idx := if padded && idx + 1 == BlockCount(size) then bytes + pad else bytes]
           else b.stored)
  }

  lemma OutReads(b: Blocks, size: nat, idx: nat, padded: bool, pad: Bytes)
    requires idx in b.dirty && (b.cached.Some? ==> b.cached.value.idx !in b.dirty)
    ensures var b' := Out(b, size, idx, padded, pad);
            && b'.dirty == b.dirty - {idx} && b'.cached == b.cached && |b'.dirty| < |b.dirty|
            && Total(b'.dirty) == Total(b.dirty) - |b.dirty[idx]|
            && (Safe(b) ==> Safe(b'))
            && (Visible(b', size) == Visible(b, size)
                <==> !(padded && idx + 1 == BlockCount(size) && PadShows(b.dirty[idx], pad, ValidLen(size, idx))))
  {
    TotalRemove(b.dirty, idx);
    assert (b.dirty - {idx}).Keys == b.dirty.Keys - {idx};
    hide Visible, Total, Safe, PadShows, Take;
    if padded && idx + 1 == BlockCount(size) {
      PaddedReads(b, size, idx, pad);
    } else {
      WriteOutReads(b, size, idx, Out(b, size, idx, padded, pad).stored);
    }
  }

  /** What is left of a dirty map is as it was. */
  ghost predicate Remains(before: map<nat, Bytes>, now: map<nat, Bytes>) {
    forall k :: k in now ==> k in before && now[k] == before[k]
  }

  /** What went from a dirty map lay below what is left of it. */
  ghost predicate Above(before: map<nat, Bytes>, now: map<nat, Bytes>) {
    forall j, k :: j in before && j !in now && k in now ==> j < k
  }

  lemma RemainsAll(m: map<nat, Bytes>)
    ensures Remains(m, m) && Above(m, m)
  {
  }

  lemma RemainsLess(before: map<nat, Bytes>, now: map<nat, Bytes>, k: nat)
    requires Remains(before, now) && k in now
    ensures Remains(before, now - {k}) && k in before && before[k] == now[k]
    ensures Above(before, now) && (forall j :: j in now ==> k <= j) ==> Above(before, now - {k})
  {
  }

  /** When storing block `idx` fails, no dirty block from there on has gone. */
  lemma RemainsAbove(before: map<nat, Bytes>, now: map<nat, Bytes>, idx: nat, last: int)
    requires Remains(before, now) && Above(before, now) && idx in now
    ensures idx <= last && last in before ==> last in now
  {
  }

  /** A file of one byte, grown to two and flushed with padding, gains a byte that is not zero. */
  lemma PaddingShows() returns (b: Blocks, pad: Bytes)
    ensures Fits(b, 1) && Safe(b) && 0 in b.dirty
    ensures Raw(b, 1) == 0 && Raw(Out(b, 2, 0, true, pad), 1) == 5
  {
    b, pad := Blocks(map[0 := [1]], None, map[]), [5];
    assert BlockOf(Out(b, 2, 0, true, pad), 0) == [1, 5];
  }

  lemma FinalShows(b: Blocks, size: nat, pad: Bytes)
    ensures FinalPadShows(b, size, size, pad) <==>
            (0 < BlockCount(size) && BlockCount(size) - 1 in b.dirty
             && PadShows(b.dirty[BlockCount(size) - 1], pad, ValidLen(size, BlockCount(size) - 1)))
  {
  }

  lemma GrownReads(b: Blocks, size: nat, end: nat)
    requires size <= end && Fits(b, size) && Blank(b, size, end)
    ensures Fits(b, end) && Visible(b, end) == Resized(Visible(b, size), end)
  {
    hide Raw;
    assert forall k: nat :: ValidLen(size, k) <= ValidLen(end, k);
  }

  lemma MemorySplices(data: Bytes, size: nat, offset: nat, buf: Bytes)
    requires |data| <= size && buf != []
    ensures |Placed(data, offset, buf)| <= Max(size, offset + |buf|)
    ensures Fitted(Placed(data, offset, buf), Max(size, offset + |buf|)) == Spliced(Fitted(data, size), offset, buf)
  {
    hide Placed, Fitted, Spliced;
    var f, g := Fitted(data, size), Fitted(Placed(data, offset, buf), Max(size, offset + |buf|));
    forall p: nat | p < |g|
      ensures g[p] == Spliced(f, offset, buf)[p]
    {
      assert g[p] == At(g, p) == At(Placed(data, offset, buf), p);
      assert At(f, p) == At(data, p);
    }
  }

  lemma MemoryGrows(data: Bytes, size: nat, end: nat)
    requires |data| <= size <= end
    ensures Fitted(data, end) == Resized(Fitted(data, size), end)
  {
  }

  lemma ShrunkReads(b: Blocks, size: nat, n: nat)
    requires n <= size
    ensures Visible(b, n) == Resized(Visible(b, size), n)
  {
  }

  lemma MemoryShrinks(data: Bytes, size: nat, n: nat)
    requires n <= size
    ensures Fitted(data, n) == Resized(Fitted(data, size), n)
  {
  }

  /** The file after a range is allocated in it. */
  function Allocated(f: Bytes, offset: nat, length: nat, zero: bool, keepSize: bool): Bytes {
    var z := if zero then Zeroed(f, offset, length) else f;
    if keepSize || offset + length <= |f| then z else Resized(z, offset + length)
  }

  /** The bytes left in the chunk a position falls in. */
  function Room(pos: nat): (r: nat)
    ensures 0 < r <= CHUNK_SIZE
  {
    CHUNK_SIZE - pos % CHUNK_SIZE
  }

  lemma ZeroedNone(f: Bytes, offset: nat)
    ensures Zeroed(f, offset, 0) == f
  {
  }

  function Zeros(n: nat): (r: Bytes)
    ensures |r| == n && forall i :: 0 <= i < n ==> r[i] == 0
  {
    seq(n, i => 0 as byte)
  }

  /** How much of a range lies in the file. */
  function ZeroLimit(size: nat, offset: nat, length: nat): nat {
    if size <= offset then 0 else Min(length, size - offset)
  }

  lemma ZeroMore(f: Bytes, offset: nat, done: nat, n: nat)
    requires offset + done + n <= |f|
    ensures Spliced(Zeroed(f, offset, done), offset + done, Zeros(n)) == Zeroed(f, offset, done + n)
  {
  }

  lemma RoomEnds(pos: nat)
    ensures Boundary(pos + Room(pos))
  {
  }

  lemma ZeroInTwo(b: Blocks, size: nat, budget: nat, offset: nat, done: nat, n: nat)
    requires (done == 0 || Boundary(offset + done)) && offset + done + n <= size
    ensures WroteAll(b, size, budget, Zeros(done + n), offset)
         == WroteAll(WroteAll(b, size, budget, Zeros(done), offset), size, budget, Zeros(n), offset + done)
  {
    assert Zeros(done + n) == Zeros(done) + Zeros(n);
    WroteInTwo(b, size, budget, Zeros(done), Zeros(n), offset);
  }

  lemma ZeroedIsSpliced(f: Bytes, offset: nat, length: nat)
    ensures Zeroed(f, offset, length) == Spliced(f, offset, Zeros(ZeroLimit(|f|, offset, length)))
         == Zeroed(f, offset, ZeroLimit(|f|, offset, length))
  {
  }

  /**
   How long a body of `len` bytes is when zeroing from `offset` on moves it into blocks: zeroing goes chunk by
   chunk, and the move happens at the chunk past which a body does not stay in memory, or at the first one.
   */
  function LenMoved(limit: nat, len: nat, offset: nat): (r: nat)
    ensures len <= r
  {
    if Floor(limit) <= offset then len else Max(len, Floor(limit))
  }

  /** The file that a range is zeroed in, once its body is moved into blocks or before. */
  function Ground(f: Bytes, b: Blocks, len: nat, moved: bool): Bytes {
    if moved then Under(f, b, len) else f
  }

  lemma GroundStart(f: Bytes, b: Blocks, limit: nat, len: nat, offset: nat, size: nat, budget: nat)
    ensures Zeroed(Ground(f, b, LenMoved(limit, len, offset), false), offset, 0) == f && WroteAll(b, size, budget, Zeros(0), offset) == b
  {
  }

  lemma MoveLen(limit: nat, offset: nat, done: nat, cap: nat, len: nat)
    requires (done == 0 || Boundary(offset + done)) && cap <= Room(offset + done)
    requires limit < offset + done + cap && (done == 0 || offset + done <= limit)
    ensures LenMoved(limit, len, offset) == if done == 0 then len else Max(len, offset + done)
  {
  }

  /** The bytes zeroed so far hide what was left under them. */
  lemma ZeroUnder(f: Bytes, b: Blocks, len: nat, offset: nat, done: nat)
    requires done == 0 || offset + done <= len
    ensures Under(Zeroed(f, offset, done), b, len) == Zeroed(Under(f, b, len), offset, done)
  {
  }

  /** Zeroing one more chunk, in memory, in blocks, or moving from one to the other. */
  lemma ZeroStep(f: Bytes, b: Blocks, limit: nat, len: nat, offset: nat, done: nat, cap: nat, n: nat, moved: bool)
    requires (done == 0 || Boundary(offset + done)) && n <= cap <= Room(offset + done) && offset + done + cap <= |f|
    requires !moved && 0 < done ==> offset + done <= limit
    ensures var moves, at := !moved && limit < offset + done + cap, if done == 0 then len else Max(len, offset + done);
            var g := Zeroed(Ground(f, b, LenMoved(limit, len, offset), moved), offset, done);
            Spliced(if moves then Under(g, b, at) else g, offset + done, Zeros(n))
            == Zeroed(Ground(f, b, LenMoved(limit, len, offset), moved || moves), offset, done + n)
  {
    hide LenMoved, Room, Boundary, Spliced, Zeroed, Under;
    ZeroMore(Ground(f, b, LenMoved(limit, len, offset), moved), offset, done, n);
    if !moved && limit < offset + done + cap {
      MoveLen(limit, offset, done, cap, len);
      ZeroUnder(f, b, LenMoved(limit, len, offset), offset, done);
      ZeroMore(Under(f, b, LenMoved(limit, len, offset)), offset, done, n);
    }
  }

  lemma MemoryEnds(data: Bytes, size: nat, len: nat)
    requires |data| <= len
    ensures forall p :: len <= p < size ==> Fitted(data, size)[p] == 0
  {
    var f := Fitted(data, size);
    assert forall p :: 0 <= p < size ==> f[p] == At(f, p) == At(data, p);
  }

  /** A zeroed range shows what was left in the store exactly when some of it lies outside. */
  lemma ZeroedExactly(f: Bytes, b: Blocks, len: nat, offset: nat, n: nat)
    requires (forall p :: len <= p < |f| ==> f[p] == 0) && (n == 0 || offset + n <= |f|)
    ensures Zeroed(Under(f, b, len), offset, n) == Zeroed(f, offset, n) <==> !LeftShows(b, len, |f|, offset, n)
  {
    var g, h := Zeroed(Under(f, b, len), offset, n), Zeroed(f, offset, n);
    if LeftShows(b, len, |f|, offset, n) {
      var p: nat :| p < |f| && !(offset <= p < offset + n) && LeftAt(b, len, p);
      assert len <= p;
      assert g[p] == Under(f, b, len)[p] != h[p];
    }
  }

  lemma ResizedApart(f: Bytes, g: Bytes, n: nat)
    requires |f| == |g| <= n
    ensures Resized(f, n) == Resized(g, n) <==> f == g
  {
    if f != g {
      var p :| 0 <= p < |f| && f[p] != g[p];
      assert Resized(f, n)[p] != Resized(g, n)[p];
    }
  }

  /** What zeroing a range of a block body does to the file. */
  lemma ZeroShows(b: Blocks, size: nat, budget: nat, offset: nat, n: nat, b': Blocks)
    requires Hidden(b) && Fits(b, size) && (n == 0 || offset + n <= size)
    requires OnlySpills(WroteAll(b, size, budget, Zeros(n), offset), b')
    ensures Visible(b', size) == Zeroed(Visible(b, size), offset, n) <==> !Resurfaces(b, b', Visible(b, size), Zeros(n), offset)
    ensures Quiet(b, b') ==> Hidden(b') && !Resurfaces(b, b', Visible(b, size), Zeros(n), offset)
  {
    hide Visible, Zeroed, Spliced, OnlySpills, WroteAll, Hidden, Fits, Quiet, Resurfaces, Raw;
    var f := Visible(b, size);
    ZeroedIsSpliced(f, offset, n);
    if n == 0 {
      WroteStep(b, size, budget, Zeros(0), offset);
      WroteStep(b, size, budget, Zeros(0), 0);
      EmptySplice(f, offset);
      EmptySplice(f, 0);
      EmptyResurfaces(b, b', f, offset);
      WriteShows(b, size, budget, Zeros(0), 0, b');
    } else {
      WriteShows(b, size, budget, Zeros(n), offset, b');
    }
  }

  lemma EmptyResurfaces(b: Blocks, b': Blocks, f: Bytes, offset: nat)
    ensures Resurfaces(b, b', f, Zeros(0), offset) <==> Resurfaces(b, b', f, Zeros(0), 0)
  {
    assert Zeros(0) == [];
    if b.cached.Some? {
      var over := Overlaid(f, b.cached.value.idx, b.cached.value.bytes);
      EmptySplice(f, offset);
      EmptySplice(f, 0);
      EmptySplice(over, offset);
      EmptySplice(over, 0);
    }
  }

  lemma SpillLeaves(buf: Bytes)
    requires |buf| == 2 * CHUNK_SIZE
    ensures WroteAll(Vacated(Moved(Blocks(map[], None, map[]), []), 0, |buf|), 0, CHUNK_SIZE, buf, 0).stored == map[0 := buf[..CHUNK_SIZE]]
  {
    hide WroteAll, Total;
    var b, piece := Blocks(map[], None, map[]), buf[..CHUNK_SIZE];
    assert Vacated(Moved(b, []), 0, |buf|) == b by {
      assert ChunksOf([]) == map[];
    }
    TotalInsert(map[], 0, piece);
    assert Total(map[]) == 0 by {
      SplitNone([]);
    }
    WroteStep(b, 0, CHUNK_SIZE, buf, 0);
    WholeBlock(b, 0, 0, piece);
    var b1, rest := Blocks(map[0 := piece], None, map[]), buf[CHUNK_SIZE..];
    assert WrotePiece(b, 0, CHUNK_SIZE, piece, 0) == b1;
    var b2 := Spilled(b1, CHUNK_SIZE, 0);
    assert b2.dirty == map[] && b2.stored == map[0 := piece];
    SpilledForNext(b1, CHUNK_SIZE, CHUNK_SIZE, CHUNK_SIZE, 0);
    SpilledForDone(b2, CHUNK_SIZE, CHUNK_SIZE, CHUNK_SIZE);
    WroteStep(b1, CHUNK_SIZE, CHUNK_SIZE, rest, CHUNK_SIZE);
    assert rest[..CHUNK_SIZE] == rest && rest[CHUNK_SIZE..] == [];
    WroteStep(WrotePiece(b1, CHUNK_SIZE, CHUNK_SIZE, rest, CHUNK_SIZE), 2 * CHUNK_SIZE, CHUNK_SIZE, [], 2 * CHUNK_SIZE);
  }

  /** What a file's inode record and stored bytes say it holds. */
  function OnDisk(size: nat, record: FileData, extent: Option<Bytes>, stored: map<nat, Bytes>): Bytes {
    match record
    case Inline(bytes) => Fitted(bytes, size)
    case Packed => Fitted(ExtentBytes(extent), size)
    case File => Visible(Blocks(map[], None, stored), size)
  }

  lemma CleanReads(b: Blocks, size: nat)
    requires b.dirty == map[]
    ensures Hidden(b) ==> Visible(Blocks(map[], None, b.stored), size) == Visible(b, size)
  {
  }

  /** The stored extent reads as the body exactly when none of it shows past what the body was read from. */
  lemma ExtentIsBody(data: Bytes, extent: Option<Bytes>, clean: nat, size: nat)
    requires ExtentReads(data, extent, clean) && clean <= size
    ensures Fitted(ExtentBytes(extent), size) == Fitted(data, size) <==> !ShowsBetween(extent, clean, size)
  {
    var stored := ExtentBytes(extent);
    assert forall p :: 0 <= p < size ==> Fitted(stored, size)[p] == At(Fitted(stored, size), p) == At(stored, p);
    assert forall p :: 0 <= p < size ==> Fitted(data, size)[p] == At(Fitted(data, size), p) == At(data, p);
    if p: nat :| clean <= p < size && At(stored, p) != 0 {
      assert Fitted(stored, size)[p] != Fitted(data, size)[p];
    } else {
      assert forall p :: 0 <= p < size ==> Fitted(stored, size)[p] == Fitted(data, size)[p];
    }
  }
}
