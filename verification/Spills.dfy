/**
 Which dirty blocks a whole write leaves in memory, told from the dirty blocks before it, the budget and
 the range written: what decides whether a stale cached block comes to show.
 */
module WriteSpills {
  import opened Common
  import opened FileBlocks

  /** The dirty blocks that making room for a chunk leaves. */
  ghost function Kept(m: map<nat, Bytes>, budget: nat): map<nat, Bytes> {
    map j | j in m && Total(From(m, j)) + CHUNK_SIZE <= budget :: m[j]
  }

  function Outside(m: map<nat, Bytes>, low: nat, high: nat): map<nat, Bytes> {
    map j | j in m && !(low <= j < high) :: m[j]
  }

  function LastChunk(pos: nat, len: nat): nat
    requires 0 < len
  {
    (pos + len - 1) / CHUNK_SIZE
  }

  /** A block is dirty and making room for a chunk leaves it so. */
  ghost predicate Stays(m: map<nat, Bytes>, budget: nat, k: nat) {
    k in m && Total(From(m, k)) + CHUNK_SIZE <= budget
  }

  /**
   Whether block `k` is dirty after a write of `len` bytes at `pos`. Every chunk written but the last is
   full when room is made for the last one. A block below the range must have left room for them all; a
   block in it for those above it and for what making room for it had left beyond; a block above it only
   for one chunk.
   */
  ghost predicate StaysThrough(m: map<nat, Bytes>, budget: nat, pos: nat, len: nat, k: nat)
    requires 0 < len
  {
    var first, last := pos / CHUNK_SIZE, LastChunk(pos, len);
    if k < first then k in m && Total(Outside(From(m, k), first, last)) + (last - first + 1) * CHUNK_SIZE <= budget
    else if k <= last then k == last || Total(From(Kept(m, budget), last)) + (last - k + 1) * CHUNK_SIZE <= budget
    else Stays(m, budget, k)
  }

  /** Whether a write reads the cached block back: it replaces part of it, and its dirty copy, if any, has gone. */
  ghost predicate TakesCached(b: Blocks, budget: nat, pos: nat, len: nat)
    requires 0 < len
  {
    && b.cached.Some? && pos / CHUNK_SIZE <= b.cached.value.idx <= LastChunk(pos, len)
    && !Covers(b, pos, len) && !Stays(b.dirty, budget, b.cached.value.idx)
  }

  // ----- One piece -----

  /** The dirty blocks after one piece. */
  lemma PieceDirty(b: Blocks, size: nat, budget: nat, piece: Bytes, pos: nat)
    requires Fits(b, size) && pos % CHUNK_SIZE + |piece| <= CHUNK_SIZE
    ensures var b', idx := WrotePiece(b, size, budget, piece, pos), pos / CHUNK_SIZE;
            && idx in b'.dirty && b'.dirty == Kept(b.dirty, budget)[idx := b'.dirty[idx]]
            && |b'.dirty[idx]| <= CHUNK_SIZE && pos % CHUNK_SIZE + |piece| <= |b'.dirty[idx]|
  {
    hide Fits, SpilledFor, Base, Placed, Replaces, From, Total, Stays;
    var s := SpilledFor(b, size, CHUNK_SIZE, budget);
    SpilledForSpills(b, size, CHUNK_SIZE, budget);
    WroteTotals(s, size, pos / CHUNK_SIZE, pos % CHUNK_SIZE, piece);
    forall k
      ensures k in s.dirty <==> k in Kept(b.dirty, budget)
      ensures k in s.dirty ==> s.dirty[k] == b.dirty[k]
    {
      if k >= 0 {
        StaysWhen(b, size, CHUNK_SIZE, budget, k);
        assert Newest(s, k) == Newest(b, k);
      }
    }
    assert s.dirty == Kept(b.dirty, budget);
  }

  lemma FewerAbove(m: map<nat, Bytes>, j: nat, k: nat)
    requires j <= k
    ensures Total(From(m, k)) <= Total(From(m, j))
  {
    TotalOfSome(From(m, j), From(m, k));
  }

  /** Making room leaves a block together with all those above it. */
  lemma KeptFrom(m: map<nat, Bytes>, budget: nat, k: nat)
    requires Stays(m, budget, k)
    ensures From(Kept(m, budget), k) == From(m, k)
  {
    hide Total;
    forall j | j in m && k <= j
      ensures j in Kept(m, budget)
    {
      FewerAbove(m, k, j);
    }
    assert From(Kept(m, budget), k).Keys == From(m, k).Keys;
  }

  /** A piece below a block changes nothing about whether it stays. */
  lemma PieceBelow(m: map<nat, Bytes>, budget: nat, idx: nat, block: Bytes, k: nat)
    requires idx < k
    ensures Stays(Kept(m, budget)[idx := block], budget, k) <==> Stays(m, budget, k)
    ensures From(Kept(Kept(m, budget)[idx := block], budget), k) == From(Kept(m, budget), k)
  {
    var m' := Kept(m, budget)[idx := block];
    forall j | k <= j
      ensures Stays(m', budget, j) <==> Stays(m, budget, j)
    {
      hide Total;
      if Stays(m, budget, j) {
        KeptFrom(m, budget, j);
        assert From(m', j) == From(Kept(m, budget), j);
      }
    }
    hide Total, From, Kept;
    SameKept(m', m, budget, k);
  }

  lemma SameKept(m': map<nat, Bytes>, m: map<nat, Bytes>, budget: nat, k: nat)
    requires forall j :: k <= j ==> (Stays(m', budget, j) <==> Stays(m, budget, j))
    requires forall j :: k <= j && Stays(m, budget, j) ==> j in m' && j in m && m'[j] == m[j]
    ensures From(Kept(m', budget), k) == From(Kept(m, budget), k)
  {
    hide Total;
    assert forall j :: j in From(Kept(m', budget), k) <==> k <= j && Stays(m', budget, j);
    assert forall j :: j in From(Kept(m, budget), k) <==> k <= j && Stays(m, budget, j);
  }

  // ----- All pieces -----

  /** How a write of more than one chunk goes on after the first. */
  lemma NextChunk(pos: nat, len: nat)
    requires 0 < len
    ensures var take := PieceLen(len, pos);
            && pos % CHUNK_SIZE + take <= CHUNK_SIZE
            && (pos / CHUNK_SIZE < LastChunk(pos, len) ==>
                  && 0 < len - take && (pos + take) / CHUNK_SIZE == pos / CHUNK_SIZE + 1
                  && LastChunk(pos + take, len - take) == LastChunk(pos, len) && pos % CHUNK_SIZE + take == CHUNK_SIZE)
            && (pos / CHUNK_SIZE == LastChunk(pos, len) ==> take == len)
            && pos / CHUNK_SIZE <= LastChunk(pos, len)
  {
  }

  /** Blocks of at most a chunk each in a range come to no more than the range. */
  lemma {:induction false} RangeTotal(m: map<nat, Bytes>, low: nat, high: nat)
    requires low <= high && forall j :: j in m ==> |m[j]| <= CHUNK_SIZE
    ensures Total(m) <= Total(Outside(m, low, high)) + (high - low) * CHUNK_SIZE
    decreases high - low
  {
    hide Total;
    if low == high {
      assert Outside(m, low, high) == m;
    } else if low in m {
      TotalRemove(m, low);
      RangeTotal(m - {low}, low + 1, high);
      assert Outside(m - {low}, low + 1, high) == Outside(m, low, high);
    } else {
      RangeTotal(m, low + 1, high);
      assert Outside(m, low + 1, high) == Outside(m, low, high);
    }
  }

  lemma FitChunks(b: Blocks, size: nat)
    requires Fits(b, size)
    ensures forall j :: j in b.dirty ==> |b.dirty[j]| <= CHUNK_SIZE
  {
  }

  /** One full chunk written above a block that stays. */
  lemma FullAbove(m: map<nat, Bytes>, budget: nat, first: nat, last: nat, block: Bytes, k: nat)
    requires k < first < last && |block| == CHUNK_SIZE && forall j :: j in m ==> |m[j]| <= CHUNK_SIZE
    ensures var m' := Kept(m, budget)[first := block];
            (k in m' && Total(Outside(From(m', k), first + 1, last)) + (last - first) * CHUNK_SIZE <= budget)
            <==> (k in m && Total(Outside(From(m, k), first, last)) + (last - first + 1) * CHUNK_SIZE <= budget)
  {
    hide Total;
    var m' := Kept(m, budget)[first := block];
    if k in m {
      RangeTotal(From(m, k), first, last);
    }
    if Stays(m, budget, k) {
      KeptFrom(m, budget, k);
      assert From(m', k) == From(m, k)[first := block];
      var rest := Outside(From(m, k), first, last);
      assert Outside(From(m', k), first + 1, last) == rest[first := block];
      TotalInsert(rest, first, block);
    }
  }

  /** A block below the range. */
  lemma {:induction false} BelowStays(b: Blocks, size: nat, budget: nat, buf: Bytes, pos: nat, k: nat)
    requires Fits(b, size) && buf != [] && k < pos / CHUNK_SIZE
    ensures k in WroteAll(b, size, budget, buf, pos).dirty <==> StaysThrough(b.dirty, budget, pos, |buf|, k)
    decreases |buf|
  {
    hide Fits, WroteAll, WrotePiece, PieceLen, LastChunk, Total, From, Outside;
    var take, first, last := PieceLen(|buf|, pos), pos / CHUNK_SIZE, LastChunk(pos, |buf|);
    NextChunk(pos, |buf|);
    WroteStep(b, size, budget, buf, pos);
    PieceDirty(b, size, budget, buf[..take], pos);
    PieceFits(b, size, budget, |buf|, buf[..take], pos);
    var b' := WrotePiece(b, size, budget, buf[..take], pos);
    if first == last {
      assert buf[take..] == [];
      WroteStep(b', Max(size, pos + take), budget, [], pos + take);
      assert Outside(From(b.dirty, k), first, last) == From(b.dirty, k) by {
        OutsideNone(From(b.dirty, k), first);
      }
    } else {
      FitChunks(b, size);
      FullAbove(b.dirty, budget, first, last, b'.dirty[first], k);
      BelowStays(b', Max(size, pos + take), budget, buf[take..], pos + take, k);
    }
  }

  lemma OutsideNone(m: map<nat, Bytes>, at: nat)
    ensures Outside(m, at, at) == m
  {
  }

  /** A block above the range. */
  lemma {:induction false} AboveStays(b: Blocks, size: nat, budget: nat, buf: Bytes, pos: nat, k: nat)
    requires Fits(b, size) && buf != [] && LastChunk(pos, |buf|) < k
    ensures k in WroteAll(b, size, budget, buf, pos).dirty <==> Stays(b.dirty, budget, k)
    decreases |buf|
  {
    hide Fits, WroteAll, WrotePiece, PieceLen, LastChunk, Total, From;
    var take := PieceLen(|buf|, pos);
    NextChunk(pos, |buf|);
    WroteStep(b, size, budget, buf, pos);
    PieceDirty(b, size, budget, buf[..take], pos);
    PieceFits(b, size, budget, |buf|, buf[..take], pos);
    var b' := WrotePiece(b, size, budget, buf[..take], pos);
    if pos / CHUNK_SIZE == LastChunk(pos, |buf|) {
      assert buf[take..] == [];
      WroteStep(b', Max(size, pos + take), budget, [], pos + take);
    } else {
      PieceBelow(b.dirty, budget, pos / CHUNK_SIZE, b'.dirty[pos / CHUNK_SIZE], k);
      AboveStays(b', Max(size, pos + take), budget, buf[take..], pos + take, k);
    }
  }

  lemma JustWritten(m: map<nat, Bytes>, budget: nat, first: nat, last: nat, block: Bytes)
    requires first < last && |block| == CHUNK_SIZE
    ensures Total(Outside(From(Kept(m, budget)[first := block], first), first + 1, last)) == Total(From(Kept(m, budget), last)) + CHUNK_SIZE
  {
    hide Total, Kept;
    var kept := Kept(m, budget);
    assert Outside(From(kept[first := block], first), first + 1, last) == From(kept, last)[first := block];
    TotalInsert(From(kept, last), first, block);
  }

  /** A block in the range. */
  lemma {:induction false} InsideStays(b: Blocks, size: nat, budget: nat, buf: Bytes, pos: nat, k: nat)
    requires Fits(b, size) && buf != [] && pos / CHUNK_SIZE <= k <= LastChunk(pos, |buf|)
    ensures k in WroteAll(b, size, budget, buf, pos).dirty <==> StaysThrough(b.dirty, budget, pos, |buf|, k)
    decreases |buf|
  {
    hide Fits, WroteAll, WrotePiece, PieceLen, LastChunk, Total, From, Kept, Outside;
    var take, first, last := PieceLen(|buf|, pos), pos / CHUNK_SIZE, LastChunk(pos, |buf|);
    NextChunk(pos, |buf|);
    WroteStep(b, size, budget, buf, pos);
    PieceDirty(b, size, budget, buf[..take], pos);
    PieceFits(b, size, budget, |buf|, buf[..take], pos);
    var b' := WrotePiece(b, size, budget, buf[..take], pos);
    if first == last {
      assert buf[take..] == [];
      WroteStep(b', Max(size, pos + take), budget, [], pos + take);
    } else if k == first {
      JustWritten(b.dirty, budget, first, last, b'.dirty[first]);
      BelowStays(b', Max(size, pos + take), budget, buf[take..], pos + take, k);
    } else {
      PieceBelow(b.dirty, budget, first, b'.dirty[first], last);
      InsideStays(b', Max(size, pos + take), budget, buf[take..], pos + take, k);
    }
  }

  /** Which blocks are dirty after a write, told from those before it, the budget and the range. */
  lemma DirtyAfter(b: Blocks, size: nat, budget: nat, buf: Bytes, pos: nat, k: nat)
    requires Fits(b, size) && buf != []
    ensures k in WroteAll(b, size, budget, buf, pos).dirty <==> StaysThrough(b.dirty, budget, pos, |buf|, k)
  {
    hide Fits, WroteAll, Total, From, Kept, Outside, LastChunk;
    if k < pos / CHUNK_SIZE {
      BelowStays(b, size, budget, buf, pos, k);
    } else if k <= LastChunk(pos, |buf|) {
      InsideStays(b, size, budget, buf, pos, k);
    } else {
      NextChunk(pos, |buf|);
      AboveStays(b, size, budget, buf, pos, k);
    }
  }

  lemma PieceCached(b: Blocks, size: nat, budget: nat, piece: Bytes, pos: nat)
    requires Fits(b, size) && pos % CHUNK_SIZE + |piece| <= CHUNK_SIZE
    ensures var k := pos / CHUNK_SIZE;
            WrotePiece(b, size, budget, piece, pos).cached
            == if && b.cached.Some? && b.cached.value.idx == k && !Stays(b.dirty, budget, k)
                  && !(pos % CHUNK_SIZE == 0 && |piece| == CHUNK_SIZE) then None else b.cached
  {
    hide Fits, SpilledFor, Base, Placed, From, Total, OnlySpills, ValidLen;
    var s := SpilledFor(b, size, CHUNK_SIZE, budget);
    SpilledForSpills(b, size, CHUNK_SIZE, budget);
    SpillsSame(b, s);
    StaysWhen(b, size, CHUNK_SIZE, budget, pos / CHUNK_SIZE);
    if b.cached.Some? {
      HoldsBytes(b, size);
    }
  }

  lemma CoversNext(b: Blocks, pos: nat, len: nat)
    requires 0 < len && b.cached.Some?
    ensures var take, k := PieceLen(len, pos), b.cached.value.idx;
            && (pos / CHUNK_SIZE < k ==> Covers(b, pos + take, len - take) == Covers(b, pos, len))
            && (pos / CHUNK_SIZE == k ==> (Covers(b, pos, len) <==> pos % CHUNK_SIZE == 0 && take == CHUNK_SIZE))
  {
    assert pos == pos / CHUNK_SIZE * CHUNK_SIZE + pos % CHUNK_SIZE;
    if pos / CHUNK_SIZE < b.cached.value.idx {
      assert (pos / CHUNK_SIZE + 1) * CHUNK_SIZE <= b.cached.value.idx * CHUNK_SIZE;
    }
  }

  /** What a write leaves of the cache. */
  lemma {:induction false} CachedAfter(b: Blocks, size: nat, budget: nat, buf: Bytes, pos: nat)
    requires Fits(b, size) && buf != []
    ensures WroteAll(b, size, budget, buf, pos).cached == if TakesCached(b, budget, pos, |buf|) then None else b.cached
    decreases |buf|
  {
    hide Fits, WroteAll, WrotePiece, PieceLen, LastChunk, Stays, Covers, Kept;
    var take, first := PieceLen(|buf|, pos), pos / CHUNK_SIZE;
    NextChunk(pos, |buf|);
    WroteStep(b, size, budget, buf, pos);
    PieceCached(b, size, budget, buf[..take], pos);
    PieceDirty(b, size, budget, buf[..take], pos);
    PieceFits(b, size, budget, |buf|, buf[..take], pos);
    var b' := WrotePiece(b, size, budget, buf[..take], pos);
    if b.cached.Some? {
      CoversNext(b, pos, |buf|);
      CoversSame(b, b', pos + take, |buf| - take);
      if first < b.cached.value.idx {
        PieceBelow(b.dirty, budget, first, b'.dirty[first], b.cached.value.idx);
      }
    }
    if first == LastChunk(pos, |buf|) {
      assert buf[take..] == [];
      WroteStep(b', Max(size, pos + take), budget, [], pos + take);
    } else {
      CachedAfter(b', Max(size, pos + take), budget, buf[take..], pos + take);
    }
  }

  lemma CoversSame(b: Blocks, b': Blocks, pos: nat, len: nat)
    ensures b'.cached == b.cached ==> Covers(b', pos, len) == Covers(b, pos, len)
  {
  }

  /**
   When a finished write shows a stale cached block, told from the blocks before it: the cached block's
   dirty copy does not stay to the end, or the write reads the cached one back, and its bytes are older.
   */
  ghost predicate ResurfacesWhen(b: Blocks, budget: nat, f: Bytes, buf: Bytes, offset: nat)
    requires buf != []
  {
    && b.cached.Some?
    && (var k, bytes := b.cached.value.idx, b.cached.value.bytes;
        if TakesCached(b, budget, offset, |buf|) then Spliced(Overlaid(f, k, bytes), offset, buf) != Spliced(f, offset, buf)
        else && !StaysThrough(b.dirty, budget, offset, |buf|, k)
             && Overlaid(Spliced(f, offset, buf), k, bytes) != Spliced(f, offset, buf))
  }

  lemma ResurfacesExactly(b: Blocks, size: nat, budget: nat, f: Bytes, buf: Bytes, offset: nat)
    requires Fits(b, size) && buf != []
    ensures Resurfaces(b, WroteAll(b, size, budget, buf, offset), f, buf, offset) <==> ResurfacesWhen(b, budget, f, buf, offset)
  {
    hide Fits, WroteAll, TakesCached, StaysThrough, Overlaid, Spliced;
    CachedAfter(b, size, budget, buf, offset);
    if b.cached.Some? {
      DirtyAfter(b, size, budget, buf, offset, b.cached.value.idx);
    }
  }

  lemma NoneResurfaces(b: Blocks, budget: nat, f: Bytes, buf: Bytes, offset: nat)
    requires buf != [] && b.cached == None
    ensures !ResurfacesWhen(b, budget, f, buf, offset)
    ensures forall b': Blocks :: !Resurfaces(b, b', f, buf, offset)
  {
  }

  /** Whether growth after a finished write of `len` bytes caches the final block in the place of the cached one. */
  ghost predicate ReloadsWhen(b: Blocks, size: nat, budget: nat, offset: nat, len: nat)
    requires 0 < len
  {
    && b.cached.Some? && !TakesCached(b, budget, offset, len) && size % CHUNK_SIZE != 0
    && b.cached.value.idx != size / CHUNK_SIZE && !StaysThrough(b.dirty, budget, offset, len, size / CHUNK_SIZE)
  }

  lemma ReloadsExactly(b: Blocks, size: nat, budget: nat, buf: Bytes, offset: nat)
    requires Fits(b, size) && buf != []
    ensures Reloads(WroteAll(b, size, budget, buf, offset), size) <==> ReloadsWhen(b, size, budget, offset, |buf|)
  {
    hide Fits, WroteAll, TakesCached, StaysThrough;
    CachedAfter(b, size, budget, buf, offset);
    DirtyAfter(b, size, budget, buf, offset, size / CHUNK_SIZE);
  }

  /** As long as the cached block is not read back, the newest copies of all blocks hold the written file. */
  lemma NewestHold(b: Blocks, size: nat, budget: nat, buf: Bytes, offset: nat)
    requires Hidden(b) && Fits(b, size) && offset + |buf| <= size
    ensures var b' := WroteAll(b, size, budget, buf, offset);
            b'.cached.Some? ==> Visible(Uncached(b'), size) == Spliced(Visible(b, size), offset, buf)
  {
    hide Fits, Hidden, WroteAll, Visible, Spliced, Overlaid, Raw;
    HiddenIsNewest(b, size);
    NothingPast(Uncached(b), size, Floor(offset));
    EmptySplice(Visible(b, size), offset);
    assert buf[..0] == [] && buf[0..] == buf;
    FollowAll(b, b, size, budget, Visible(b, size), buf, offset, 0);
  }

  /** What zeroing a range of a block body, to its end, does to the file, told from the blocks before it. */
  lemma ZeroShowsWhen(b: Blocks, size: nat, budget: nat, offset: nat, length: nat, b': Blocks)
    requires Hidden(b) && Fits(b, size)
    requires b' == WroteAll(b, size, budget, Zeros(ZeroLimit(size, offset, length)), offset)
    ensures var f, n := Visible(b, size), ZeroLimit(size, offset, length);
            && (Visible(b', size) == Zeroed(f, offset, length) <==> !(0 < n && ResurfacesWhen(b, budget, f, Zeros(n), offset)))
            && (n == 0 ==> b' == b)
            && (0 < n ==> (Reloads(b', size) <==> ReloadsWhen(b, size, budget, offset, n)))
            && (Reloads(b', size) ==> Visible(Uncached(b'), size) == Zeroed(f, offset, length))
            && Zeroed(f, offset, n) == Zeroed(f, offset, length)
  {
    hide Fits, Hidden, WroteAll, Visible, Zeroed, ResurfacesWhen, ReloadsWhen, Spliced, Overlaid, Raw, OnlySpills, Quiet, Resurfaces;
    var f, n := Visible(b, size), ZeroLimit(size, offset, length);
    ZeroedIsSpliced(f, offset, length);
    WroteStep(b, size, budget, Zeros(n), offset);
    HiddenIsNewest(b, size);
    if n == 0 {
      ZeroedNone(f, offset);
    } else {
      SpillsRefl(b');
      ZeroShows(b, size, budget, offset, n, b');
      ResurfacesExactly(b, size, budget, f, Zeros(n), offset);
      ReloadsExactly(b, size, budget, Zeros(n), offset);
      NewestHold(b, size, budget, Zeros(n), offset);
    }
  }

  /** What growth then does. */
  lemma GrowsOver(b: Blocks, size: nat, end: nat, f: Bytes, offset: nat, n: nat)
    requires Fits(b, size) && size < end && Blank(Ready(b, size, end, true), size, end) && |f| == size
    requires Reloads(b, size) ==> Visible(Uncached(b), size) == Zeroed(f, offset, n)
    ensures Visible(Ready(b, size, end, true), end) == Resized(Zeroed(f, offset, n), end)
            <==> Reloads(b, size) || Visible(b, size) == Zeroed(f, offset, n)
  {
    hide Fits, Visible, Zeroed, Blank, Ready, Reloads, Raw, Resized;
    ReadyReads(b, size, end);
    ReadyFits(b, size, end);
    GrownReads(Ready(b, size, end, true), size, end);
    ResizedApart(Visible(b, size), Zeroed(f, offset, n), end);
  }

  lemma ReadyFits(b: Blocks, size: nat, end: nat)
    requires Fits(b, size)
    ensures Fits(Ready(b, size, end, true), size)
  {
    hide Visible, Trimmed, SizeCut;
    TrimKeeps(b, size);
    WithoutKeeps(SizeTrimmed(b, size), size, BlockCount(end));
  }
}
