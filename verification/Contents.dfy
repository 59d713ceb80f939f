/**
 File bodies: three storage tiers, a dirty-block map, a one-block decode cache and stored blocks
 that may run past the end of the file, standing in for one flat string of bytes.
 */
module FileContents {
  import opened Common
  import opened FileBlocks
  import opened WriteSpills

  class Contents {
    const inlineMax: nat
    const packMax: nat
    const budget: nat
    const padded: bool
    const writable: bool
    /** The results of the store's coming calls: true is a failure. */
    var faults: seq<bool>
    var size: nat
    var tier: Tier
    var data: Bytes
    var packedDirty: bool
    var blocks: Blocks
    var dirtyBytes: nat
    var diskBlocks: nat
    var diskSize: nat
    var extent: Option<Bytes>
    var record: FileData
    /** How much of the stored extent the body was last read from or written to. */
    ghost var clean: nat

    /** What holds even after a shrink whose flush failed. */
    ghost predicate Sound()
      reads this
    {
      && dirtyBytes == Total(blocks.dirty)
      && (tier == BlockTier <==> record == File)
      && (tier == PackedTier <==> record == Packed)
      && (tier != BlockTier ==> blocks.dirty == map[] && blocks.cached == None)
      && (tier == PackedTier && !packedDirty ==> clean <= size && ExtentReads(data, extent, clean))
    }

    ghost predicate Valid()
      reads this
    {
      && Sound()
      && (tier == BlockTier ==> Fits(blocks, size))
      && (tier != BlockTier ==> |data| <= size)
    }

    /** The file as its users see it. */
    ghost function Flat(): (r: Bytes)
      reads this
      ensures |r| == size
    {
      if tier == BlockTier then Visible(blocks, size) else Fitted(data, size)
    }

    /** The store and the inode record hold the whole body. */
    ghost predicate Flushed()
      reads this
    {
      match tier
      case InlineTier => record == Inline(data)
      case PackedTier => !packedDirty
      case BlockTier => blocks.dirty == map[]
    }

    /** A call into the store that may fail. */
    method Attempt() returns (ok: bool)
      modifies this`faults
      ensures old(faults) == [] ==> ok && faults == []
    {
      if faults == [] {
        ok := true;
      } else {
        ok, faults := !faults[0], faults[1..];
      }
    }

    method LoadBlock(idx: nat) returns (r: Result<Bytes, Error>)
      modifies this`faults, this`blocks
      ensures r.Ok? ==> blocks == Loaded(old(blocks), idx) && r.value == BlockOf(blocks, idx)
      ensures r.Err? ==> r == Err(StoreFailed) && blocks == old(blocks)
      ensures old(faults) == [] ==> r.Ok? && faults == []
    {
      if idx !in blocks.dirty && !(blocks.cached.Some? && blocks.cached.value.idx == idx) {
        var ok := Attempt();
        if !ok {
          return Err(StoreFailed);
        }
        blocks := blocks.(cached := Some(Cached(idx, StoredBlock(blocks, idx))));
      }
      r := Ok(BlockOf(blocks, idx));
    }

    method ReadExactAt(len: nat, offset: nat) returns (r: Result<Bytes, Error>)
      requires Valid()
      modifies this`faults, this`blocks
      ensures Valid() && (Hidden(old(blocks)) ==> Hidden(blocks) && Flat() == old(Flat()))
      ensures 0 < len && size < offset + len ==> r == Err(UnexpectedEof)
      ensures Hidden(old(blocks)) && r.Ok? && 0 < len ==> offset + len <= size && r.value == Flat()[offset..offset + len]
      ensures r == Err(UnexpectedEof) ==> size < offset + len
      ensures len == 0 ==> r == Ok([])
      ensures tier != BlockTier && offset + len <= size ==> r.Ok?
      ensures blocks.dirty == old(blocks.dirty) && (Safe(old(blocks)) ==> Safe(blocks))
      ensures old(faults) == [] ==> faults == [] && (len == 0 || offset + len <= size ==> r.Ok?)
    {
      if len == 0 {
        return Ok([]);
      }
      if size < offset + len {
        return Err(UnexpectedEof);
      }
      if tier != BlockTier {
        var from := Min(offset, |data|);
        var copied := data[from..from + Min(len, |data| - from)];
        r := Ok(Grown(copied, len));
        assert r.value == Flat()[offset..offset + len];
      } else {
        r := ReadBlocksAt(len, offset);
      }
    }

    method ReadBlocksAt(len: nat, offset: nat) returns (r: Result<Bytes, Error>)
      requires Valid() && tier == BlockTier && offset + len <= size
      modifies this`faults, this`blocks
      ensures Valid() && (Hidden(old(blocks)) ==> Hidden(blocks) && Flat() == old(Flat()))
      ensures Hidden(old(blocks)) && r.Ok? ==> r.value == Flat()[offset..offset + len]
      ensures r.Err? ==> r.error == StoreFailed
      ensures blocks.dirty == old(blocks.dirty) && (Safe(old(blocks)) ==> Safe(blocks))
      ensures old(faults) == [] ==> r.Ok? && faults == []
    {
      hide Fits, Total, Raw, Safe, Hidden, SameBytes, ExtentReads, BlockOf, Loaded;
      var out: Bytes := [];
      ghost var hidden := Hidden(blocks);
      SameIsSame(blocks, blocks, blocks, size);
      while |out| < len
        invariant |out| <= len
        invariant blocks.dirty == old(blocks.dirty) && (Safe(old(blocks)) ==> Safe(blocks))
        invariant Valid() && (hidden ==> Hidden(blocks) && SameBytes(old(blocks), blocks) && Flat() == old(Flat()))
        invariant hidden ==> forall i :: 0 <= i < |out| ==> out[i] == Raw(old(blocks), offset + i)
        invariant old(faults) == [] ==> faults == []
        decreases len - |out|
      {
        var pos := offset + |out|;
        var idx, within := pos / CHUNK_SIZE, pos % CHUNK_SIZE;
        ghost var b := blocks;
        LoadFits(b, size, idx);
        if hidden {
          LoadKeepsRaw(b, size, idx);
          SameIsSame(old(blocks), b, Loaded(b, idx), size);
        }
        var block := LoadBlock(idx);
        if block.Err? {
          return block;
        }
        var take := Min(len - |out|, CHUNK_SIZE - within);
        var src := if within <= |block.value| then block.value[within..] else [];
        var piece := Grown(src[..Min(take, |src|)], take);
        if hidden {
          PieceReads(blocks, idx, within, piece);
          SamePiece(old(blocks), blocks, pos, piece);
        }
        out := out + piece;
      }
      return Ok(out);
    }

    /** Before growth: a final block that runs past the end of the file is cut back to it. */
    method DiscardSizePadding() returns (ok: bool)
      requires Valid()
      modifies this`faults, this`blocks, this`dirtyBytes
      ensures Valid()
      ensures Hidden(old(blocks)) ==> Hidden(blocks) && Flat() == old(Flat())
      ensures Safe(old(blocks)) ==> Safe(blocks)
      ensures ok && tier == BlockTier ==> Trimmed(blocks, size)
      ensures blocks.cached == old(blocks.cached) || (blocks.cached.Some? ==> blocks.cached.value.idx == size / CHUNK_SIZE)
      ensures !ok || tier != BlockTier ==> blocks == old(blocks)
      ensures tier != BlockTier ==> ok && dirtyBytes == old(dirtyBytes)
      ensures forall k :: k in old(blocks).stored <==> k in blocks.stored
      ensures old(faults) == [] ==> ok && faults == []
      ensures ok && tier == BlockTier ==> blocks == SizeTrimmed(old(blocks), size) && SizeCut(old(blocks), blocks, size)
      ensures dirtyBytes <= old(dirtyBytes) + CHUNK_SIZE
    {
      hide Fits, Total, Safe, Hidden, Visible, Trimmed, SizeCut, BlockOf, Loaded, ExtentReads;
      TrimKeeps(blocks, size);
      var valid := size % CHUNK_SIZE;
      if valid == 0 || tier != BlockTier {
        return true;
      }
      var idx := size / CHUNK_SIZE;
      ghost var b := blocks;
      LoadSame(b, idx);
      var bytes := LoadBlock(idx);
      if bytes.Err? {
        return false;
      }
      if |bytes.value| <= valid {
        return true;
      }
      var cut := bytes.value[..valid];
      // A dirty block never runs past the end of the file, so this one was clean.
      TotalInsert(blocks.dirty, idx, cut);
      dirtyBytes := dirtyBytes + valid;
      blocks := Blocks(blocks.dirty[idx := cut], Evicted(blocks.cached, idx), blocks.stored);
      return true;
    }

    /** Before growth: stored blocks left past the end of the file go away. */
    method DiscardNewBlocks(upto: nat) returns (ok: bool)
      requires Valid()
      modifies this`faults, this`blocks
      ensures Valid() && blocks.dirty == old(blocks.dirty) && blocks.cached == old(blocks.cached)
      ensures (Safe(old(blocks)) ==> Safe(blocks)) && (Hidden(old(blocks)) ==> Hidden(blocks))
      ensures Flat() == old(Flat())
      ensures ok && tier == BlockTier ==> Vacant(blocks, size, upto)
      ensures tier != BlockTier ==> ok && blocks == old(blocks)
      ensures tier == BlockTier && Trimmed(old(blocks), size) ==> Trimmed(blocks, size)
      ensures old(faults) == [] ==> ok && faults == []
      ensures tier == BlockTier ==> forall k: nat :: k < BlockCount(size) ==> StoredBlock(blocks, k) == StoredBlock(old(blocks), k)
      ensures ok && tier == BlockTier ==> blocks == Vacated(old(blocks), size, upto)
      ensures upto <= size ==> ok
    {
      assert upto <= size ==> BlockCount(upto) <= BlockCount(size);
      hide Fits, Total, Safe, Hidden, Visible, Trimmed, ExtentReads, BlockCount, Without, StoredBlock;
      WithoutNone(blocks, BlockCount(size), BlockCount(size));
      if BlockCount(upto) <= BlockCount(size) {
        WithoutNone(blocks, BlockCount(size), BlockCount(upto));
      }
      if tier == BlockTier {
        var idx := BlockCount(size);
        while idx < BlockCount(upto)
          invariant BlockCount(size) <= idx && (idx == BlockCount(size) || idx <= BlockCount(upto))
          invariant blocks == Without(old(blocks), BlockCount(size), idx)
          invariant old(faults) == [] ==> faults == []
        {
          ok := Attempt();
          if !ok {
            WithoutKeeps(old(blocks), size, idx);
            return;
          }
          WithoutMore(old(blocks), BlockCount(size), idx);
          blocks := blocks.(stored := blocks.stored - {idx});
          idx := idx + 1;
        }
        WithoutKeeps(old(blocks), size, idx);
      }
      return true;
    }

    /** The size past which a body in memory is moved into blocks. */
    function Limit(): nat
      reads this
    {
      if tier == InlineTier then Max(inlineMax, packMax) else packMax
    }

    predicate Moves(end: nat)
      reads this
    {
      tier != BlockTier && Limit() < end
    }

    /** What the first bytes of the file are once its body is moved into blocks, over those already stored. */
    ghost function Surfaced(reach: nat): Bytes
      reads this
    {
      Under(Fitted(data, reach), blocks, |data|)
    }

    /** Moves the body up to the tier that can hold `end` bytes. */
    method PromoteFor(end: nat)
      requires Sound()
      modifies this`tier, this`data, this`packedDirty, this`blocks, this`dirtyBytes, this`diskBlocks, this`diskSize, this`record
      ensures Sound() && Flat() == old(if Moves(end) then Surfaced(size) else Flat())
      ensures Flat() == old(Flat()) <==> !old(Moves(end) && LeftShows(blocks, |data|, size, 0, 0))
      ensures old(Valid()) ==> Valid()
      ensures blocks == old(if Moves(end) then Moved(blocks, data) else blocks)
      ensures tier == BlockTier <==> old(tier == BlockTier || Moves(end))
      ensures old(tier) == BlockTier ==> diskSize == old(diskSize) && dirtyBytes == old(dirtyBytes)
      ensures old(Moves(end)) ==> diskSize == 0
      ensures tier != BlockTier ==> data == old(data) && packedDirty == (tier != old(tier) || old(packedDirty)) && Limit() == old(Limit())
      ensures tier == old(tier) || tier == BlockTier || (old(tier) == InlineTier && end <= packMax)
    {
      hide Visible, Fitted, Fits, Trimmed, Total, ExtentReads, ChunksOf, Under, LeftAt, LeftShows;
      SurfacedExactly(blocks, data, size);
      if tier == InlineTier && inlineMax < end && end <= packMax {
        tier, packedDirty, record := PackedTier, true, Packed;
      } else if (tier == InlineTier && inlineMax < end) || (tier == PackedTier && packMax < end) {
        ToBlocks();
      }
    }

    method ToBlocks()
      requires Sound() && tier != BlockTier
      modifies this`tier, this`data, this`blocks, this`dirtyBytes, this`diskBlocks, this`diskSize, this`record
      ensures Sound() && Flat() == old(Surfaced(size))
      ensures tier == BlockTier && blocks == old(Moved(blocks, data)) && diskSize == 0
      ensures old(Valid()) ==> Valid()
    {
      hide SplitOf, ChunksOf, Raw, Fits, Total, ExtentReads, Under, Visible, Fitted;
      var dirty, bytes := Split(data);
      MovedReads(blocks, data, size);
      tier, data, blocks, dirtyBytes, record := BlockTier, [], Blocks(dirty, None, blocks.stored), bytes, File;
      diskBlocks, diskSize := 0, 0;
    }

    /** Writes out dirty blocks, lowest first, until `additional` more bytes fit the budget. */
    method SpillFor(additional: nat) returns (ok: bool)
      requires Valid() && tier == BlockTier
      modifies this`faults, this`blocks, this`dirtyBytes, this`diskBlocks
      ensures Valid() && OnlySpills(old(blocks), blocks) && blocks.cached == old(blocks.cached)
      ensures ok ==> blocks == SpilledFor(old(blocks), size, additional, budget)
      ensures Safe(old(blocks)) ==> Safe(blocks) && SameBytes(old(blocks), blocks)
      ensures Hidden(old(blocks)) ==> (Flat() == old(Flat()) <==> !Resurfaces(old(blocks), blocks, old(Flat()), [], 0))
      ensures ok ==> dirtyBytes + additional <= budget || dirtyBytes == 0
      ensures dirtyBytes <= old(dirtyBytes)
      ensures old(dirtyBytes) + additional <= budget ==> ok && blocks == old(blocks) && dirtyBytes == old(dirtyBytes)
      ensures old(faults) == [] ==> ok && faults == []
    {
      hide Fits, Total, OnlySpills, SameBytes, Safe, Spilled, SpilledFor, Resurfaces, Hidden, Visible;
      SpillsRefl(blocks);
      SplitNone([]);
      while budget < dirtyBytes + additional && blocks.dirty != map[]
        invariant Valid() && OnlySpills(old(blocks), blocks) && blocks.cached == old(blocks.cached)
        invariant SpilledFor(blocks, size, additional, budget) == SpilledFor(old(blocks), size, additional, budget)
        invariant Safe(old(blocks)) ==> Safe(blocks) && SameBytes(old(blocks), blocks)
        invariant dirtyBytes <= old(dirtyBytes)
        invariant old(dirtyBytes) + additional <= budget ==> blocks == old(blocks)
        invariant old(faults) == [] ==> faults == []
        decreases |blocks.dirty|
      {
        var idx := FirstKey(blocks.dirty);
        ok := Attempt();
        if !ok {
          SpillShows(old(blocks), size, blocks);
          return;
        }
        SpilledForNext(blocks, size, additional, budget, idx);
        SpillKeepsRaw(blocks, size, idx);
        SpillCounts(blocks, size, idx);
        SpillsCompose(old(blocks), blocks, Spilled(blocks, size, idx));
        dirtyBytes := dirtyBytes - |blocks.dirty[idx]|;
        blocks := Spilled(blocks, size, idx);
        diskBlocks := Max(diskBlocks, idx + 1);
      }
      SpilledForDone(blocks, size, additional, budget);
      SpillShows(old(blocks), size, blocks);
      return true;
    }

    /** Merges one piece of a write into its block. */
    method WritePiece(idx: nat, within: nat, piece: Bytes) returns (ok: bool)
      requires Valid() && tier == BlockTier && 0 < |piece| && within + |piece| <= CHUNK_SIZE
      modifies this`faults, this`blocks, this`dirtyBytes, this`size
      ensures Valid()
      ensures ok ==> && blocks == WroteBlock(old(blocks), old(size), idx, within, piece)
                     && size == Max(old(size), idx * CHUNK_SIZE + within + |piece|)
                     && dirtyBytes <= old(dirtyBytes) + CHUNK_SIZE
      ensures !ok ==> blocks == old(blocks) && size == old(size) && dirtyBytes == old(dirtyBytes)
      ensures blocks.cached == None || blocks.cached == old(blocks.cached)
      ensures old(faults) == [] ==> ok && faults == []
    {
      hide Fits, Total, Placed, Replaces, Take;
      var valid := ValidLen(size, idx);
      var block, cached := [], blocks.cached;
      if idx in blocks.dirty {
        block := blocks.dirty[idx];
      } else if Replaces(size, idx, within, |piece|) {
      } else if cached.Some? && cached.value.idx == idx {
        block, cached := Take(cached.value.bytes, valid), None;
      } else {
        ok := Attempt();
        if !ok {
          return;
        }
        block := Take(StoredBlock(blocks, idx), valid);
      }
      WriteOneFits(blocks, size, idx, within, piece);
      WroteTotals(blocks, size, idx, within, piece);
      var merged := Placed(block, within, piece);
      dirtyBytes := dirtyBytes - (if idx in blocks.dirty then |block| else 0) + |merged|;
      blocks := Blocks(blocks.dirty[idx := merged], cached, blocks.stored);
      size := Max(size, idx * CHUNK_SIZE + within + |piece|);
      return true;
    }

    method WriteBlocksAt(buf: Bytes, offset: nat) returns (written: nat, ok: bool)
      requires Valid() && tier == BlockTier
      modifies this`faults, this`blocks, this`dirtyBytes, this`diskBlocks, this`size
      ensures Valid() && written <= |buf| && (ok <==> written == |buf|)
      ensures size == SizeAfter(old(size), buf[..written], offset)
      ensures OnlySpills(WroteAll(old(blocks), old(size), budget, buf[..written], offset), blocks)
      ensures ok || old(dirtyBytes) + Pieces(|buf|, offset) * CHUNK_SIZE <= budget ==>
                blocks == WroteAll(old(blocks), old(size), budget, buf[..written], offset)
      ensures Hidden(old(blocks)) && Blank(old(blocks), old(size), Floor(offset)) ==>
                (Flat() == Spliced(old(Flat()), offset, buf[..written])
                 <==> !Resurfaces(old(blocks), blocks, old(Flat()), buf[..written], offset))
      ensures ok && buf != [] ==> dirtyBytes <= Max(budget, CHUNK_SIZE)
      ensures blocks.cached == None || blocks.cached == old(blocks.cached)
      ensures old(faults) == [] ==> ok && faults == []
    {
      hide Fits, Total, Blank, WroteBlock, Spliced, Visible, Hidden, Safe, OnlySpills, ExtentReads, SpilledFor, Resurfaces, WroteAll,
           SameBytes;
      written := 0;
      StartAll(blocks, size, budget, buf, offset);
      while written < |buf|
        invariant written <= |buf| && Valid()
        invariant written == 0 || written == |buf| || Boundary(offset + written)
        invariant size == SizeAfter(old(size), buf[..written], offset)
        invariant blocks == WroteAll(old(blocks), old(size), budget, buf[..written], offset)
        invariant 0 < written ==> dirtyBytes <= Max(budget, CHUNK_SIZE)
        invariant dirtyBytes + Pieces(|buf| - written, offset + written) * CHUNK_SIZE
                  <= old(dirtyBytes) + Pieces(|buf|, offset) * CHUNK_SIZE
        invariant blocks.cached == None || blocks.cached == old(blocks.cached)
        invariant old(faults) == [] ==> faults == []
      {
        WroteMore(old(blocks), old(size), budget, buf, offset, written);
        ok := SpillFor(CHUNK_SIZE);
        if ok {
          var take := PieceLen(|buf| - written, offset + written);
          PieceSplit(blocks, size, buf, offset, written);
          ok := WritePiece((offset + written) / CHUNK_SIZE, (offset + written) % CHUNK_SIZE, buf[written..written + take]);
          if ok {
            written := written + take;
          }
        }
        if !ok {
          StoppedShows(old(blocks), old(size), budget, buf[..written], offset, blocks);
          return;
        }
      }
      SpillsRefl(blocks);
      StoppedShows(old(blocks), old(size), budget, buf[..written], offset, blocks);
      return written, true;
    }

    /** The blocks a write or growth to `end` bytes starts from, once the body is in blocks. */
    ghost function PreparedFor(end: nat, trim: bool): Blocks
      reads this
    {
      if tier == BlockTier then Ready(blocks, size, end, trim) else Vacated(Moved(blocks, data), size, end)
    }

    /** The blocks a write starts from. */
    ghost function Prepared(buf: Bytes, offset: nat): Blocks
      reads this
    {
      PreparedFor(offset + |buf|, NeedsTrim(size, offset, |buf|))
    }

    /** A write that, if it comes to its end, leaves no block without a dirty copy that its cached copy is older than. */
    ghost predicate QuietWrite(buf: Bytes, offset: nat)
      reads this
    {
      Quiet(Prepared(buf, offset), WroteAll(Prepared(buf, offset), size, budget, buf, offset))
    }

    /** A write that, if it comes to its end, has taken the cached block's dirty copy and shows its older bytes. */
    ghost predicate ResurfacingWrite(buf: Bytes, offset: nat)
      requires buf != []
      reads this
    {
      ResurfacesWhen(Prepared(buf, offset), budget, Flat(), buf, offset)
    }

    /**
     A write, `n` bytes of which are written, moves the body into blocks and shows a block left in the
     store where neither the body nor the write has bytes.
     */
    predicate LeftWrite(offset: nat, len: nat, n: nat)
      reads this
    {
      Moves(offset + len) && LeftShows(blocks, |data|, Reach(size, offset, n), offset, n)
    }

    /** Makes ready for the file to grow to `end` bytes. */
    method PrepareGrowth(end: nat, trim: bool) returns (ok: bool)
      requires Valid()
      modifies this`faults, this`tier, this`data, this`packedDirty, this`blocks, this`dirtyBytes, this`diskBlocks, this`diskSize,
               this`record
      ensures Valid()
      ensures Hidden(old(blocks)) ==> Hidden(blocks) && Flat() == old(if Moves(end) then Surfaced(size) else Flat())
      ensures Safe(old(blocks)) ==> Safe(blocks)
      ensures ok && tier == BlockTier ==> blocks == old(PreparedFor(end, trim))
      ensures ok && trim && old(tier) == BlockTier ==> Blank(blocks, size, end)
      ensures old(tier) == BlockTier ==> diskSize == old(diskSize) && dirtyBytes <= old(dirtyBytes) + CHUNK_SIZE
      ensures blocks.cached == old(blocks.cached) || (trim && (blocks.cached.Some? ==> blocks.cached.value.idx == size / CHUNK_SIZE))
      ensures old(faults) == [] ==> ok && faults == []
      ensures ok && trim && old(tier) == BlockTier ==> SizeCut(old(blocks), blocks, size) && Vacant(blocks, size, end)
      ensures old(Moves(end)) ==> diskSize == 0
      ensures tier != BlockTier ==> ok && data == old(data) && blocks == old(blocks) && Limit() == old(Limit())
      ensures old(tier) != BlockTier ==> blocks.cached == None && (tier == BlockTier <==> old(Moves(end)))
      ensures old(tier) == BlockTier ==> tier == BlockTier
      ensures tier == old(tier) || tier == BlockTier || (old(tier) == InlineTier && end <= packMax)
      ensures tier == old(tier) == PackedTier ==> packedDirty == old(packedDirty)
      ensures !trim && end <= size ==> ok && (old(tier) == BlockTier ==> dirtyBytes == old(dirtyBytes))
    {
      hide Fits, Total, Blank, Visible, Raw, Safe, Hidden, Trimmed, Vacant, ExtentReads, SizeCut, ChunksOf, SizeTrimmed, Vacated, Fitted,
           Under;
      NoCacheIsHidden(blocks);
      if trim {
        ok := DiscardSizePadding();
        if !ok {
          return;
        }
      }
      ghost var cut := blocks;
      PromoteFor(end);
      NoCacheIsHidden(blocks);
      ok := DiscardNewBlocks(end);
      if ok && trim && old(tier) == BlockTier {
        SizeCutStill(old(blocks), cut, blocks, size);
        GrowthIsBlank(blocks, size, end);
      }
    }

    /**
     Writes `buf` at `offset`. A result `Ok(n)` reports the first `n` bytes written, an error none. Once
     the blocks are ready, the file is the old one with exactly the reported bytes placed, and grown
     with zeros to reach them, if and only if the cached block does not resurface and no block left in the
     store shows where a body has been moved into blocks; before, it is unchanged but for such a block.
     */
    method WriteAt(buf: Bytes, offset: nat) returns (r: Result<nat, Error>, ghost ready: bool)
      requires Valid()
      modifies this
      ensures Valid()
      ensures r.Ok? ==> r.value <= |buf| && (r.value == 0 ==> buf == [])
      ensures !writable ==> r == Err(ReadOnly) && Flat() == old(Flat()) && blocks == old(blocks)
      ensures !ready ==>
                && (r.Err? || buf == [])
                && (Hidden(old(blocks)) ==>
                      Hidden(blocks) && (Flat() == old(Flat()) <==> !(writable && buf != [] && old(LeftWrite(offset, |buf|, 0)))))
      ensures ready && tier != BlockTier && Hidden(old(blocks)) ==>
                r == Ok(|buf|) && Hidden(blocks) && Flat() == Spliced(old(Flat()), offset, buf)
      ensures ready && tier == BlockTier ==> Written(old(Prepared(buf, offset)), old(size), buf, offset, r)
      ensures ready && tier == BlockTier && Hidden(old(blocks)) ==>
                (Flat() == Spliced(old(Flat()), offset, Reported(buf, r))
                 <==> && !Resurfaces(old(Prepared(buf, offset)), blocks, old(Flat()), Reported(buf, r), offset)
                      && !old(LeftWrite(offset, |buf|, |Reported(buf, r)|)))
      ensures ready && tier == BlockTier && Hidden(old(blocks)) && Quiet(old(Prepared(buf, offset)), blocks) ==>
                && Hidden(blocks)
                && (Flat() == Spliced(old(Flat()), offset, Reported(buf, r)) <==> !old(LeftWrite(offset, |buf|, |Reported(buf, r)|)))
      ensures Hidden(old(blocks)) && buf != [] && r == Ok(|buf|) ==>
                (Flat() == Spliced(old(Flat()), offset, buf) <==> !old(ResurfacingWrite(buf, offset) || LeftWrite(offset, |buf|, |buf|)))
      ensures Hidden(old(blocks)) && old(QuietWrite(buf, offset) && !LeftWrite(offset, |buf|, |buf|)) && r == Ok(|buf|) ==>
                Hidden(blocks) && Flat() == Spliced(old(Flat()), offset, buf)
      ensures Hidden(old(blocks)) && old(tier) == BlockTier && old(dirtyBytes) + (1 + Pieces(|buf|, offset)) * CHUNK_SIZE <= budget ==>
                Hidden(blocks) && Flat() == Spliced(old(Flat()), offset, Reported(buf, r))
      ensures writable && buf != [] && old(Moves(offset + |buf|)) ==>
                Flat() == Spliced(old(Surfaced(Reach(size, offset, |Reported(buf, r)|))), offset, Reported(buf, r))
      ensures Safe(old(blocks)) && r == Ok(|buf|) ==> (Coherent(blocks) <==> !Clobbers(old(blocks), buf, offset))
      ensures offset + |buf| <= old(size) ==> blocks.cached == None || blocks.cached == old(blocks.cached)
      ensures writable && buf != [] && (r.Ok? || offset + |buf| <= old(size)) ==> ready
      ensures r == Ok(|buf|) && buf != [] && tier == BlockTier ==> dirtyBytes <= Max(budget, CHUNK_SIZE)
      ensures tier == BlockTier <==> old(tier) == BlockTier || (writable && buf != [] && old(Moves(offset + |buf|)))
      ensures tier != BlockTier ==> blocks == old(blocks) && Limit() == old(Limit()) && (writable ==> r == Ok(|buf|))
      ensures tier != BlockTier ==> |data| == if writable && buf != [] then Max(old(|data|), offset + |buf|) else old(|data|)
      ensures old(tier) != BlockTier ==> blocks.cached == None
      ensures old(faults) == [] ==> faults == [] && (writable ==> r == Ok(|buf|))
    {
      hide Fits, Total, Clobbers, Coherent, Safe, Hidden, Spliced, Blank, Visible, ExtentReads, Fitted, NeedsTrim, SizeCut, Vacant,
           ChunksOf, Ready, WroteAll, OnlySpills, Resurfaces, Quiet, Pieces, Under, LeftShows, Reach, Vacated, TakesCached, StaysThrough,
           Overlaid, ResurfacesWhen;
      EmptyWrite(Flat(), blocks, offset, buf);
      NoCacheIsHidden(blocks);
      if !writable {
        return Err(ReadOnly), false;
      }
      if buf == [] {
        return Ok(0), false;
      }
      var trim := NeedsTrim(size, offset, |buf|);
      if offset + |buf| <= size {
        InsideNeedsNone(size, offset, |buf|);
      }
      CachedInside(blocks, size);
      NoneCached(Moved(blocks, data), size, offset + |buf|);
      var ok := PrepareGrowth(offset + |buf|, trim);
      NoCacheIsHidden(blocks);
      if !ok {
        if old(tier) != BlockTier {
          MovedStops(old(blocks), old(data), old(size), offset, buf);
        }
        return Err(StoreFailed), false;
      }
      if tier == BlockTier {
        if old(tier) == BlockTier {
          PreparedCovers(old(blocks), blocks, size, buf, offset, trim);
        } else {
          UncachedCovers(old(blocks), blocks, buf, offset);
          NoneResurfaces(blocks, budget, old(Flat()), buf, offset);
        }
        ResurfacesExactly(blocks, size, budget, Flat(), buf, offset);
        r := WriteBlocks(buf, offset);
        NoCacheIsHidden(blocks);
        if old(tier) != BlockTier {
          NothingResurfaces(old(Prepared(buf, offset)), old(Flat()), Reported(buf, r), offset);
          var written := Reported(buf, r);
          MovedWrite(old(blocks), old(data), old(size), budget, written, offset, offset + |buf|, blocks);
          MovedExactly(old(blocks), old(data), old(size), offset, written);
        }
      } else {
        UncachedCovers(old(blocks), blocks, buf, offset);
        NoneResurfaces(old(Prepared(buf, offset)), budget, old(Flat()), buf, offset);
        WriteMemory(buf, offset);
        r := Ok(|buf|);
      }
      ready := true;
    }

    /** The blocks are `before` with the reported bytes written, and perhaps more of them spilled. */
    ghost predicate Written(before: Blocks, was: nat, buf: Bytes, offset: nat, r: Result<nat, Error>)
      reads this
    {
      && OnlySpills(WroteAll(before, was, budget, Reported(buf, r), offset), blocks)
      && size == SizeAfter(was, Reported(buf, r), offset)
      && (r == Ok(|buf|) ==> blocks == WroteAll(before, was, budget, buf, offset))
    }

    method WriteBlocks(buf: Bytes, offset: nat) returns (r: Result<nat, Error>)
      requires Valid() && tier == BlockTier && buf != []
      modifies this`faults, this`blocks, this`dirtyBytes, this`diskBlocks, this`size
      ensures Valid()
      ensures r.Ok? ==> 0 < r.value <= |buf|
      ensures Written(old(blocks), old(size), buf, offset, r)
      ensures Hidden(old(blocks)) && Blank(old(blocks), old(size), Floor(offset)) ==>
                && (Flat() == Spliced(old(Flat()), offset, Reported(buf, r))
                    <==> !Resurfaces(old(blocks), blocks, old(Flat()), Reported(buf, r), offset))
                && (Quiet(old(blocks), blocks) ==> Hidden(blocks) && Flat() == Spliced(old(Flat()), offset, Reported(buf, r)))
      ensures Hidden(old(blocks)) && old(dirtyBytes) + Pieces(|buf|, offset) * CHUNK_SIZE <= budget ==> Quiet(old(blocks), blocks)
      ensures Safe(old(blocks)) && r == Ok(|buf|) ==> (Coherent(blocks) <==> !Clobbers(old(blocks), buf, offset))
      ensures blocks.cached == None || blocks.cached == old(blocks.cached)
      ensures r == Ok(|buf|) ==> dirtyBytes <= Max(budget, CHUNK_SIZE)
      ensures old(faults) == [] ==> faults == [] && r == Ok(|buf|)
    {
      hide Fits, Total, Clobbers, Coherent, Safe, Hidden, Spliced, Blank, Visible, ExtentReads, WroteAll, OnlySpills, Resurfaces, Quiet;
      var written, ok := WriteBlocksAt(buf, offset);
      assert buf[..|buf|] == buf && buf[..0] == [];
      if Hidden(old(blocks)) {
        RoomyStop(old(blocks), old(size), budget, buf, offset, written);
        if Blank(old(blocks), old(size), Floor(offset)) {
          WriteShows(old(blocks), old(size), budget, buf[..written], offset, blocks);
        }
      }
      if Safe(old(blocks)) && written == |buf| {
        StartWrite(old(blocks), old(size), buf, offset);
        TrackAll(old(blocks), old(blocks), old(size), budget, buf, offset, 0);
        TrackedToTheEnd(blocks, old(blocks), buf, offset);
      }
      return if written == 0 then Err(StoreFailed) else Ok(written);
    }

    method WriteMemory(buf: Bytes, offset: nat)
      requires Valid() && tier != BlockTier && buf != []
      modifies this`data, this`packedDirty, this`size
      ensures Valid() && |data| == Max(old(|data|), offset + |buf|)
      ensures Flat() == Spliced(old(Flat()), offset, buf)
    {
      hide Placed, Fitted, Spliced, Total, ExtentReads;
      MemorySplices(data, size, offset, buf);
      data := Placed(data, offset, buf);
      if tier == PackedTier {
        packedDirty := true;
      }
      size := Max(size, offset + |buf|);
    }

    /** Growth to `end` bytes moves the body into blocks and shows a block left in the store. */
    predicate LeftGrowth(end: nat)
      reads this
    {
      Moves(end) && LeftShows(blocks, |data|, Min(end, BlockCount(size) * CHUNK_SIZE), 0, 0)
    }

    /** Grows the file with zeros to `end` bytes. */
    method Grow(end: nat, ghost pad: Bytes) returns (ok: bool)
      requires Valid() && size < end
      modifies this
      ensures Valid()
      ensures Hidden(old(blocks)) ==> Hidden(blocks)
      ensures Hidden(old(blocks)) && ok ==> (Flat() == Resized(old(Flat()), end) <==> !old(LeftGrowth(end)))
      ensures Hidden(old(blocks)) && !ok ==> Flat() == old(if Moves(end) then Surfaced(size) else Flat())
      ensures Safe(old(blocks)) ==> Safe(blocks)
      ensures size == if ok then end else old(size)
      ensures tier == BlockTier <==> old(tier == BlockTier || Moves(end))
      ensures tier != BlockTier ==> ok && !Moves(end) && data == old(data) && blocks == old(blocks) && Limit() == old(Limit())
      ensures ok && old(tier) == PackedTier && end <= packMax ==> tier == PackedTier && packedDirty == old(packedDirty)
      ensures extent == old(extent) && clean == old(clean)
      ensures old(faults) == [] ==> ok && faults == []
      ensures ok ==> (PadHazard(pad) <==> old(ResizeHazard(end, pad)))
      ensures ok && old(tier) == BlockTier ==> blocks == old(Ready(blocks, size, end, true)) && Blank(blocks, old(size), end)
    {
      hide Total, Safe, Hidden, Visible, Blank, Fits, SizeCut, Vacant, ChunksOf, GrowthPadShows, FinalPadShows, Ready, Vacated, Under, LeftShows,
           Fitted, Raw, Resized;
      ok := PrepareGrowth(end, true);
      if ok {
        if old(tier) == BlockTier {
          GrowthShows(old(blocks), blocks, size, end, diskSize, pad);
          GrownReads(blocks, size, end);
        } else if tier == BlockTier {
          MovedGrowth(old(blocks), old(data), size, end);
          VacatedPads(Moved(old(blocks), old(data)), size, end, pad);
          FitsMore(blocks, size, end);
        } else {
          MemoryGrows(data, size, end);
        }
        size := end;
      }
    }

    /** The blocks once a range is zeroed, if nothing fails. */
    ghost function ZeroedBlocks(offset: nat, length: nat): Blocks
      reads this
    {
      WroteAll(blocks, size, budget, Zeros(ZeroLimit(size, offset, length)), offset)
    }

    /** How long a body in memory is when zeroing a range from `offset` on, chunk by chunk, moves it into blocks. */
    function LenAtMove(offset: nat): nat
      reads this
    {
      LenMoved(Limit(), |data|, offset)
    }

    /** An allocation moves the body into blocks and shows a block left in the store. */
    predicate LeftAllocate(offset: nat, length: nat, zero: bool, keepSize: bool)
      reads this
    {
      var n := if zero then ZeroLimit(size, offset, length) else 0;
      if 0 < n then Moves(offset + n) && LeftShows(blocks, LenAtMove(offset), size, offset, n)
      else !keepSize && size < offset + length && LeftGrowth(offset + length)
    }

    /**
     An allocation, if it comes to its end, takes the cached block's dirty copy and shows its older bytes; unless
     it then grows the file, and caches the final block instead to see whether that runs past the end.
     */
    ghost predicate ResurfacingZeros(offset: nat, length: nat, zero: bool, keepSize: bool)
      reads this
    {
      var n := ZeroLimit(size, offset, length);
      && zero && 0 < n && ResurfacesWhen(blocks, budget, Flat(), Zeros(n), offset)
      && (keepSize || offset + length <= size || !ReloadsWhen(blocks, size, budget, offset, n))
    }

    /**
     Zeroes a range, when asked to, and grows the file to hold it, unless asked not to. The file is
     then as asked exactly when the cached block does not resurface and no block left in the store shows.
     An error leaves the file zeroed up to some point and as it was otherwise, but for such blocks: those
     left in the store lie past the `left` bytes the body had when it was moved into blocks.
     */
    method Fallocate(offset: nat, length: nat, zero: bool, keepSize: bool)
      returns (r: Result<(), Error>, ghost zeroed: Blocks, ghost left: nat)
      requires Valid()
      modifies this
      ensures Valid()
      ensures !writable ==> r == Err(ReadOnly) && Flat() == old(Flat()) && blocks == old(blocks)
      ensures old(tier) == BlockTier && zero && writable ==>
                && (exists n: nat :: n <= ZeroLimit(old(size), offset, length)
                      && OnlySpills(WroteAll(old(blocks), old(size), budget, Zeros(n), offset), zeroed))
                && (r.Ok? ==> zeroed == old(ZeroedBlocks(offset, length)))
      ensures !(old(tier) == BlockTier && zero && writable) ==> zeroed == old(blocks)
      ensures left == old(size) || (old(tier) != BlockTier && tier == BlockTier && old(|data|) <= left)
      ensures Hidden(old(blocks)) && Quiet(old(blocks), zeroed) ==>
                && Hidden(blocks)
                && (r.Ok? && !old(LeftAllocate(offset, length, zero, keepSize)) ==>
                      Flat() == Allocated(old(Flat()), offset, length, zero, keepSize))
                && (r.Err? ==> exists n: nat :: n <= length && Flat() == Zeroed(old(Under(Flat(), blocks, left)), offset, n))
      ensures Hidden(old(blocks)) && r.Ok? ==>
                (Flat() == Allocated(old(Flat()), offset, length, zero, keepSize)
                 <==> !old(ResurfacingZeros(offset, length, zero, keepSize) || LeftAllocate(offset, length, zero, keepSize)))
      ensures !zero && r.Ok? && old(tier) == PackedTier && offset + length <= packMax ==>
                tier == PackedTier && packedDirty == old(packedDirty) && extent == old(extent) && clean == old(clean)
      ensures r.Ok? ==> size == if keepSize then old(size) else Max(old(size), offset + length)
      ensures old(tier) == BlockTier ==> tier == BlockTier
      ensures tier != BlockTier ==> blocks == old(blocks) && Limit() == old(Limit()) && (!zero ==> data == old(data))
      ensures !zero && tier == BlockTier ==> old(tier == BlockTier || Moves(offset + length))
      ensures old(faults) == [] ==> faults == [] && (writable ==> r.Ok?)
    {
      hide Fits, Total, Safe, Hidden, Visible, Zeroed, Fitted, ExtentReads, WroteAll, OnlySpills, Resurfaces, Quiet, Under, LeftShows, Resized,
           Floor, BlockCount, Ready, ResurfacesWhen, ReloadsWhen, Reloads;
      ghost var f := Flat();
      zeroed, left := blocks, size;
      QuietSame(blocks);
      ZeroedNone(f, offset);
      UnderNothing(f, blocks, size);
      if blocks.cached == None && 0 < ZeroLimit(size, offset, length) {
        NoneResurfaces(blocks, budget, f, Zeros(ZeroLimit(size, offset, length)), offset);
      }
      if !writable {
        return Err(ReadOnly), zeroed, left;
      }
      ghost var n: nat;
      var ok;
      ok, n, left := ZeroFirst(offset, length, zero);
      NoCacheIsHidden(blocks);
      if old(tier) == BlockTier {
        zeroed := blocks;
      }
      if ok && !keepSize && size < offset + length {
        ghost var g, len, moved := Flat(), |data|, tier == BlockTier;
        SurfacedFlat();
        NoneLeft(blocks, size, Min(offset + length, BlockCount(size) * CHUNK_SIZE));
        ResizedApart(g, Zeroed(f, offset, n), offset + length);
        ok := Grow(offset + length, []);
        NoCacheIsHidden(blocks);
        if ok && old(tier) == BlockTier && Hidden(old(blocks)) {
          GrowsOver(zeroed, old(size), offset + length, f, offset, n);
        }
        if !ok && !moved {
          left := len;
          ZeroedNone(Under(f, old(blocks), len), offset);
          if 0 < n {
            UnderNothing(g, old(blocks), len);
          }
        }
      }
      return if ok then Ok(()) else Err(StoreFailed), zeroed, left;
    }

    /** The first part of an allocation: what of the range lies in the file is zeroed, when asked. */
    method ZeroFirst(offset: nat, length: nat, zero: bool) returns (ok: bool, ghost n: nat, ghost left: nat)
      requires Valid() && writable
      modifies this
      ensures Valid() && size == old(size) && n <= length
      ensures ok ==> n == (if zero then ZeroLimit(size, offset, length) else 0)
      ensures ok ==> Zeroed(old(Flat()), offset, n) == (if zero then Zeroed(old(Flat()), offset, length) else old(Flat()))
      ensures old(tier) == BlockTier ==>
                && tier == BlockTier && left == size
                && (zero ==> n <= ZeroLimit(size, offset, length) && OnlySpills(WroteAll(old(blocks), size, budget, Zeros(n), offset), blocks))
                && (if zero then ok ==> blocks == old(ZeroedBlocks(offset, length)) else blocks == old(blocks))
      ensures old(tier) == BlockTier && Hidden(old(blocks)) && Quiet(old(blocks), blocks) ==>
                Hidden(blocks) && Flat() == Zeroed(old(Flat()), offset, n)
      ensures old(tier) == BlockTier && Hidden(old(blocks)) && ok ==>
                && (Flat() == Zeroed(old(Flat()), offset, n) <==> !(0 < n && old(ResurfacesWhen(blocks, budget, Flat(), Zeros(n), offset))))
                && (0 < n ==> (Reloads(blocks, size) <==> old(ReloadsWhen(blocks, size, budget, offset, n))))
                && (n == 0 ==> Hidden(blocks))
                && (Reloads(blocks, size) ==> Visible(Uncached(blocks), size) == Zeroed(old(Flat()), offset, n))
      ensures old(tier) != BlockTier ==>
                && blocks.cached == None
                && Flat() == Zeroed(old(Under(Flat(), blocks, left)), offset, n)
                && (if tier == BlockTier then left == old(LenAtMove(offset)) else left == size && ok)
                && (ok ==> (tier == BlockTier <==> 0 < n && old(Moves(offset + n))))
                && (ok && tier == BlockTier ==> (Flat() == Zeroed(old(Flat()), offset, n) <==> !old(LeftShows(blocks, left, size, offset, n))))
      ensures tier != BlockTier ==> ok && InMemory(old(blocks), old(Limit()), old(|data|), offset, n)
      ensures !zero ==> ok && data == old(data) && tier == old(tier) && packedDirty == old(packedDirty) && extent == old(extent) && clean == old(clean)
      ensures old(faults) == [] ==> ok && faults == []
    {
      hide Fits, Total, Safe, Hidden, Visible, Zeroed, Fitted, ExtentReads, WroteAll, OnlySpills, Resurfaces, Quiet, Under, LeftShows,
           Floor, BlockCount, ResurfacesWhen, ReloadsWhen, Reloads;
      ghost var f := Flat();
      ok, n, left := true, 0, size;
      ZeroedNone(f, offset);
      UnderNothing(f, blocks, size);
      if Hidden(blocks) {
        HiddenIsNewest(blocks, size);
      }
      if zero {
        ok, n := ZeroRange(offset, length);
        ZeroedIsSpliced(f, offset, length);
        if old(tier) == BlockTier {
          if Hidden(old(blocks)) {
            ZeroShows(old(blocks), size, budget, offset, n, blocks);
            if ok {
              ZeroShowsWhen(old(blocks), size, budget, offset, length, blocks);
            }
          }
        } else if tier == BlockTier {
          left := old(LenAtMove(offset));
          MemoryEnds(old(data), old(size), left);
          ZeroedExactly(f, old(blocks), left, offset, n);
        }
      }
    }

    /** The body is in memory still, and as long as zeroing `n` bytes at `offset` makes it. */
    ghost predicate InMemory(b: Blocks, limit: nat, len: nat, offset: nat, n: nat)
      reads this
    {
      blocks == b && Limit() == limit && |data| == if n == 0 then len else Max(len, offset + n)
    }

    /** How zeroing a range at `offset` stands when `n` bytes are zeroed, in blocks from the start or in a body that was in memory. */
    ghost predicate Zeroing(f: Bytes, b: Blocks, inBlocks: bool, limit: nat, len: nat, offset: nat, n: nat, ok: bool)
      reads this
    {
      if inBlocks then
        && tier == BlockTier && OnlySpills(WroteAll(b, size, budget, Zeros(n), offset), blocks)
        && (ok ==> blocks == WroteAll(b, size, budget, Zeros(n), offset))
      else
        && blocks.cached == None
        && Flat() == Zeroed(Ground(f, b, LenMoved(limit, len, offset), tier == BlockTier), offset, n)
        && (ok ==> (tier == BlockTier <==> 0 < n && limit < offset + n))
        && (tier != BlockTier ==> ok && InMemory(b, limit, len, offset, n))
    }

    method ZeroRange(offset: nat, length: nat) returns (ok: bool, ghost zeroed: nat)
      requires Valid() && writable
      modifies this
      ensures Valid() && size == old(size) && zeroed <= ZeroLimit(size, offset, length)
      ensures ok ==> zeroed == ZeroLimit(size, offset, length)
      ensures Zeroing(old(Flat()), old(blocks), old(tier) == BlockTier, old(Limit()), old(|data|), offset, zeroed, ok)
      ensures old(faults) == [] ==> ok && faults == []
    {
      hide Valid, Flat, Zeroing, Zeroed, WroteAll, Boundary, Room;
      var done := 0;
      zeroed := 0;
      ghost var f, b, inBlocks, limit, len := Flat(), blocks, tier == BlockTier, Limit(), |data|;
      ZeroingStarts(offset);
      FlatSize();
      while done < length
        invariant done <= length && Valid() && size == old(size) && zeroed == Min(done, ZeroLimit(size, offset, length))
        invariant done == 0 || done == length || Boundary(offset + done)
        invariant Zeroing(f, b, inBlocks, limit, len, offset, zeroed, true)
        invariant old(faults) == [] ==> faults == []
      {
        var pos := offset + done;
        var take := Min(length - done, Room(pos));
        RoomEnds(pos);
        if pos < size {
          var cap := Min(size - pos, take);
          ok, zeroed := ZeroNext(cap, offset, done, f, b, inBlocks, limit, len);
          if !ok {
            return;
          }
        }
        done := done + take;
      }
      return true, zeroed;
    }

    lemma ZeroingStarts(offset: nat)
      requires Valid()
      ensures Zeroing(Flat(), blocks, tier == BlockTier, Limit(), |data|, offset, 0, true)
    {
      hide Zeroed, Fits, Total, ExtentReads, OnlySpills, Under, Visible, Fitted, LenMoved;
      GroundStart(Flat(), blocks, Limit(), |data|, offset, size, budget);
      SpillsRefl(blocks);
    }

    /** Zeroes the next chunk of a range. */
    method ZeroNext(cap: nat, offset: nat, done: nat, ghost f: Bytes, ghost b: Blocks, ghost inBlocks: bool, ghost limit: nat, ghost len: nat)
      returns (ok: bool, ghost zeroed: nat)
      requires Valid() && writable && 0 < cap <= Room(offset + done) && offset + done + cap <= size == |f|
      requires (done == 0 || Boundary(offset + done)) && Zeroing(f, b, inBlocks, limit, len, offset, done, true)
      modifies this
      ensures Valid() && size == old(size) && zeroed <= done + cap && (ok ==> zeroed == done + cap)
      ensures Zeroing(f, b, inBlocks, limit, len, offset, zeroed, ok)
      ensures old(faults) == [] ==> ok && faults == []
    {
      hide Valid, Flat, Zeroed, Spliced, Room, WroteAll, OnlySpills, Boundary, Under, Floor, Ground, LenMoved;
      ghost var moved := tier == BlockTier;
      ghost var n: nat;
      ok, n := ZeroOne(cap, offset + done);
      if !inBlocks {
        ZeroStep(f, b, limit, len, offset, done, cap, n, moved);
      }
      ZeroInTwo(b, size, budget, offset, done, n);
      zeroed := done + n;
    }

    /** Zeroes a range inside one chunk of the file. */
    method ZeroOne(cap: nat, pos: nat) returns (ok: bool, ghost n: nat)
      requires Valid() && writable && 0 < cap && pos + cap <= size
      modifies this
      ensures Valid() && size == old(size) && n <= cap && (ok ==> n == cap)
      ensures old(tier) == BlockTier ==>
                && tier == BlockTier && OnlySpills(WroteAll(old(blocks), size, budget, Zeros(n), pos), blocks)
                && (ok ==> blocks == WroteAll(old(blocks), size, budget, Zeros(n), pos))
      ensures old(blocks).cached == None ==>
                && blocks.cached == None
                && Flat() == Spliced(if old(Moves(pos + cap)) then old(Under(Flat(), blocks, |data|)) else old(Flat()), pos, Zeros(n))
      ensures tier == BlockTier <==> old(tier == BlockTier || Moves(pos + cap))
      ensures tier != BlockTier ==> ok && InMemory(old(blocks), old(Limit()), old(|data|), pos, n)
      ensures old(faults) == [] ==> ok && faults == []
    {
      hide Valid, Flat, Spliced, Coherent, Clobbers, WroteAll, OnlySpills, Resurfaces, Hidden, Safe, Ready, ChunksOf, NeedsTrim, Pieces,
           Under, LeftShows;
      InsideNeedsNone(size, pos, cap);
      ReadyInside(blocks, size, pos + cap);
      NoCacheIsHidden(blocks);
      ValidMemory();
      SurfacedFlat();
      var written, ready := WriteAt(Zeros(cap), pos);
      n := |Reported(Zeros(cap), written)|;
      assert Reported(Zeros(cap), written) == Zeros(n);
      FlatSize();
      return written == Ok(cap), n;
    }

    lemma FlatSize()
      ensures |Flat()| == size
    {
    }

    lemma SurfacedFlat()
      ensures tier != BlockTier ==> Surfaced(size) == Under(Flat(), blocks, |data|)
    {
    }

    lemma ValidMemory()
      requires Valid()
      ensures tier != BlockTier ==> blocks.cached == None
    {
    }

    /** A change of size to `n` bytes, which flushes, moves the body into blocks and shows a block left in the store. */
    predicate LeftResize(n: nat)
      reads this
    {
      if size < n then LeftGrowth(n) else LeftFlush(n)
    }

    /** The same of a flush as a file of `n` bytes. */
    predicate LeftFlush(n: nat)
      reads this
    {
      Moves(n) && LeftShows(blocks, |data|, n, 0, 0)
    }

    /**
     Truncates or grows the file and flushes it. A failed flush leaves a file that a later flush repairs. Once
     the file is `sized`, it is the old one cut or grown with zeros exactly when no block left in the store
     shows and no padding of a final block does, which is `stored` only once every dirty block is.
     */
    method Resize(n: nat, pad: Bytes) returns (r: Result<(), Error>, ghost sized: bool, ghost stored: bool)
      requires Valid()
      modifies this
      ensures Sound()
      ensures r.Ok? ==> Valid() && Flushed()
      ensures !writable ==> r == Err(ReadOnly) && Flat() == old(Flat())
      ensures Hidden(old(blocks)) ==> Hidden(blocks) && (r.Ok? ==> Safe(blocks))
      ensures r.Ok? ==> sized && stored
      ensures size == if sized then n else old(size)
      ensures Hidden(old(blocks)) && sized ==>
                (Flat() == Resized(old(Flat()), n) <==> !(stored && old(ResizeHazard(n, pad))) && !old(LeftResize(n)))
      ensures Hidden(old(blocks)) && !sized ==> Flat() == old(if writable && Moves(n) then Surfaced(size) else Flat())
      ensures stored && tier == BlockTier ==> blocks.dirty == map[]
      ensures r.Ok? ==> !ExtentShows() && (old(tier) == BlockTier ==> tier == BlockTier) && (tier == BlockTier ==> dirtyBytes == 0)
      ensures old(faults) == [] ==> faults == [] && (writable ==> r.Ok?)
    {
      hide Total, Safe, Hidden, Visible, Fits, FinalPadShows, GrowthPadShows, ChunksOf, ExtentReads, LeftShows, Under, Resized, Fitted;
      NoCacheIsHidden(blocks);
      if !writable {
        return Err(ReadOnly), false, false;
      }
      LeftIsUnpadded(blocks, data, n, Min(n, BlockCount(size) * CHUNK_SIZE), pad);
      LeftIsUnpadded(blocks, data, n, n, pad);
      var ok := true;
      if size < n {
        ok := Grow(n, pad);
        if !ok {
          NoCacheIsHidden(blocks);
          return Err(StoreFailed), false, false;
        }
      } else {
        if tier == BlockTier {
          ShrunkReads(blocks, size, n);
        } else {
          MemoryShrinks(data, size, n);
        }
        size := n;
      }
      if tier == PackedTier {
        packedDirty := true;
      }
      NoCacheIsHidden(blocks);
      ok, stored := FlushContentOnly(pad);
      return if ok then Ok(()) else Err(StoreFailed), true, stored;
    }

    /** Opens a file from its inode record and the store. A packed extent longer than the file is cut to it. */
    constructor Open(size: nat, record: FileData, extent: Option<Bytes>, stored: map<nat, Bytes>, inlineMax: nat, packMax: nat,
                     budget: nat, padded: bool, writable: bool, faults: seq<bool>)
      ensures Valid() && Safe(blocks) && (!record.Inline? ==> Flushed())
      ensures Flat() == OnDisk(size, record, extent, stored)
      ensures this.inlineMax == inlineMax && this.packMax == packMax && this.budget == budget
      ensures this.padded == padded && this.writable == writable && this.faults == faults
      ensures this.size == size && this.record == record && this.extent == extent && clean == size && dirtyBytes == 0
      ensures blocks == Blocks(map[], None, stored) && (tier == BlockTier <==> record == File)
    {
      this.size, this.record, this.extent, this.faults := size, record, extent, faults;
      this.inlineMax, this.packMax, this.budget, this.padded, this.writable := inlineMax, packMax, budget, padded, writable;
      blocks := Blocks(map[], None, stored);
      dirtyBytes, diskBlocks, diskSize, packedDirty, clean := 0, BlockCount(size), size, false, size;
      match record {
        case Inline(bytes) =>
          tier, data := InlineTier, Take(bytes, size);
        case Packed =>
          tier, data := PackedTier, Take(ExtentBytes(extent), size);
        case File =>
          tier, data := BlockTier, [];
      }
    }

    /** A packed body grown since it was read, whose stored extent has bytes where the growth has zeros. */
    ghost predicate ExtentShows()
      reads this
    {
      tier == PackedTier && !packedDirty && ShowsBetween(extent, clean, size)
    }

    /**
     Closing a flushed file and opening it again shows the same bytes, exactly when no byte of a packed
     extent that was not rewritten shows past what the body was read from.
     */
    method Reopen() returns (c: Contents)
      requires Valid() && Flushed()
      ensures fresh(c) && c.Valid() && Safe(c.blocks) && c.padded == padded && c.writable == writable && c.faults == faults
      ensures c.budget == budget && c.dirtyBytes == 0 && c.size == size && (tier == BlockTier ==> c.tier == BlockTier)
      ensures c.Flat() == OnDisk(size, record, extent, blocks.stored)
      ensures Hidden(blocks) ==> (c.Flat() == Flat() <==> !ExtentShows())
    {
      hide Visible, Fitted, Hidden, Safe, Total, Fits, ExtentReads, ShowsBetween;
      CleanReads(blocks, size);
      if tier == PackedTier {
        ExtentIsBody(data, extent, clean, size);
      }
      c := new Contents.Open(size, record, extent, blocks.stored, inlineMax, packMax, budget, padded, writable, faults);
    }

    /** The blocks a flush writes from: those of a block body, or the chunks of a body it moves into blocks. */
    function ToFlush(): Blocks
      reads this
    {
      if tier == BlockTier then blocks else Moved(blocks, data)
    }

    predicate FlushesBlocks(n: nat)
      reads this
    {
      tier == BlockTier || Moves(n)
    }

    /** Flushed as a file of `n` bytes, the padding of the final block would land before the end of the file. */
    ghost predicate PadHazardAt(n: nat, pad: Bytes)
      reads this
    {
      padded && FlushesBlocks(n) && FinalPadShows(ToFlush(), n, if tier == BlockTier then diskSize else 0, pad)
    }

    ghost predicate PadHazard(pad: Bytes)
      reads this
    {
      PadHazardAt(size, pad)
    }

    /** The same of a change of size, which flushes. */
    ghost predicate ResizeHazard(n: nat, pad: Bytes)
      reads this
    {
      if tier == BlockTier && size < n then padded && GrowthPadShows(blocks, size, n, diskSize, pad)
      else PadHazardAt(n, pad)
    }

    /** Whether some padding could show once the file is flushed as one of `n` bytes. */
    predicate PadRiskAt(n: nat)
      reads this
    {
      padded && FlushesBlocks(n) && FinalPadCan(ToFlush(), n, if tier == BlockTier then diskSize else 0)
    }

    predicate PadRisk()
      reads this
    {
      PadRiskAt(size)
    }

    predicate ResizeRisk(n: nat)
      reads this
    {
      if tier == BlockTier && size < n then padded && GrowthPadCan(blocks, size, n, diskSize) else PadRiskAt(n)
    }

    /** Which padding is drawn is not known before the call, but whether any of it can show is. */
    lemma RiskExactly(n: nat, len: nat)
      requires 0 < len
      ensures (exists pad: Bytes :: |pad| == len && PadHazard(pad)) <==> PadRisk()
      ensures (exists pad: Bytes :: |pad| == len && ResizeHazard(n, pad)) <==> ResizeRisk(n)
      ensures forall pad: Bytes :: (PadHazard(pad) ==> PadRisk()) && (ResizeHazard(n, pad) ==> ResizeRisk(n))
    {
      hide FinalPadShows, FinalPadCan, GrowthPadShows, GrowthPadCan;
      AtRisk(size, len);
      AtRisk(n, len);
      if tier == BlockTier && size < n {
        GrowthPadCanExactly(blocks, size, n, diskSize, len);
        if ResizeRisk(n) {
          var pad: Bytes :| |pad| == len && GrowthPadShows(blocks, size, n, diskSize, pad);
          assert ResizeHazard(n, pad);
        }
      } else {
        forall pad: Bytes
          ensures ResizeHazard(n, pad) == PadHazardAt(n, pad)
        {
        }
      }
      forall pad: Bytes
        ensures PadHazard(pad) == PadHazardAt(size, pad)
      {
      }
    }

    lemma AtRisk(n: nat, len: nat)
      requires 0 < len
      ensures (exists pad: Bytes :: |pad| == len && PadHazardAt(n, pad)) <==> PadRiskAt(n)
      ensures forall pad: Bytes :: PadHazardAt(n, pad) ==> PadRiskAt(n)
    {
      hide FinalPadShows, FinalPadCan;
      var d := if tier == BlockTier then diskSize else 0;
      FinalPadCanExactly(ToFlush(), n, d, len);
      if PadRiskAt(n) {
        var pad: Bytes :| |pad| == len && FinalPadShows(ToFlush(), n, d, pad);
        assert PadHazardAt(n, pad);
      }
    }

    /**
     Puts the body into the store and the inode record; `pad` is the final block's random padding.
     The file reads the same afterwards exactly when that padding does not show, nor a block left in the
     store. The padding shows once every dirty block is `stored`, even if the call is then interrupted.
     */
    method FlushContentOnly(pad: Bytes) returns (ok: bool, ghost stored: bool)
      requires Sound()
      modifies this
      ensures Sound() && size == old(size)
      ensures ok ==> Valid() && Flushed() && stored
      ensures Hidden(old(blocks)) ==> Hidden(blocks) && (ok ==> Safe(blocks))
      ensures stored && tier == BlockTier ==> blocks.dirty == map[]
      ensures Hidden(old(blocks)) ==> (Flat() == old(Flat()) <==> !(stored && old(PadHazard(pad))) && !old(LeftFlush(size)))
      ensures ok ==> (ExtentShows() <==> old(ExtentShows()) && size <= packMax) && (old(tier) == BlockTier ==> tier == BlockTier)
      ensures ok && old(tier) == PackedTier && !old(packedDirty) && size <= packMax ==> tier == PackedTier && extent == old(extent)
      ensures ok && tier == BlockTier ==> dirtyBytes == 0
      ensures old(faults) == [] ==> ok && faults == []
    {
      hide Visible, Fitted, Hidden, Safe, Total, Fits, ExtentReads, FinalPadShows, ChunksOf, ShowsBetween, LeftShows, Under;
      NoCacheIsHidden(blocks);
      SplitNone([]);
      LeftIsUnpadded(blocks, data, size, size, pad);
      PromoteFor(size);
      NoCacheIsHidden(blocks);
      if tier == BlockTier {
        ok, stored := FlushBlocks(pad);
      } else {
        ok := FlushMemory();
        stored := true;
      }
    }

    method FlushMemory() returns (ok: bool)
      requires Sound() && tier != BlockTier
      modifies this`data, this`faults, this`extent, this`packedDirty, this`record, this`clean
      ensures Sound() && Flat() == old(Flat())
      ensures ok ==> Valid() && Flushed() && (ExtentShows() <==> old(ExtentShows()))
      ensures !old(packedDirty) ==> extent == old(extent)
      ensures old(faults) == [] ==> ok && faults == []
    {
      data := Fitted(data, size);
      assert Flat() == old(Flat());
      if tier == InlineTier {
        record := Inline(data);
        return true;
      }
      if packedDirty {
        ok := Attempt();
        if !ok {
          return;
        }
        extent, packedDirty, clean := Some(data), false, size;
      }
      record := Packed;
      return true;
    }

    /** A shrink cuts the final block, so that nothing past the end of the file is kept. */
    method CutFinalBlock(ghost pad: Bytes) returns (ok: bool)
      requires Sound() && tier == BlockTier
      modifies this`faults, this`blocks, this`dirtyBytes
      ensures Sound()
      ensures Hidden(old(blocks)) ==> Hidden(blocks) && Flat() == old(Flat())
      ensures ok ==> (FinalPadShows(blocks, size, size, pad) <==> FinalPadShows(old(blocks), size, diskSize, pad))
      ensures old(faults) == [] ==> ok && faults == []
    {
      hide Visible, Hidden, Coherent, PadShows, BlockOf, Loaded;
      if diskSize <= size || size % CHUNK_SIZE == 0 {
        return true;
      }
      var idx := BlockCount(size) - 1;
      ghost var b := blocks;
      var bytes := LoadBlock(idx);
      if bytes.Err? {
        return false;
      }
      LoadSame(b, idx);
      var cut := Take(bytes.value, size % CHUNK_SIZE);
      TotalInsert(blocks.dirty, idx, cut);
      if idx in blocks.dirty {
        TotalRemove(blocks.dirty, idx);
        dirtyBytes := dirtyBytes - |blocks.dirty[idx]|;
      }
      dirtyBytes := dirtyBytes + |cut|;
      blocks := Blocks(blocks.dirty[idx := cut], Evicted(blocks.cached, idx), blocks.stored);
      FinalCut(b, size, idx, cut, diskSize, pad);
      return true;
    }

    method FlushBlocks(pad: Bytes) returns (ok: bool, ghost stored: bool)
      requires Sound() && tier == BlockTier
      modifies this`faults, this`blocks, this`dirtyBytes, this`diskBlocks, this`diskSize
      ensures Sound()
      ensures ok ==> Valid() && Flushed() && stored
      ensures stored ==> blocks.dirty == map[]
      ensures Hidden(old(blocks)) ==> Hidden(blocks) && (ok ==> Safe(blocks))
      ensures Hidden(old(blocks)) ==>
                (Flat() == old(Flat()) <==> !(stored && padded && FinalPadShows(old(blocks), size, old(diskSize), pad)))
      ensures old(faults) == [] ==> ok && faults == []
    {
      hide Visible, Hidden, Coherent, FinalPadShows, Safe, Total;
      stored := false;
      ok := CutFinalBlock(pad);
      if !ok {
        return;
      }
      var required := BlockCount(size);
      ghost var b := blocks;
      if blocks.cached.Some? && (required <= blocks.cached.value.idx || blocks.cached.value.idx in blocks.dirty) {
        blocks := blocks.(cached := None);
      }
      EvictReads(b, blocks, size, pad);
      ok := WriteOut(pad);
      NoCacheIsHidden(blocks);
      if !ok {
        return;
      }
      stored := true;
      ok := Prune(required);
      NoCacheIsHidden(blocks);
      if !ok {
        return;
      }
      diskBlocks, diskSize := required, size;
    }

    /** Stores every dirty block, the lowest first and the final one with padding. Interrupted, it shows no padding. */
    method WriteOut(pad: Bytes) returns (ok: bool)
      requires Sound() && tier == BlockTier
      requires blocks.cached.Some? ==> blocks.cached.value.idx < BlockCount(size) && blocks.cached.value.idx !in blocks.dirty
      modifies this`faults, this`blocks, this`dirtyBytes
      ensures Sound() && blocks.cached == old(blocks.cached)
      ensures blocks.cached.Some? ==> blocks.cached.value.idx !in blocks.dirty
      ensures Safe(old(blocks)) ==> Safe(blocks)
      ensures !ok ==> Flat() == old(Flat())
      ensures ok ==> blocks.dirty == map[] && (Flat() == old(Flat()) <==> !(padded && FinalPadShows(old(blocks), size, size, pad)))
      ensures old(faults) == [] ==> ok && faults == []
    {
      hide Sound, Visible, PadShows, FinalPadShows, Safe, ValidLen, BlockCount, Out, Remains, Above;
      FinalShows(blocks, size, pad);
      ghost var last, shows := BlockCount(size) - 1, padded && FinalPadShows(blocks, size, size, pad);
      RemainsAll(blocks.dirty);
      while blocks.dirty != map[]
        invariant Sound() && blocks.cached == old(blocks.cached)
        invariant blocks.cached.Some? ==> blocks.cached.value.idx !in blocks.dirty
        invariant Safe(old(blocks)) ==> Safe(blocks)
        invariant Remains(old(blocks).dirty, blocks.dirty) && Above(old(blocks).dirty, blocks.dirty)
        invariant (shows && last !in blocks.dirty) <==> Visible(blocks, size) != Visible(old(blocks), size)
        invariant old(faults) == [] ==> faults == []
        decreases |blocks.dirty|
      {
        var idx := FirstKey(blocks.dirty);
        OutReads(blocks, size, idx, padded, pad);
        RemainsLess(old(blocks).dirty, blocks.dirty, idx);
        ok := WriteOutOne(idx, pad);
        if !ok {
          RemainsAbove(old(blocks).dirty, blocks.dirty, idx, last);
          return;
        }
      }
      return true;
    }

    method WriteOutOne(idx: nat, pad: Bytes) returns (ok: bool)
      requires Sound() && tier == BlockTier && idx in blocks.dirty
      requires blocks.cached.Some? ==> blocks.cached.value.idx !in blocks.dirty
      modifies this`faults, this`blocks, this`dirtyBytes
      ensures Sound() && blocks == if ok then Out(old(blocks), size, idx, padded, pad) else old(blocks)
      ensures !ok ==> idx < BlockCount(size)
      ensures old(faults) == [] ==> ok && faults == []
    {
      hide Total, Out, ExtentReads;
      if idx < BlockCount(size) {
        ok := Attempt();
        if !ok {
          return;
        }
      }
      OutReads(blocks, size, idx, padded, pad);
      dirtyBytes := dirtyBytes - |blocks.dirty[idx]|;
      blocks := Out(blocks, size, idx, padded, pad);
      return true;
    }

    /** Removes stored blocks past the end of the file. */
    method Prune(required: nat) returns (ok: bool)
      requires Sound() && tier == BlockTier && required == BlockCount(size)
      modifies this`faults, this`blocks
      ensures Sound() && blocks == old(blocks).(stored := blocks.stored) && Flat() == old(Flat())
      ensures (blocks.cached.Some? ==> blocks.cached.value.idx < required) && Safe(old(blocks)) ==> Safe(blocks)
      ensures ok ==> forall k: nat :: required <= k < diskBlocks ==> k !in blocks.stored
      ensures old(faults) == [] ==> ok && faults == []
    {
      var idx := required;
      while idx < diskBlocks
        invariant required <= idx
        invariant blocks == old(blocks).(stored := blocks.stored)
        invariant forall k: nat :: k < required ==> StoredBlock(blocks, k) == StoredBlock(old(blocks), k)
        invariant forall k: nat :: required <= k < idx ==> k !in blocks.stored
        invariant old(faults) == [] ==> faults == []
      {
        ok := Attempt();
        if !ok {
          VisibleBelow(old(blocks), blocks, size);
          return;
        }
        blocks := blocks.(stored := blocks.stored - {idx});
        idx := idx + 1;
      }
      VisibleBelow(old(blocks), blocks, size);
      return true;
    }
  }

  /**
   A packed file of one byte, whose extent was left two bytes long, is opened and allocated a second
   byte. Nothing marks the body for rewriting, so once reopened it has the old byte there, not a zero.
   */
  method ExtentReappears() returns (c: Contents, c': Contents)
    ensures fresh(c) && fresh(c') && c.Flat() == [1, 0] && c'.Flat() == [1, 2]
  {
    c := new Contents.Open(1, Packed, Some([1, 2]), map[], 0, 16, 0, false, true, []);
    assert c.Flat() == [1];
    var r, _, _ := c.Fallocate(1, 1, false, false);
    assert c.Flat() == [1, 0];
    var ok, _ := c.FlushContentOnly([]);
    c' := c.Reopen();
  }

  /**
   An empty inline file is written two chunks of sevens, the first of which is spilled, and the machine stops
   before the inode is recorded. Opened again, the file is empty; it is allocated a hundred bytes and written
   one byte past the first chunk, which moves it into blocks. The hundred zeros, and the gap after them, are sevens.
   */
  method BlockReappears() returns (lost: Contents, c: Contents)
    ensures fresh(lost) && fresh(c) && |c.Flat()| == CHUNK_SIZE + 1
    ensures c.Flat()[0] == 7 && c.Flat()[100] == 7
  {
    hide Total, Fits, Visible, ExtentReads, WroteAll, Pieces, OnlySpills, Resurfaces, Quiet, Vacated, Moved, LeftShows, Allocated, Zeroed,
         FinalPadShows, ResurfacesWhen, Ready, Hidden, Safe, Coherent, Clobbers, Contents.ResurfacingZeros, Contents.LeftAllocate;
    var sevens := seq(2 * CHUNK_SIZE, i => 7 as byte);
    lost := new Contents.Open(0, Inline([]), None, map[], 4096, CHUNK_SIZE, CHUNK_SIZE, false, true, []);
    SpillLeaves(sevens);
    var r, _ := lost.WriteAt(sevens, 0);
    assert lost.blocks.stored == map[0 := sevens[..CHUNK_SIZE]];
    c := new Contents.Open(0, Inline([]), None, lost.blocks.stored, 4096, CHUNK_SIZE, CHUNK_SIZE, false, true, []);
    var a, _, _ := c.Fallocate(0, 100, false, false);
    assert c.tier != BlockTier && c.size == 100 && |c.data| == 0 && c.blocks.stored == map[0 := sevens[..CHUNK_SIZE]];
    assert LeftAt(c.blocks, 0, 0) && LeftAt(c.blocks, 0, 100);
    var w, _ := c.WriteAt([1], CHUNK_SIZE);
    assert Reported([1], w) == [1];
  }

  // ----- Whole sessions -----

  datatype Op =
    | Read(offset: nat, len: nat)
    | Write(offset: nat, buf: Bytes)
    | Allocate(offset: nat, length: nat, zero: bool, keepSize: bool)
    | Truncate(n: nat, pad: Bytes)
    | Flush(pad: Bytes)
    | CloseAndOpen(pad: Bytes)

  /** What an operation does to a plain string of bytes. */
  function Effect(f: Bytes, op: Op): Bytes {
    match op
    case Read(_, _) => f
    case Write(offset, buf) => Spliced(f, offset, buf)
    case Allocate(offset, length, zero, keepSize) => Allocated(f, offset, length, zero, keepSize)
    case Truncate(n, _) => Resized(f, n)
    case Flush(_) => f
    case CloseAndOpen(_) => f
  }

  /** What a read of a plain string of bytes gives. */
  function Answer(f: Bytes, op: Op): Bytes {
    if op.Read? && op.offset + op.len <= |f| then f[op.offset..op.offset + op.len] else []
  }

  function Effects(f: Bytes, ops: seq<Op>): Bytes {
    if ops == [] then f else Effect(Effects(f, ops[..|ops| - 1]), ops[|ops| - 1])
  }

  /** What only a store's failure can keep from succeeding. */
  predicate Possible(f: Bytes, writable: bool, op: Op) {
    match op
    case Read(offset, len) => len == 0 || offset + len <= |f|
    case Write(_, _) => writable
    case Allocate(_, _, _, _) => writable
    case Truncate(_, _) => writable
    case _ => true
  }

  /**
   The operation takes no block's dirty copy while an older one is cached, its flush shows no padding, it
   shows no block left in the store, and it reopens no extent that shows where the file grew.
   */
  ghost predicate Harmless(c: Contents, op: Op)
    reads c
  {
    match op
    case Read(_, _) => true
    case Write(offset, buf) => c.QuietWrite(buf, offset) && !c.LeftWrite(offset, |buf|, |buf|)
    case Allocate(offset, length, zero, keepSize) =>
      && (zero && c.tier == BlockTier ==> Quiet(c.blocks, c.ZeroedBlocks(offset, length)))
      && !c.LeftAllocate(offset, length, zero, keepSize)
    case Truncate(n, pad) => !c.ResizeHazard(n, pad) && !c.LeftResize(n)
    case Flush(pad) => !c.PadHazard(pad) && !c.LeftFlush(c.size)
    case CloseAndOpen(pad) => !c.PadHazard(pad) && !c.LeftFlush(c.size) && !(c.ExtentShows() && c.size <= c.packMax)
  }

  /** No block is both dirty and cached. */
  predicate CacheIsClean(b: Blocks) {
    b.cached.Some? ==> b.cached.value.idx !in b.dirty
  }

  /** What a caller can check beforehand: the write buffer has room, or no block is replaced whole. */
  predicate GentleWrite(c: Contents, offset: nat, len: nat)
    reads c
  {
    || c.tier != BlockTier
    || c.dirtyBytes + (1 + Pieces(len, offset)) * CHUNK_SIZE <= c.budget
    || (CacheIsClean(c.blocks) && Partial(offset, len))
  }

  /** What a caller can check beforehand, whatever is cached or drawn as padding, that makes an operation harmless. */
  predicate Gentle(c: Contents, op: Op)
    reads c
  {
    match op
    case Read(_, _) => true
    case Write(offset, buf) => GentleWrite(c, offset, |buf|) && !c.LeftWrite(offset, |buf|, |buf|)
    case Allocate(offset, length, zero, keepSize) =>
      (zero ==> GentleWrite(c, offset, ZeroLimit(c.size, offset, length))) && !c.LeftAllocate(offset, length, zero, keepSize)
    case Truncate(n, _) => !c.ResizeRisk(n) && !c.LeftResize(n)
    case Flush(_) => !c.PadRisk() && !c.LeftFlush(c.size)
    case CloseAndOpen(_) =>
      !c.PadRisk() && !c.LeftFlush(c.size) && (c.tier == PackedTier && !c.packedDirty ==> Fitted(ExtentBytes(c.extent), c.size) == Fitted(c.data, c.size))
  }

  lemma ReadyKeeps(b: Blocks, size: nat, end: nat, trim: bool)
    requires Fits(b, size)
    ensures var b' := Ready(b, size, end, trim);
            && Fits(b', size) && (Safe(b) ==> Safe(b')) && (Hidden(b) ==> Hidden(b'))
            && Total(b'.dirty) <= Total(b.dirty) + CHUNK_SIZE
  {
    hide Total, Visible, Trimmed;
    var cut := if trim then SizeTrimmed(b, size) else b;
    if trim && size % CHUNK_SIZE != 0 {
      var idx, valid := size / CHUNK_SIZE, size % CHUNK_SIZE;
      LoadFits(b, size, idx);
      if valid < |BlockOf(b, idx)| {
        CutReads(b, size, idx, BlockOf(b, idx)[..valid]);
        TotalInsert(b.dirty, idx, BlockOf(b, idx)[..valid]);
      }
    }
    VisibleBelow(cut, Vacated(cut, size, end), size);
  }

  lemma GentleWriteIsQuiet(b: Blocks, size: nat, budget: nat, buf: Bytes, offset: nat)
    requires Fits(b, size) && Hidden(b)
    requires Total(b.dirty) + Pieces(|buf|, offset) * CHUNK_SIZE <= budget || (Safe(b) && Partial(offset, |buf|))
    ensures Quiet(b, WroteAll(b, size, budget, buf, offset))
  {
    hide Fits, Hidden, Total, Pieces, WroteAll, Partial, Quiet, Safe;
    assert buf[..|buf|] == buf;
    RoomyStop(b, size, budget, buf, offset, |buf|);
    if Safe(b) && Partial(offset, |buf|) {
      PartialWrite(b, size, budget, buf, offset);
      SafeIsQuiet(b, WroteAll(b, size, budget, buf, offset));
    }
  }

  lemma GentleIsHarmless(c: Contents, op: Op)
    requires c.Valid() && Hidden(c.blocks) && Gentle(c, op)
    ensures Harmless(c, op)
  {
    hide Fits, Total, Pieces, WroteAll, Partial, Quiet, Ready, NeedsTrim, FinalPadShows, FinalPadCan, GrowthPadShows, GrowthPadCan, ChunksOf,
         ExtentReads, ShowsBetween, LeftShows, Vacated;
    QuietSame(c.blocks);
    match op
    case Write(offset, buf) =>
      NoneCached(Moved(c.blocks, c.data), c.size, offset + |buf|);
      var b := c.Prepared(buf, offset);
      QuietSame(WroteAll(b, c.size, c.budget, buf, offset));
      if c.tier == BlockTier {
        ReadyKeeps(c.blocks, c.size, offset + |buf|, NeedsTrim(c.size, offset, |buf|));
        GentleWriteIsQuiet(b, c.size, c.budget, buf, offset);
      }
    case Allocate(offset, length, zero, _) =>
      if zero && c.tier == BlockTier {
        GentleWriteIsQuiet(c.blocks, c.size, c.budget, Zeros(ZeroLimit(c.size, offset, length)), offset);
      }
    case Truncate(n, _) => c.RiskExactly(n, 1);
    case Flush(_) => c.RiskExactly(0, 1);
    case CloseAndOpen(_) =>
      c.RiskExactly(0, 1);
      if c.ExtentShows() {
        ExtentIsBody(c.data, c.extent, c.clean, c.size);
      }
    case _ =>
  }

  method Perform(c: Contents, op: Op) returns (c': Contents, ok: bool, out: Bytes)
    requires c.Valid()
    modifies c
    ensures (c' == c || fresh(c')) && c'.padded == c.padded && c'.writable == c.writable
    ensures ok ==> c'.Valid()
    ensures old(c.faults) == [] ==> c'.faults == [] && (Possible(old(c.Flat()), c.writable, op) ==> ok)
    ensures old(Hidden(c.blocks) && Harmless(c, op)) && ok ==>
              Hidden(c'.blocks) && c'.Flat() == Effect(old(c.Flat()), op) && out == Answer(old(c.Flat()), op)
  {
    hide Fits, Total, Safe, Hidden, Visible, Fitted, ExtentReads, FinalPadShows, GrowthPadShows, Spliced, Allocated, Resized,
         Zeroed, ChunksOf, WroteAll, Quiet, Resurfaces, OnlySpills, Ready, Pieces, ShowsBetween, Clobbers, Coherent, LeftShows, Under,
         Vacated, Reach, Contents.Surfaced;
    c', ok, out := c, true, [];
    ghost var stored;
    NoCacheIsHidden(c.blocks);
    match op {
      case Read(offset, len) =>
        EmptyRead(c.Flat(), offset, len);
        var r := c.ReadExactAt(len, offset);
        ok := r.Ok?;
        out := if ok then r.value else [];
      case Write(offset, buf) =>
        var r, _ := c.WriteAt(buf, offset);
        ok := r == Ok(|buf|);
      case Allocate(offset, length, zero, keepSize) =>
        QuietSame(c.blocks);
        var r, _, _ := c.Fallocate(offset, length, zero, keepSize);
        ok := r.Ok?;
      case Truncate(n, pad) =>
        var r, _, _ := c.Resize(n, pad);
        ok := r.Ok?;
        NoCacheIsHidden(c.blocks);
      case Flush(pad) =>
        ok, stored := c.FlushContentOnly(pad);
      case CloseAndOpen(pad) =>
        ok, stored := c.FlushContentOnly(pad);
        if ok {
          c' := c.Reopen();
          NoCacheIsHidden(c'.blocks);
        }
    }
  }

  /**
   A file body stands for one string of bytes. Up to the first operation that the store fails or
   that is not harmless, any run of operations ends with, and every read in it gives, what they do to
   that string. A careful run stops before an operation that is not gentle, and so never meets one that
   is not harmless; and without store failures every operation possible on that string succeeds.
   */
  method Session(c: Contents, ops: seq<Op>, careful: bool) returns (c': Contents, done: nat, outs: seq<Bytes>, ghost harmless: bool)
    requires c.Valid() && Hidden(c.blocks)
    modifies c
    ensures done == |outs| <= |ops|
    ensures careful ==> harmless
    ensures harmless && done == |ops| ==> c'.Valid() && Hidden(c'.blocks) && c'.Flat() == Effects(old(c.Flat()), ops)
    ensures harmless ==> forall i :: 0 <= i < done ==> outs[i] == Answer(Effects(old(c.Flat()), ops[..i]), ops[i])
    ensures harmless && old(c.faults) == [] && done < |ops| ==>
              || !Possible(Effects(old(c.Flat()), ops[..done]), c.writable, ops[done])
              || (careful && !Gentle(c', ops[done]) && c'.Valid() && c'.Flat() == Effects(old(c.Flat()), ops[..done]))
  {
    hide Hidden, Harmless, Effect, Effects, Answer, Gentle, Possible, Contents.Valid, Contents.Flat;
    EffectsMore(c.Flat(), ops, 0);
    c', done, outs, harmless := c, 0, [], true;
    ghost var f, steady := c.Flat(), c.faults == [];
    while done < |ops|
      invariant done <= |ops| && |outs| == done && (c' == c || fresh(c')) && c'.Valid()
      invariant c'.padded == c.padded && c'.writable == c.writable && (steady ==> c'.faults == [])
      invariant careful ==> harmless
      invariant harmless ==> Hidden(c'.blocks) && c'.Flat() == Effects(f, ops[..done])
      invariant harmless ==> forall i :: 0 <= i < done ==> outs[i] == Answer(Effects(f, ops[..i]), ops[i])
      modifies c, c'
    {
      if careful {
        if !Gentle(c', ops[done]) {
          return;
        }
        GentleIsHarmless(c', ops[done]);
      }
      harmless := harmless && Harmless(c', ops[done]);
      EffectsMore(f, ops, done);
      var next, ok, out := Perform(c', ops[done]);
      if !ok {
        return;
      }
      c', outs, done := next, outs + [out], done + 1;
    }
    assert ops[..done] == ops;
  }

  lemma EffectsMore(f: Bytes, ops: seq<Op>, done: nat)
    requires done <= |ops|
    ensures Effects(f, ops[..0]) == f
    ensures done < |ops| ==> Effects(f, ops[..done + 1]) == Effect(Effects(f, ops[..done]), ops[done])
  {
    if done < |ops| {
      assert ops[..done + 1][..done] == ops[..done];
    }
  }

  lemma EmptyRead(f: Bytes, offset: nat, len: nat)
    ensures len == 0 && offset <= |f| ==> f[offset..offset + len] == []
  {
  }
}
