/**
 * The block loops of the user file system: each walks a file's blocks a
 * piece at a time, as ufs_write, ufs_read, ufs_extend_file and
 * ufs_reduce_file do, on the block memory of one file laid end to end.
 */
module UfsBlocks {
  import opened UfsSpec

  /** Replacing mem[pos..pos + |chunk|] leaves the slices around it as they were. */
  lemma SpliceSlices(mem: seq<byte>, pos: nat, chunk: seq<byte>, lo: nat, hi: nat)
    requires pos + |chunk| <= |mem| && lo <= pos && pos + |chunk| <= hi <= |mem|
    ensures var m := mem[..pos] + chunk + mem[pos + |chunk|..];
            |m| == |mem| && m[..lo] == mem[..lo] && m[lo..pos + |chunk|] == mem[lo..pos] + chunk &&
            m[pos + |chunk|..hi] == mem[pos + |chunk|..hi]
  {
    var m := mem[..pos] + chunk + mem[pos + |chunk|..];
    assert m[..lo] == mem[..lo];
    assert m[lo..pos + |chunk|] == mem[lo..pos] + chunk;
    assert m[pos + |chunk|..hi] == mem[pos + |chunk|..hi];
  }

  /** Blocks only grow with the bytes they hold. */
  lemma BlocksMonotone(a: nat, b: nat)
    requires a <= b
    ensures BlocksFor(a) <= BlocksFor(b)
  {
  }

  /** A block piece of w bytes from offset stays in the block of offset and ends inside the memory. */
  lemma PieceInBlock(offset: nat, w: nat, blocks: nat)
    requires offset / BlockSize < blocks && w <= BlockSize - offset % BlockSize
    ensures (offset / BlockSize) * BlockSize + offset % BlockSize == offset
    ensures offset + w <= BlockSize * blocks
    ensures (BlockSize * blocks) / BlockSize == blocks
  {
  }

  /**
   * After a piece that ends at offset + w, the end of the data (the later
   * of size and the offset) needs one more block exactly when the piece
   * ends at a boundary of the last block.
   */
  lemma PieceBlocks(size: nat, offset: nat, w: nat)
    requires 0 < w <= BlockSize - offset % BlockSize
    ensures var o := offset + w;
            (o % BlockSize == 0 ==>
               o / BlockSize == offset / BlockSize + 1 &&
               BlocksFor(Max(size, o)) ==
                 (if offset / BlockSize + 1 == BlocksFor(Max(size, offset)) then BlocksFor(Max(size, offset)) + 1
                  else BlocksFor(Max(size, offset)))) &&
            (o % BlockSize != 0 ==>
               o / BlockSize == offset / BlockSize &&
               BlocksFor(Max(size, o)) == BlocksFor(Max(size, offset)))
  {
    var q, r := offset / BlockSize, offset % BlockSize;
    assert offset == BlockSize * q + r;
    var o := offset + w;
    if o % BlockSize == 0 {
      assert o == BlockSize * (q + 1);
    } else {
      assert o < BlockSize * (q + 1);
    }
  }

  /**
   * Part way through a write of buf at off0: the bytes before off0 are the
   * old ones, the first done bytes of buf follow, then the old bytes up to
   * the old size; the memory is blocks whole blocks.
   */
  ghost predicate WriteHolds(mem0: seq<byte>, size0: nat, off0: nat, buf: seq<byte>,
                             mem: seq<byte>, done: nat, blocks: nat)
  {
    done <= |buf| && off0 + done <= |mem| && size0 <= |mem| && off0 <= |mem0| && size0 <= |mem0| &&
    |mem| == BlockSize * blocks &&
    mem[..off0] == mem0[..off0] && mem[off0..off0 + done] == buf[..done] &&
    (off0 + done < size0 ==> mem[off0 + done..size0] == mem0[off0 + done..size0])
  }

  /** Copying the next w bytes of buf at the offset keeps WriteHolds, w bytes further on. */
  lemma CopyPiece(mem0: seq<byte>, size0: nat, off0: nat, buf: seq<byte>, mem: seq<byte>, done: nat, blocks: nat, w: nat)
    requires WriteHolds(mem0, size0, off0, buf, mem, done, blocks)
    requires done + w <= |buf| && off0 + done + w <= |mem|
    ensures WriteHolds(mem0, size0, off0, buf, mem[..off0 + done] + buf[done..done + w] + mem[off0 + done + w..],
                       done + w, blocks)
  {
    var pos := off0 + done;
    var chunk := buf[done..done + w];
    var hi := if pos + w < size0 then size0 else pos + w;
    SpliceSlices(mem, pos, chunk, off0, hi);
    assert buf[..done + w] == buf[..done] + chunk;
    var m := mem[..pos] + chunk + mem[pos + w..];
    if pos + w < size0 {
      assert m[pos + w..size0] == mem[pos + w..size0];
      assert mem[pos + w..size0] == mem[pos..size0][w..];
    }
  }

  /** A zeroed block added at the end keeps WriteHolds. */
  lemma WriteAddBlock(mem0: seq<byte>, size0: nat, off0: nat, buf: seq<byte>, mem: seq<byte>, done: nat, blocks: nat)
    requires WriteHolds(mem0, size0, off0, buf, mem, done, blocks)
    ensures WriteHolds(mem0, size0, off0, buf, mem + Zeros(BlockSize), done, blocks + 1)
  {
    var m := mem + Zeros(BlockSize);
    assert m[..|mem|] == mem;
    assert m[..off0] == mem[..off0];
    assert m[off0..off0 + done] == mem[off0..off0 + done];
    if off0 + done < size0 {
      assert m[off0 + done..size0] == mem[off0 + done..size0];
    }
  }

  /** Once all of buf is copied, the data is Overwrite of the old data. */
  lemma WriteDone(mem0: seq<byte>, size0: nat, off0: nat, buf: seq<byte>, mem: seq<byte>, blocks: nat)
    requires WriteHolds(mem0, size0, off0, buf, mem, |buf|, blocks) && off0 <= size0
    ensures Max(size0, off0 + |buf|) <= |mem|
    ensures mem[..Max(size0, off0 + |buf|)] == Overwrite(mem0[..size0], off0, buf)
  {
    var offset := off0 + |buf|;
    var data := mem0[..size0];
    assert data[..off0] == mem0[..off0];
    if offset < size0 {
      assert data[offset..] == mem0[offset..size0];
      assert mem[..size0] == mem[..off0] + mem[off0..offset] + mem[offset..size0];
    } else {
      assert mem[..offset] == mem[..off0] + mem[off0..offset];
    }
  }

  /**
   * The arithmetic of one pass of ufs_write's loop: the piece stays in the
   * descriptor's block, and the block count of the data's end grows by one
   * exactly when the piece ends the last block.
   */
  lemma PieceStep(size0: nat, offset: nat, curBlock: nat, w: nat, blocks: nat)
    requires curBlock == offset / BlockSize && blocks == BlocksFor(Max(size0, offset))
    requires 0 < w <= BlockSize - offset % BlockSize
    ensures curBlock * BlockSize + offset % BlockSize == offset
    ensures offset + w <= BlockSize * blocks && (BlockSize * blocks) / BlockSize == blocks
    ensures (offset + w) % BlockSize == 0 ==>
              (offset + w) / BlockSize == curBlock + 1 &&
              BlocksFor(Max(size0, offset + w)) == (if curBlock + 1 == blocks then blocks + 1 else blocks)
    ensures (offset + w) % BlockSize != 0 ==>
              (offset + w) / BlockSize == curBlock && BlocksFor(Max(size0, offset + w)) == blocks
  {
    BlocksMonotone(offset, Max(size0, offset));
    PieceInBlock(offset, w, blocks);
    PieceBlocks(size0, offset, w);
  }

  /**
   * The copy in one pass of ufs_write's loop: as many bytes of buf as fit
   * in the descriptor's block from its offset, w of them.
   */
  method CopyInBlock(ghost mem0: seq<byte>, size0: nat, off0: nat, buf: seq<byte>,
                     mem: seq<byte>, done: nat, offset: nat, curBlock: nat)
    returns (mem': seq<byte>, w: nat)
    requires done < |buf| && offset == off0 + done && curBlock == offset / BlockSize
    requires WriteHolds(mem0, size0, off0, buf, mem, done, BlocksFor(Max(size0, offset)))
    ensures 0 < w <= BlockSize - offset % BlockSize && done + w <= |buf|
    ensures w == BlockSize - offset % BlockSize || done + w == |buf|
    ensures WriteHolds(mem0, size0, off0, buf, mem', done + w, BlocksFor(Max(size0, offset)))
  {
    var inBlock := offset % BlockSize;
    w := Min(BlockSize - inBlock, |buf| - done);
    var pos := curBlock * BlockSize + inBlock;
    ghost var blocks := BlocksFor(Max(size0, offset));
    PieceStep(size0, offset, curBlock, w, blocks);
    CopyPiece(mem0, size0, off0, buf, mem, done, blocks, w);
    mem' := mem[..pos] + buf[done..done + w] + mem[pos + w..];
  }

  /**
   * One pass of ufs_write's loop: the copy, then, when it filled the
   * block, the move to the next block, adding a zeroed one when there is
   * none.
   */
  method WritePiece(ghost mem0: seq<byte>, size0: nat, off0: nat, buf: seq<byte>,
                    mem: seq<byte>, done: nat, offset: nat, curBlock: nat)
    returns (mem': seq<byte>, done': nat, offset': nat, curBlock': nat)
    requires done < |buf| && offset == off0 + done && curBlock == offset / BlockSize
    requires WriteHolds(mem0, size0, off0, buf, mem, done, BlocksFor(Max(size0, offset)))
    ensures done < done' && offset' == off0 + done' && curBlock' == offset' / BlockSize
    ensures WriteHolds(mem0, size0, off0, buf, mem', done', BlocksFor(Max(size0, offset')))
  {
    var w;
    mem', w := CopyInBlock(mem0, size0, off0, buf, mem, done, offset, curBlock);
    ghost var blocks := BlocksFor(Max(size0, offset));
    PieceStep(size0, offset, curBlock, w, blocks);
    done' := done + w;
    offset' := offset + w;
    curBlock' := curBlock;
    if offset' % BlockSize == 0 {
      if curBlock + 1 == |mem'| / BlockSize {
        WriteAddBlock(mem0, size0, off0, buf, mem', done', blocks);
        mem' := mem' + Zeros(BlockSize);
      }
      curBlock' := curBlock + 1;
    }
  }

  /**
   * The loop of ufs_write: copies buf a block piece at a time from the
   * descriptor's offset.  The file's bytes become Overwrite of its old
   * bytes, and the descriptor ends in the block of its new offset.
   */
  method WriteBlocks(mem0: seq<byte>, size0: nat, off0: nat, block0: nat, buf: seq<byte>)
    returns (mem: seq<byte>, offset: nat, curBlock: nat)
    requires |mem0| == BlockSize * BlocksFor(size0) && off0 <= size0 && block0 == off0 / BlockSize
    ensures offset == off0 + |buf| && curBlock == offset / BlockSize
    ensures |mem| == BlockSize * BlocksFor(Max(size0, offset))
    ensures mem[..Max(size0, offset)] == Overwrite(mem0[..size0], off0, buf)
  {
    mem, offset, curBlock := mem0, off0, block0;
    var done := 0;
    while done < |buf|
      invariant offset == off0 + done && curBlock == offset / BlockSize
      invariant WriteHolds(mem0, size0, off0, buf, mem, done, BlocksFor(Max(size0, offset)))
      decreases |buf| - done
    {
      mem, done, offset, curBlock := WritePiece(mem0, size0, off0, buf, mem, done, offset, curBlock);
    }
    WriteDone(mem0, size0, off0, buf, mem, BlocksFor(Max(size0, offset)));
  }

  /** The arithmetic of one piece of the read loop. */
  lemma ReadPieceFacts(offset: nat, size: nat, remaining: nat, curBlock: nat, w: nat)
    requires offset < size && remaining > 0 && curBlock == offset / BlockSize
    requires w == Min(Min(size - offset, BlockSize - offset % BlockSize), remaining)
    ensures 0 < w && offset + w <= size && curBlock * BlockSize + offset % BlockSize == offset
    ensures (offset + w) % BlockSize == 0 ==> (offset + w) / BlockSize == curBlock + 1
    ensures (offset + w) % BlockSize != 0 ==> (offset + w) / BlockSize == curBlock && (w == remaining || offset + w == size)
  {
  }

  /**
   * One pass of ufs_read's loop: copies from the descriptor's block as much
   * as is left in the block, in the file and in the request, and moves to
   * the next block when the offset reaches a boundary.
   */
  method ReadPiece(mem: seq<byte>, size: nat, offset: nat, curBlock: nat, remaining: nat)
    returns (chunk: seq<byte>, offset': nat, curBlock': nat, remaining': nat)
    requires |mem| == BlockSize * BlocksFor(size) && offset < size && remaining > 0 && curBlock == offset / BlockSize
    ensures offset < offset' <= size && chunk == mem[offset..offset'] && |chunk| + remaining' == remaining
    ensures curBlock' == offset' / BlockSize
    ensures offset' % BlockSize != 0 ==> remaining' == 0 || offset' == size
  {
    var inBlock := offset % BlockSize;
    var remainingInBlock := BlockSize - inBlock;
    var unread := size - offset;
    var w: nat := if unread < remainingInBlock then unread else remainingInBlock;
    if w > remaining {
      w := remaining;
    }
    ReadPieceFacts(offset, size, remaining, curBlock, w);
    var pos := curBlock * BlockSize + inBlock;
    chunk := mem[pos..pos + w];
    remaining' := remaining - w;
    offset' := offset + w;
    curBlock' := curBlock;
    if offset' % BlockSize == 0 {
      curBlock' := curBlock + 1;
    }
  }

  /**
   * The loop of ufs_read, with the block moved on at every boundary the
   * offset reaches (as ReadCursor does): reads a block piece at a time
   * until size bytes are read or the file ends.
   */
  method ReadBlocks(mem: seq<byte>, size: nat, off0: nat, block0: nat, n: nat)
    returns (out: seq<byte>, offset: nat, curBlock: nat)
    requires |mem| == BlockSize * BlocksFor(size) && off0 < size && block0 == off0 / BlockSize
    ensures out == ReadSpan(mem[..size], off0, n)
    ensures offset == off0 + |out| && curBlock == offset / BlockSize
  {
    out, offset, curBlock := [], off0, block0;
    var remaining: nat := n;
    while remaining > 0 && offset < size
      invariant off0 <= offset <= size && curBlock == offset / BlockSize
      invariant offset == off0 + |out| && |out| + remaining == n
      invariant out == mem[off0..offset]
      decreases remaining
    {
      var chunk;
      ghost var before := offset;
      chunk, offset, curBlock, remaining := ReadPiece(mem, size, offset, curBlock, remaining);
      assert mem[off0..offset] == mem[off0..before] + chunk;
      out := out + chunk;
      if offset >= size {
        break;
      }
      if offset % BlockSize != 0 {
        break;
      }
    }
    assert mem[..size][off0..offset] == mem[off0..offset];
  }

  /** Part way through an extension: the old bytes, then zeros up to size, in blocks whole blocks. */
  ghost predicate ExtendHolds(mem0: seq<byte>, size0: nat, mem: seq<byte>, size: nat, blocks: nat) {
    size0 <= size <= |mem| && size0 <= |mem0| && |mem| == BlockSize * blocks &&
    mem[..size] == mem0[..size0] + Zeros(size - size0)
  }

  /** Zeroing the next w bytes keeps ExtendHolds, w bytes further on. */
  lemma ZeroPiece(mem0: seq<byte>, size0: nat, mem: seq<byte>, size: nat, blocks: nat, w: nat)
    requires ExtendHolds(mem0, size0, mem, size, blocks) && size + w <= |mem|
    ensures ExtendHolds(mem0, size0, mem[..size] + Zeros(w) + mem[size + w..], size + w, blocks)
  {
    var m := mem[..size] + Zeros(w) + mem[size + w..];
    assert m[..size + w] == mem[..size] + Zeros(w);
    assert Zeros(size + w - size0) == Zeros(size - size0) + Zeros(w);
  }

  /** A zeroed block added at the end keeps ExtendHolds. */
  lemma ExtendAddBlock(mem0: seq<byte>, size0: nat, mem: seq<byte>, size: nat, blocks: nat)
    requires ExtendHolds(mem0, size0, mem, size, blocks)
    ensures ExtendHolds(mem0, size0, mem + Zeros(BlockSize), size, blocks + 1)
  {
    assert (mem + Zeros(BlockSize))[..size] == mem[..size];
  }

  /**
   * The loop of ufs_extend_file: zero-fills the last block from the end of
   * the file, adding a block at each boundary, until the file holds
   * newSize bytes.
   */
  method ExtendBlocks(mem0: seq<byte>, size0: nat, newSize: nat) returns (mem: seq<byte>)
    requires |mem0| == BlockSize * BlocksFor(size0) && size0 <= newSize
    ensures |mem| == BlockSize * BlocksFor(newSize)
    ensures mem[..newSize] == mem0[..size0] + Zeros(newSize - size0)
  {
    mem := mem0;
    var size := size0;
    var need := newSize - size0;
    while need != 0
      invariant size0 <= size <= newSize && need == newSize - size
      invariant ExtendHolds(mem0, size0, mem, size, BlocksFor(size))
      decreases need
    {
      var inBlock := size % BlockSize;
      var available := BlockSize - inBlock;
      var w := need;
      if available < w {
        w := available;
      }
      var blocks := BlocksFor(size);
      var pos := (|mem| / BlockSize - 1) * BlockSize + inBlock;
      PieceInBlock(size, w, blocks);
      PieceBlocks(size, size, w);
      ZeroPiece(mem0, size0, mem, size, blocks, w);
      mem := mem[..pos] + Zeros(w) + mem[pos + w..];
      need := need - w;
      size := size + w;
      if size % BlockSize == 0 {
        ExtendAddBlock(mem0, size0, mem, size, blocks);
        mem := mem + Zeros(BlockSize);
      }
    }
  }

  /** Cutting memory to a length that still holds the first size' bytes keeps them. */
  lemma KeepPrefix(mem0: seq<byte>, mem: seq<byte>, size: nat, size': nat, len: nat)
    requires size <= |mem| && size <= |mem0| && mem[..size] == mem0[..size] && size' <= size && size' <= len <= |mem|
    ensures mem[..len][..size'] == mem0[..size']
  {
    assert mem[..len][..size'] == mem[..size][..size'];
  }

  /** Taking t bytes, at most a block, off the end moves the end back by at most one block. */
  lemma ReduceArith(size: nat, t: nat)
    requires 0 < t <= BlockSize && t <= size
    ensures (size - t) / BlockSize == size / BlockSize || (size - t) / BlockSize == size / BlockSize - 1
  {
  }

  /**
   * The loop of ufs_reduce_file: takes bytes off the end, a block piece at
   * a time, freeing the last block whenever the file no longer reaches it.
   */
  method ReduceBlocks(mem0: seq<byte>, size0: nat, newSize: nat) returns (mem: seq<byte>)
    requires |mem0| == BlockSize * BlocksFor(size0) && newSize <= size0
    ensures |mem| == BlockSize * BlocksFor(newSize)
    ensures mem[..newSize] == mem0[..newSize]
  {
    mem := mem0;
    var size := size0;
    var need := size0 - newSize;
    while need != 0
      invariant newSize <= size <= size0 && need == size - newSize
      invariant |mem| == BlockSize * BlocksFor(size) && mem[..size] == mem0[..size]
      decreases need
    {
      var toReduce := size % BlockSize;
      if (toReduce == 0 && need < BlockSize) || need < toReduce {
        toReduce := need;
      }
      if toReduce == 0 {
        KeepPrefix(mem0, mem, size, size - BlockSize, |mem| - BlockSize);
        mem := mem[..|mem| - BlockSize];
        size := size - BlockSize;
        need := need - BlockSize;
      } else {
        var fullBlocksBefore := size / BlockSize;
        ReduceArith(size, toReduce);
        if (size - toReduce) / BlockSize < fullBlocksBefore {
          KeepPrefix(mem0, mem, size, size - toReduce, |mem| - BlockSize);
        } else {
          KeepPrefix(mem0, mem, size, size - toReduce, |mem|);
        }
        size := size - toReduce;
        need := need - toReduce;
        if size / BlockSize < fullBlocksBefore {
          mem := mem[..|mem| - BlockSize];
        }
      }
    }
  }
}
