/** Main results about files and blocks: ownership of blocks is conserved by every operation,
    and files behave as byte sequences. */
module FileTheorems {
  import opened Words
  import opened Bitmap
  import opened FileBlocks

  // ---- reading and writing ------------------------------------------------------------------

  lemma KeepsTwice(v: Vol, v1: Vol, v2: Vol, ino: nat, lo: nat, hi: nat, lo': nat, hi': nat)
    requires KeepsBytes(v, v1, ino, lo, hi) && KeepsBytes(v1, v2, ino, lo', hi')
    ensures forall l: nat, h: nat :: (lo < hi ==> l <= lo && hi <= h) && (lo' < hi' ==> l <= lo' && hi' <= h) ==>
              KeepsBytes(v, v2, ino, l, h)
  {
  }

  /** What file_write's loop does: every byte that existed outside the range is kept, in this
      and all other files, whether it succeeds or runs out of space; on success the range holds
      exactly the buffer. */
  lemma {:induction false} WriteFromEffect(v: Vol, ino: nat, buf: seq<bv8>, pos: nat, reserved: set<nat>)
    requires Owned(v, reserved) && ino < |v.nodes| && pos + |buf| <= MAXFILE
    ensures var (v', r) := WriteFrom(v, ino, buf, pos);
            && Owned(v', reserved) && SameSizes(v, v') && KeepsBytes(v, v', ino, pos, pos + |buf|)
            && (r.Ok? ==> forall i: nat :: pos <= i < pos + |buf| ==> FileByte(v', ino, i) == Some(buf[i - pos]))
    decreases |buf|
  {
    hide Owned, GetBlock, KeepsBytes, WriteFrom, PatchBlock, FileByte, SameSizes;
    OwnedIsShaped(v, reserved);
    if buf == [] {
      KeepsSelf(v, ino, pos, pos + |buf|, reserved);
      WriteNothing(v, ino, pos);
    } else {
      GetBlockKeeps(v, ino, pos / BLKSIZE % U16, reserved);
      var (v1, got) := GetBlock(v, ino, pos / BLKSIZE % U16);
      WriteStep(v, ino, buf, pos);
      KeepsWider(v, v1, ino, pos, pos + |buf|);
      if got.Ok? {
        var n := Piece(pos, pos + |buf|);
        assert pos / BLKSIZE % U16 == pos / BLKSIZE;
        var v2 := WritePiece(v, v1, got.value, ino, buf, pos, reserved);
        OwnedIsShaped(v2, reserved);
        WriteFromEffect(v2, ino, buf[n..], pos + n, reserved);
        var (v3, r) := WriteFrom(v2, ino, buf[n..], pos + n);
        WriteJoin(v, v2, v3, ino, buf, pos, n, r.Ok?);
      }
    }
  }

  lemma WriteNothing(v: Vol, ino: nat, pos: nat)
    requires Shaped(v) && ino < |v.nodes|
    ensures WriteFrom(v, ino, [], pos) == (v, Ok(())) && SameSizes(v, v)
  {
  }

  lemma WriteStep(v: Vol, ino: nat, buf: seq<bv8>, pos: nat)
    requires Shaped(v) && ino < |v.nodes| && buf != []
    ensures var (v1, got) := GetBlock(v, ino, pos / BLKSIZE % U16);
            var n := Piece(pos, pos + |buf|);
            && (got.Err? ==> WriteFrom(v, ino, buf, pos) == (v1, Err(got.error)))
            && (got.Ok? ==>
                  WriteFrom(v, ino, buf, pos) ==
                  WriteFrom(PatchBlock(v1, got.value, pos % BLKSIZE, buf[..n]), ino, buf[n..], pos + n))
  {
  }

  lemma OwnedIsShaped(v: Vol, reserved: set<nat>)
    requires Owned(v, reserved)
    ensures Shaped(v)
  {
  }

  lemma KeepsSelf(v: Vol, ino: nat, lo: nat, hi: nat, reserved: set<nat>)
    requires Owned(v, reserved)
    ensures KeepsBytes(v, v, ino, lo, hi)
  {
  }

  lemma KeepsWider(v: Vol, v': Vol, ino: nat, lo: nat, hi: nat)
    requires KeepsBytes(v, v', ino, 0, 0)
    ensures KeepsBytes(v, v', ino, lo, hi)
  {
  }

  lemma WritePiece(v: Vol, v1: Vol, b: nat, ino: nat, buf: seq<bv8>, pos: nat, reserved: set<nat>) returns (v2: Vol)
    requires Owned(v, reserved) && Owned(v1, reserved) && KeepsBytes(v, v1, ino, 0, 0) && SameSizes(v, v1)
    requires ino < |v.nodes| && 0 < |buf| && pos + |buf| <= MAXFILE && Owns(v1, Slot(ino, pos / BLKSIZE), b)
    ensures v2 == PatchBlock(v1, b, pos % BLKSIZE, buf[..Piece(pos, pos + |buf|)])
    ensures var n := Piece(pos, pos + |buf|);
            && Owned(v2, reserved) && SameSizes(v, v2) && KeepsBytes(v, v2, ino, pos, pos + n)
            && (forall i: nat :: pos <= i < pos + n ==> FileByte(v2, ino, i) == Some(buf[i - pos]))
  {
    hide Owned;
    var n := Piece(pos, pos + |buf|);
    assert pos == pos / BLKSIZE * BLKSIZE + pos % BLKSIZE;
    PatchKeeps(v1, ino, pos / BLKSIZE, b, pos % BLKSIZE, buf[..n], reserved);
    v2 := PatchBlock(v1, b, pos % BLKSIZE, buf[..n]);
    KeepsTwice(v, v1, v2, ino, 0, 0, pos, pos + n);
  }

  lemma WriteJoin(v: Vol, v2: Vol, v3: Vol, ino: nat, buf: seq<bv8>, pos: nat, n: nat, ok: bool)
    requires 0 < n <= |buf| && pos + |buf| <= MAXFILE && ino < |v.nodes|
    requires KeepsBytes(v, v2, ino, pos, pos + n) && KeepsBytes(v2, v3, ino, pos + n, pos + |buf|)
    requires SameSizes(v, v2) && SameSizes(v2, v3)
    requires forall i: nat :: pos <= i < pos + n ==> FileByte(v2, ino, i) == Some(buf[i - pos])
    requires ok ==> forall i: nat :: pos + n <= i < pos + |buf| ==> FileByte(v3, ino, i) == Some(buf[n..][i - (pos + n)])
    ensures KeepsBytes(v, v3, ino, pos, pos + |buf|) && SameSizes(v, v3)
    ensures ok ==> forall i: nat :: pos <= i < pos + |buf| ==> FileByte(v3, ino, i) == Some(buf[i - pos])
  {
    KeepsTwice(v, v2, v3, ino, pos, pos + n, pos + n, pos + |buf|);
  }

  /** file_read's loop returns the file's bytes; it may allocate blocks for holes but keeps every
      byte that existed. */
  lemma {:induction false} ReadFromEffect(v: Vol, ino: nat, pos: nat, end: nat, reserved: set<nat>)
    requires Owned(v, reserved) && ino < |v.nodes| && pos <= end <= MAXFILE
    ensures var (v', r) := ReadFrom(v, ino, pos, end);
            && Owned(v', reserved) && SameSizes(v, v') && KeepsBytes(v, v', ino, 0, 0)
            && (r.Ok? ==> |r.value| == end - pos)
            && (r.Ok? ==> forall i: nat :: pos <= i < end ==> FileByte(v', ino, i) == Some(r.value[i - pos]))
    decreases end - pos
  {
    hide Owned, GetBlock, KeepsBytes, FileByte, SameSizes, ReadFrom;
    OwnedIsShaped(v, reserved);
    ReadUnfold(v, ino, pos, end);
    if pos == end {
      KeepsSelf(v, ino, 0, 0, reserved);
      SameSizesSelf(v);
    } else {
      GetBlockKeeps(v, ino, pos / BLKSIZE % U16, reserved);
      var (v1, got) := GetBlock(v, ino, pos / BLKSIZE % U16);
      if got.Ok? {
        var n := Piece(pos, end);
        assert pos / BLKSIZE % U16 == pos / BLKSIZE;
        ReadFromEffect(v1, ino, pos + n, end, reserved);
        var (v2, rest) := ReadFrom(v1, ino, pos + n, end);
        KeepsTwice(v, v1, v2, ino, 0, 0, 0, 0);
        SameSizesTwice(v, v1, v2);
        ReadPiece(v1, v2, got.value, ino, pos, n, reserved);
      }
    }
  }

  lemma ReadUnfold(v: Vol, ino: nat, pos: nat, end: nat)
    requires Shaped(v) && ino < |v.nodes|
    ensures if pos >= end then ReadFrom(v, ino, pos, end) == (v, Ok([]))
            else
              var (v1, got) := GetBlock(v, ino, pos / BLKSIZE % U16);
              var n, o := Piece(pos, end), pos % BLKSIZE;
              if got.Err? then ReadFrom(v, ino, pos, end) == (v1, Err(got.error))
              else
                var (v2, rest) := ReadFrom(v1, ino, pos + n, end);
                ReadFrom(v, ino, pos, end) ==
                  (v2, if rest.Ok? then Ok(v1.data[got.value][o..o + n] + rest.value) else Err(rest.error))
  {
  }

  lemma SameSizesSelf(v: Vol)
    ensures SameSizes(v, v)
  {
  }

  lemma SameSizesTwice(v: Vol, v1: Vol, v2: Vol)
    requires SameSizes(v, v1) && SameSizes(v1, v2)
    ensures SameSizes(v, v2)
  {
  }

  lemma ReadPiece(v1: Vol, v2: Vol, b: nat, ino: nat, pos: nat, n: nat, reserved: set<nat>)
    requires Owned(v1, reserved) && KeepsBytes(v1, v2, ino, 0, 0) && ino < |v1.nodes|
    requires pos + n <= MAXFILE && 0 < n && pos % BLKSIZE + n <= BLKSIZE && Owns(v1, Slot(ino, pos / BLKSIZE), b)
    ensures forall i: nat :: pos <= i < pos + n ==>
              FileByte(v2, ino, i) == Some(v1.data[b][pos % BLKSIZE..pos % BLKSIZE + n][i - pos])
  {
    forall i: nat | pos <= i < pos + n
      ensures FileByte(v1, ino, i) == Some(v1.data[b][pos % BLKSIZE + (i - pos)])
    {
      assert i / BLKSIZE == pos / BLKSIZE && i % BLKSIZE == pos % BLKSIZE + (i - pos);
    }
  }

  // ---- resizing -------------------------------------------------------------------------------

  /** Truncation gives back exactly the blocks of slots lo up to hi. */
  lemma {:induction false} FreeBlocksOwned(v: Vol, ino: nat, lo: nat, hi: nat, reserved: set<nat>)
    requires Owned(v, reserved) && ino < |v.nodes|
    ensures var v' := FreeBlocks(v, ino, lo, hi);
            && Owned(v', reserved) && v'.data == v.data
            && (forall s, b :: Owns(v', s, b) <==> Owns(v, s, b) && !(s.ino == ino && lo <= s.idx < hi))
            && SameSizes(v, v')
    decreases hi - lo
  {
    if lo < hi {
      FreeBlockOwned(v, ino, lo, reserved);
      var v1 := FreeBlock(v, ino, lo);
      assert SameSizes(v, v1);
      hide FreeBlock, Owned;
      FreeBlocksOwned(v1, ino, lo + 1, hi, reserved);
    }
  }

  lemma ResizeOwned(v: Vol, ino: nat, node: Inode, reserved: set<nat>)
    requires Owned(v, reserved) && ino < |v.nodes| && node.blkInd == v.nodes[ino].blkInd
    ensures var v' := SetNode(v, ino, node);
            Owned(v', reserved) && KeepsBytes(v, v', ino, 0, 0) && forall s, b :: Owns(v', s, b) <==> Owns(v, s, b)
  {
    var v' := SetNode(v, ino, node);
    assert forall s, b :: Owns(v', s, b) <==> Owns(v, s, b);
  }

  /** file_set_size: the file keeps its blocks below the new size, gives back those above it up
      to its old size, and no other file is touched. */
  lemma SetSizeOwned(v: Vol, ino: nat, newsize: nat, reserved: set<nat>)
    requires Owned(v, reserved) && ino < |v.nodes| && v.nodes[ino].size < U16
    ensures var v' := SetSize(v, ino, newsize);
            && Owned(v', reserved) && v'.data == v.data && v'.nodes[ino].size == newsize % U16
            && (forall s, b :: Owns(v', s, b) <==>
                  Owns(v, s, b) && !(s.ino == ino && Blocks(newsize) <= s.idx < Blocks(v.nodes[ino].size)))
            && (newsize >= v.nodes[ino].size ==> KeepsBytes(v, v', ino, 0, 0))
  {
    hide FreeBlocks, Owned, KeepsBytes, Blocks;
    OwnedIsShaped(v, reserved);
    var size := v.nodes[ino].size;
    BlocksSmall(newsize, size);
    var v1 := if size > newsize then FreeBlocks(v, ino, Blocks(newsize), Blocks(size)) else v;
    if size > newsize {
      FreeBlocksOwned(v, ino, Blocks(newsize), Blocks(size), reserved);
    }
    ResizeOwned(v1, ino, v1.nodes[ino].(size := newsize % U16), reserved);
  }

  lemma BlocksSmall(a: nat, b: nat)
    requires b < U16
    ensures a < b ==> Blocks(a) % U16 == Blocks(a)
    ensures Blocks(b) % U16 == Blocks(b)
    ensures a >= b ==> Blocks(a) >= Blocks(b)
  {
  }

  /** The number of blocks that a size needs: the least that hold it. */
  lemma BlocksHold(size: nat)
    ensures size <= Blocks(size) * BLKSIZE < size + BLKSIZE
  {
  }

  /** Shrinking a file keeps every byte below the new size, and gives back every block that begins at
      or after it and before the old size; growing gives back nothing. */
  lemma ShrinkKeepsBytes(v: Vol, ino: nat, newsize: nat, i: nat, reserved: set<nat>)
    requires Owned(v, reserved) && ino < |v.nodes| && v.nodes[ino].size < U16 && i < MAXFILE
    ensures var v' := SetSize(v, ino, newsize);
            var start := i - i % BLKSIZE;
            FileByte(v', ino, i) ==
              if newsize <= start < v.nodes[ino].size then Option.None else FileByte(v, ino, i)
  {
    hide SetSize, Owned, FreeBlocks;
    OwnedIsShaped(v, reserved);
    SetSizeOwned(v, ino, newsize, reserved);
    var v' := SetSize(v, ino, newsize);
    OwnedIsShaped(v', reserved);
    var idx := i / BLKSIZE;
    BlockAtOrAfter(newsize, i);
    BlockAtOrAfter(v.nodes[ino].size, i);
    var s := Slot(ino, idx);
    assert Owns(v, s, v.nodes[ino].blkInd[idx]) <==> v.nodes[ino].blkInd[idx] != 0;
    assert Owns(v', s, v'.nodes[ino].blkInd[idx]) <==> v'.nodes[ino].blkInd[idx] != 0;
    assert Owns(v', s, v.nodes[ino].blkInd[idx]) <==>
           (v.nodes[ino].blkInd[idx] != 0 && !(Blocks(newsize) <= idx < Blocks(v.nodes[ino].size)));
  }

  lemma BlockAtOrAfter(size: nat, i: nat)
    ensures Blocks(size) <= i / BLKSIZE <==> size <= i - i % BLKSIZE
  {
  }

  /** Which error a block request ends in: -E_INVAL exactly past the thirteenth slot, -E_NO_DISK exactly
      when the slot is empty and every block of the disk is in use. */
  lemma GetBlockErrors(v: Vol, ino: nat, idx: nat)
    requires Shaped(v) && ino < |v.nodes|
    ensures GetBlock(v, ino, idx).1 == Err(Inval) <==> idx >= NDIRECT
    ensures GetBlock(v, ino, idx).1 == Err(NoDisk) <==>
            idx < NDIRECT && v.nodes[ino].blkInd[idx] == 0 && forall b :: 0 <= b < v.blkNum ==> InUse(v.ocp, b)
  {
    hide InUse, Mark;
  }

  // ---- whole operations ---------------------------------------------------------------------------

  /** file_write of a range inside the largest file. */
  lemma FileWriteCorrect(v: Vol, ino: nat, buf: seq<bv8>, off: nat, reserved: set<nat>)
    requires Owned(v, reserved) && ino < |v.nodes| && off + |buf| <= MAXFILE && v.nodes[ino].size < U16
    ensures var (v', r) := FileWrite(v, ino, buf, off);
            && Owned(v', reserved) && KeepsBytes(v, v', ino, off, off + |buf|) && |v'.nodes| == |v.nodes|
            && v'.nodes[ino].size == (if off + |buf| > v.nodes[ino].size then off + |buf| else v.nodes[ino].size)
            && (r.Ok? ==> r.value == |buf|)
            && (r.Ok? ==> forall i: nat :: off <= i < off + |buf| ==> FileByte(v', ino, i) == Some(buf[i - off]))
  {
    hide Owned, KeepsBytes, SetSize, WriteFrom;
    OwnedIsShaped(v, reserved);
    var end := off + |buf|;
    var v1 := if end > v.nodes[ino].size then SetSize(v, ino, end) else v;
    if end > v.nodes[ino].size {
      SetSizeOwned(v, ino, end, reserved);
    } else {
      KeepsSelf(v, ino, 0, 0, reserved);
    }
    WriteFromEffect(v1, ino, buf, off, reserved);
    KeepsTwice(v, v1, WriteFrom(v1, ino, buf, off).0, ino, 0, 0, off, end);
  }

  /** file_read of any range, cut at the end of the file, inside the largest file: it answers no byte at
      or past the end, and otherwise exactly the bytes of the file there, as many as were asked for or
      as there are; and it keeps ownership, sizes and all bytes that exist. */
  lemma FileReadCorrect(v: Vol, ino: nat, count: nat, off: nat, reserved: set<nat>)
    requires Owned(v, reserved) && ino < |v.nodes|
    requires var size := v.nodes[ino].size;
             off >= size || off + count <= MAXFILE || size <= MAXFILE
    ensures var size := v.nodes[ino].size;
            var (v', r) := FileRead(v, ino, count, off);
            && Owned(v', reserved) && SameSizes(v, v') && KeepsBytes(v, v', ino, 0, 0)
            && (r.Ok? ==> |r.value| == if off >= size then 0 else if count < size - off then count else size - off)
            && (r.Ok? ==> forall i: nat :: i < |r.value| ==>
                  off + i < MAXFILE && FileByte(v', ino, off + i) == Some(r.value[i]))
  {
    hide Owned, KeepsBytes, ReadFrom, FileByte;
    OwnedIsShaped(v, reserved);
    var size := v.nodes[ino].size;
    if off >= size {
      KeepsSelf(v, ino, 0, 0, reserved);
    } else {
      var end := off + Min(count, size - off);
      ReadFromEffect(v, ino, off, end, reserved);
      var (v', r) := ReadFrom(v, ino, off, end);
      OwnedIsShaped(v', reserved);
      if r.Ok? {
        forall i: nat | i < |r.value|
          ensures off + i < MAXFILE && FileByte(v', ino, off + i) == Some(r.value[i])
        {
          assert off <= off + i < end;
        }
      }
    }
  }

  /** Reading a range whose blocks all exist changes nothing. */
  lemma {:induction false} ReadAllocated(v: Vol, ino: nat, pos: nat, end: nat)
    requires Shaped(v) && ino < |v.nodes| && pos <= end <= MAXFILE
    requires forall i: nat :: pos <= i < end ==> FileByte(v, ino, i).Some?
    ensures ReadFrom(v, ino, pos, end).0 == v && ReadFrom(v, ino, pos, end).1.Ok?
    decreases end - pos
  {
    if pos < end {
      assert FileByte(v, ino, pos).Some?;
      assert pos / BLKSIZE % U16 == pos / BLKSIZE < NDIRECT;
      ReadAllocated(v, ino, pos + Piece(pos, end), end);
    }
  }

  /** A successful write reads back, without changing the volume. */
  lemma WriteThenRead(v: Vol, ino: nat, buf: seq<bv8>, off: nat, reserved: set<nat>)
    requires Owned(v, reserved) && ino < |v.nodes| && off + |buf| <= MAXFILE && v.nodes[ino].size < U16
    requires FileWrite(v, ino, buf, off).1.Ok?
    ensures var v' := FileWrite(v, ino, buf, off).0;
            Shaped(v') && ino < |v'.nodes| && FileRead(v', ino, |buf|, off) == (v', Ok(buf))
  {
    hide FileWrite, Owned, ReadFrom, FileByte, KeepsBytes;
    OwnedIsShaped(v, reserved);
    FileWriteCorrect(v, ino, buf, off, reserved);
    var v' := FileWrite(v, ino, buf, off).0;
    OwnedIsShaped(v', reserved);
    if off < v'.nodes[ino].size {
      ReadAllocated(v', ino, off, off + |buf|);
      ReadFromEffect(v', ino, off, off + |buf|, reserved);
      var got := ReadFrom(v', ino, off, off + |buf|).1.value;
      forall k | 0 <= k < |buf|
        ensures got[k] == buf[k]
      {
        assert FileByte(v', ino, off + k) == Some(buf[off + k - off]);
        assert FileByte(v', ino, off + k) == Some(got[off + k - off]);
      }
      assert got == buf;
    } else {
      assert buf == [];
    }
  }

  /** A write that reaches past the thirteenth block fails, unless it starts at 2^28 or above,
      where the 16-bit block index wraps round. */
  lemma {:induction false} WriteTooFar(v: Vol, ino: nat, buf: seq<bv8>, pos: nat)
    requires Shaped(v) && ino < |v.nodes| && buf != [] && pos + |buf| > MAXFILE && pos < U16 * BLKSIZE
    ensures WriteFrom(v, ino, buf, pos).1.Err?
    decreases |buf|
  {
    assert pos / BLKSIZE % U16 == pos / BLKSIZE;
    var (v1, got) := GetBlock(v, ino, pos / BLKSIZE);
    if got.Ok? {
      var n := Piece(pos, pos + |buf|);
      WriteTooFar(PatchBlock(v1, got.value, pos % BLKSIZE, buf[..n]), ino, buf[n..], pos + n);
    }
  }

  /** Exactly which successful writes can be read back. */
  lemma WriteReadsBackIff(v: Vol, ino: nat, buf: seq<bv8>, off: nat, reserved: set<nat>)
    requires Owned(v, reserved) && ino < |v.nodes| && buf != [] && v.nodes[ino].size < U16
    requires FileWrite(v, ino, buf, off).1.Ok?
    ensures var v' := FileWrite(v, ino, buf, off).0;
            && Shaped(v') && ino < |v'.nodes|
            && (FileRead(v', ino, |buf|, off).1 == Ok(buf) <==> off + |buf| <= MAXFILE)
  {
    if off + |buf| <= MAXFILE {
      WriteThenRead(v, ino, buf, off, reserved);
    } else {
      var v1 := if off + |buf| > v.nodes[ino].size then SetSize(v, ino, off + |buf|) else v;
      assert off >= U16 * BLKSIZE by {
        if off < U16 * BLKSIZE {
          WriteTooFar(v1, ino, buf, off);
        }
      }
      WriteFromSizes(v1, ino, buf, off);
    }
  }

  /** The failing input: one byte written at offset 2^28 of any file that has its first block, or for
      which there is a free one. The write succeeds, the byte lands at offset 0, and reading at the
      offset of the write finds nothing. */
  lemma WriteGoesRound(v: Vol, ino: nat, b: bv8, reserved: set<nat>)
    requires Owned(v, reserved) && ino < |v.nodes| && v.nodes[ino].size < U16
    requires v.nodes[ino].blkInd[0] != 0 || FirstFree(v.ocp, 0, v.blkNum) < v.blkNum
    ensures var off := U16 * BLKSIZE;
            var (v', r) := FileWrite(v, ino, [b], off);
            && r == Ok(1) && Shaped(v') && ino < |v'.nodes| && FileByte(v', ino, 0) == Some(b)
            && FileRead(v', ino, 1, off) == (v', Ok([]))
  {
    hide Owned, SetSize, GetBlock, PatchBlock, FileByte, KeepsBytes, SameSizes, FirstFree, WriteFrom;
    OwnedIsShaped(v, reserved);
    var off: nat := U16 * BLKSIZE;
    var v1 := SetSize(v, ino, off + 1);
    SetSizeOwned(v, ino, off + 1, reserved);
    OwnedIsShaped(v1, reserved);
    GrowKeepsBlocks(v, ino, off + 1);
    GetBlockKeeps(v1, ino, 0, reserved);
    FirstSlot(v1, ino);
    var (v2, got) := GetBlock(v1, ino, 0);
    assert off / BLKSIZE % U16 == 0 && off % BLKSIZE == 0 && Piece(off, off + 1) == 1;
    WriteStep(v1, ino, [b], off);
    var bytes: seq<bv8> := [b];
    assert bytes[..1] == bytes && bytes[1..] == [];
    PatchKeeps(v2, ino, 0, got.value, 0, bytes, reserved);
    var v3 := PatchBlock(v2, got.value, 0, bytes);
    OwnedIsShaped(v3, reserved);
    WriteNothing(v3, ino, off + 1);
    SizeKept(v1, v2, v3, ino);
  }

  lemma SizeKept(v1: Vol, v2: Vol, v3: Vol, ino: nat)
    requires SameSizes(v1, v2) && SameSizes(v2, v3) && ino < |v1.nodes|
    ensures |v3.nodes| == |v1.nodes| && v3.nodes[ino].size == v1.nodes[ino].size
  {
  }

  lemma GrowKeepsBlocks(v: Vol, ino: nat, newsize: nat)
    requires Shaped(v) && ino < |v.nodes| && v.nodes[ino].size <= newsize
    ensures var v' := SetSize(v, ino, newsize);
            v'.ocp == v.ocp && v'.blkNum == v.blkNum && |v'.nodes| == |v.nodes| && v'.nodes[ino].blkInd == v.nodes[ino].blkInd
  {
  }

  lemma FirstSlot(v: Vol, ino: nat)
    requires Shaped(v) && ino < |v.nodes|
    ensures GetBlock(v, ino, 0).1.Ok? <==> v.nodes[ino].blkInd[0] != 0 || FirstFree(v.ocp, 0, v.blkNum) < v.blkNum
  {
  }

  lemma {:induction false} WriteFromSizes(v: Vol, ino: nat, buf: seq<bv8>, pos: nat)
    requires Shaped(v) && ino < |v.nodes|
    ensures SameSizes(v, WriteFrom(v, ino, buf, pos).0)
    decreases |buf|
  {
    if buf != [] {
      var (v1, got) := GetBlock(v, ino, pos / BLKSIZE % U16);
      if got.Ok? {
        var n := Piece(pos, pos + |buf|);
        WriteFromSizes(PatchBlock(v1, got.value, pos % BLKSIZE, buf[..n]), ino, buf[n..], pos + n);
      }
    }
  }

  // ---- ownership at any offset ------------------------------------------------------------------------

  lemma {:induction false} WriteFromOwned(v: Vol, ino: nat, buf: seq<bv8>, pos: nat, reserved: set<nat>)
    requires Owned(v, reserved) && ino < |v.nodes|
    ensures Owned(WriteFrom(v, ino, buf, pos).0, reserved)
    decreases |buf|
  {
    hide Owned, GetBlock, WriteFrom, PatchBlock;
    OwnedIsShaped(v, reserved);
    if buf == [] {
      WriteNothing(v, ino, pos);
    } else {
      var idx, n := pos / BLKSIZE % U16, Piece(pos, pos + |buf|);
      GetBlockKeeps(v, ino, idx, reserved);
      WriteStep(v, ino, buf, pos);
      var (v1, got) := GetBlock(v, ino, idx);
      if got.Ok? {
        PatchKeeps(v1, ino, idx, got.value, pos % BLKSIZE, buf[..n], reserved);
        WriteFromOwned(PatchBlock(v1, got.value, pos % BLKSIZE, buf[..n]), ino, buf[n..], pos + n, reserved);
      }
    }
  }

  lemma {:induction false} ReadFromOwned(v: Vol, ino: nat, pos: nat, end: nat, reserved: set<nat>)
    requires Owned(v, reserved) && ino < |v.nodes|
    ensures Owned(ReadFrom(v, ino, pos, end).0, reserved)
    decreases end - pos
  {
    hide Owned, GetBlock;
    if pos < end {
      GetBlockKeeps(v, ino, pos / BLKSIZE % U16, reserved);
      var (v1, got) := GetBlock(v, ino, pos / BLKSIZE % U16);
      ReadFromOwned(v1, ino, pos + Piece(pos, end), end, reserved);
    }
  }

  /** file_write at any offset and of any length, successful or not, conserves ownership. */
  lemma FileWriteOwned(v: Vol, ino: nat, buf: seq<bv8>, off: nat, reserved: set<nat>)
    requires Owned(v, reserved) && ino < |v.nodes| && v.nodes[ino].size < U16
    ensures Owned(FileWrite(v, ino, buf, off).0, reserved)
  {
    hide Owned, SetSize, WriteFrom;
    OwnedIsShaped(v, reserved);
    SetSizeOwned(v, ino, off + |buf|, reserved);
    var v1 := if off + |buf| > v.nodes[ino].size then SetSize(v, ino, off + |buf|) else v;
    WriteFromOwned(v1, ino, buf, off, reserved);
  }

  // ---- whole runs -----------------------------------------------------------------------------------

  /** The steps that requests are made of: directory scans and creation get blocks, store into
      them and change an inode's type, size or block count; removal sets the size to zero. */
  datatype Op =
    | Get(ino: nat, idx: nat)
    | StoreBytes(ino: nat, idx: nat, o: nat, bytes: seq<bv8>)
    | Meta(ino: nat, size: nat, blkUsed: nat)
    | Resize(ino: nat, newsize: nat)
    | Read(ino: nat, count: nat, off: nat)
    | Write(ino: nat, buf: seq<bv8>, off: nat)

  ghost predicate Allowed(v: Vol, op: Op)
    requires Shaped(v)
  {
    && op.ino < |v.nodes| && v.nodes[op.ino].size < U16
    && match op
       case Get(_, _) => true
       case StoreBytes(ino, idx, o, bytes) =>
         idx < NDIRECT && v.nodes[ino].blkInd[idx] != 0 && o + |bytes| <= BLKSIZE
       case Meta(_, size, _) => size < U16
       case Resize(_, _) => true
       case Read(_, _, _) => true
       case Write(_, _, _) => true
  }

  ghost function Step(v: Vol, op: Op): Vol
    requires Shaped(v) && Allowed(v, op)
  {
    match op
    case Get(ino, idx) => GetBlock(v, ino, idx).0
    case StoreBytes(ino, idx, o, bytes) => PatchBlock(v, v.nodes[ino].blkInd[idx], o, bytes)
    case Meta(ino, size, blkUsed) => SetNode(v, ino, v.nodes[ino].(size := size, blkUsed := blkUsed))
    case Resize(ino, newsize) => SetSize(v, ino, newsize)
    case Read(ino, count, off) => FileRead(v, ino, count, off).0
    case Write(ino, buf, off) => FileWrite(v, ino, buf, off).0
  }

  /** Every step conserves block ownership, whether or not it ran out of space. */
  lemma StepOwned(v: Vol, op: Op, reserved: set<nat>)
    requires Owned(v, reserved) && Allowed(v, op)
    ensures Owned(Step(v, op), reserved)
  {
    hide Owned, GetBlock, ReadFrom, SetSize, FileWrite, KeepsBytes, SameSizes;
    OwnedIsShaped(v, reserved);
    match op
    case Get(ino, idx) => GetBlockKeeps(v, ino, idx, reserved);
    case StoreBytes(ino, idx, o, bytes) => PatchKeeps(v, ino, idx, v.nodes[ino].blkInd[idx], o, bytes, reserved);
    case Meta(ino, size, blkUsed) =>
      ResizeOwned(v, ino, v.nodes[ino].(size := size, blkUsed := blkUsed), reserved);
    case Resize(ino, newsize) => SetSizeOwned(v, ino, newsize, reserved);
    case Read(ino, count, off) =>
      if off < v.nodes[ino].size {
        ReadFromOwned(v, ino, off, off + Min(count, v.nodes[ino].size - off), reserved);
      }
    case Write(ino, buf, off) => FileWriteOwned(v, ino, buf, off, reserved);
  }

  ghost predicate Run(states: seq<Vol>, ops: seq<Op>) {
    && |states| == |ops| + 1
    && forall k :: 0 <= k < |ops| ==>
         Shaped(states[k]) && Allowed(states[k], ops[k]) && states[k + 1] == Step(states[k], ops[k])
  }

  /** In every state of every run no block is lost, shared between slots, or used unmarked. */
  lemma {:induction false} RunOwned(states: seq<Vol>, ops: seq<Op>, reserved: set<nat>, k: nat)
    requires Run(states, ops) && Owned(states[0], reserved) && k < |states|
    ensures Owned(states[k], reserved)
  {
    if k > 0 {
      var j := k - 1;
      RunOwned(states, ops, reserved, j);
      OwnedIsShaped(states[j], reserved);
      assert Allowed(states[j], ops[j]) && states[j + 1] == Step(states[j], ops[j]);
      StepOwned(states[j], ops[j], reserved);
    }
  }

  // ---- counting -------------------------------------------------------------------------------------

  ghost function UsedSlots(v: Vol): set<Slot>
    requires Shaped(v)
  {
    set n: nat, i: nat | n < |v.nodes| && i < NDIRECT && v.nodes[n].blkInd[i] != 0 :: Slot(n, i)
  }

  ghost function UsedBlocks(v: Vol): set<nat>
    requires Shaped(v)
  {
    set b: nat | b < v.blkNum && InUse(v.ocp, b)
  }

  lemma {:induction false} SlotsToBlocks(v: Vol, slots: set<Slot>, reserved: set<nat>)
    requires Owned(v, reserved) && forall s :: s in slots ==> IsSlot(v, s) && BlockOf(v, s) != 0
    ensures |set s | s in slots :: BlockOf(v, s)| == |slots|
    decreases |slots|
  {
    if slots != {} {
      hide InUse;
      var s :| s in slots;
      var rest := slots - {s};
      SlotsToBlocks(v, rest, reserved);
      assert forall s' :: s' in slots ==> Owns(v, s', BlockOf(v, s'));
      assert (set s' | s' in slots :: BlockOf(v, s')) == (set s' | s' in rest :: BlockOf(v, s')) + {BlockOf(v, s)};
    }
  }

  /** The number of set bits is the number of reserved blocks plus the number of used slots. */
  lemma BitsAreCounted(v: Vol, reserved: set<nat>)
    requires Owned(v, reserved)
    ensures |UsedBlocks(v)| == |reserved| + |UsedSlots(v)|
  {
    hide InUse;
    var blocks := set s | s in UsedSlots(v) :: BlockOf(v, s);
    SlotsToBlocks(v, UsedSlots(v), reserved);
    forall b: nat
      ensures b in blocks <==> b in UsedBlocks(v) && b !in reserved
    {
      if b in blocks {
        var s :| s in UsedSlots(v) && BlockOf(v, s) == b;
        assert Owns(v, s, b);
      }
      if b in UsedBlocks(v) && b !in reserved {
        var s :| Owns(v, s, b);
        assert s in UsedSlots(v);
      }
    }
    assert UsedBlocks(v) == reserved + blocks && reserved !! blocks;
  }
}
