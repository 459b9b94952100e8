/** The file operations of src/damnfs.c on the block cache, in their own form: loops over the
    bitmap, the inode slots and the pieces of a transfer, with write-back at the end. */
module DamnFs {
  import opened Words
  import opened Bitmap
  import opened FileBlocks
  import opened FileTheorems
  import opened BlockCache

  /** The blocks of a file below its size. */
  ghost predicate FileClean(s: Store, ino: nat, upto: nat)
    requires Coherent(s) && ino < |VolOf(s).nodes|
  {
    forall i :: 0 <= i < upto && i < |VolOf(s).nodes[ino].blkInd| ==> VolOf(s).nodes[ino].blkInd[i] !in s.dirty
  }

  /** The disk alone, without the cache, holds the bitmap, the inode table, the block of the directory
      entry, and every byte of the file below its size, as the server sees them. */
  ghost predicate Durable(s: Store, ino: nat, entry: nat)
    requires Coherent(s) && entry < |s.disk| && ino < |VolOf(s).nodes| && Shaped(VolOf(s))
  {
    && s.disk[entry] == Content(s, entry)
    && Coherent(DiskOnly(s))
    && var (v, d) := (VolOf(s), VolOf(DiskOnly(s)));
    && d.ocp == v.ocp && d.nodes == v.nodes && Shaped(d)
    && (forall i: nat :: i < v.nodes[ino].size && i < MAXFILE ==> FileByte(d, ino, i) == FileByte(v, ino, i))
  }

  /** What is clean is on disk. */
  lemma CleanIsDurable(s: Store, ino: nat, entry: nat)
    requires Coherent(s) && Shaped(VolOf(s)) && ino < |VolOf(s).nodes| && entry < |s.disk|
    requires 0 !in s.dirty && 1 !in s.dirty && entry !in s.dirty
    requires FileClean(s, ino, Blocks(VolOf(s).nodes[ino].size))
    ensures Durable(s, ino, entry)
  {
    var v, d := VolOf(s), VolOf(DiskOnly(s));
    CleanIsSynced(s, 0);
    CleanIsSynced(s, 1);
    CleanIsSynced(s, entry);
    forall i: nat | i < v.nodes[ino].size && i < MAXFILE
      ensures FileByte(d, ino, i) == FileByte(v, ino, i)
    {
      var b := v.nodes[ino].blkInd[i / BLKSIZE];
      assert i / BLKSIZE < Blocks(v.nodes[ino].size);
      CleanIsSynced(s, b);
    }
  }

  lemma OwnedInUse(v: Vol, reserved: set<nat>)
    requires Owned(v, reserved) && 1 in reserved
    ensures InUse(v.ocp, 0) && InUse(v.ocp, 1)
  {
  }

  class Server {
    var disk: seq<Block>
    var cache: map<nat, Block>
    var dirty: set<nat>
    ghost const reserved: set<nat>

    /** fs_init on a disk whose blocks are properly owned. */
    constructor (disk: seq<Block>, ghost reserved: set<nat>)
      requires Coherent(Store(disk, map[], {})) && 1 in reserved && Owned(VolOf(Store(disk, map[], {})), reserved)
      ensures Ready() && this.reserved == reserved && this.disk == disk
      ensures Volume() == VolOf(Store(disk, map[], {}))
    {
      this.disk := disk;
      this.cache := map[];
      this.dirty := {};
      this.reserved := reserved;
      new;
      TouchKeeps(View(), 0);
      OwnedInUse(Volume(), reserved);
      Pgfault(0);
      TouchKeeps(View(), 1);
      Pgfault(1);
    }

    function View(): Store
      reads this
    {
      Store(disk, cache, dirty)
    }

    ghost function Volume(): Vol
      reads this
      requires Coherent(View())
    {
      VolOf(View())
    }

    /** fs_init has loaded the super block and the inode table, blocks are properly owned, and
        the super block is written back. */
    ghost predicate Ready()
      reads this
    {
      && Coherent(View()) && 0 in cache && 1 in cache && 0 !in dirty
      && 1 in reserved && Owned(Volume(), reserved)
    }

    /** bc_pgfault; its panic on reading a free block is the last precondition. */
    method Pgfault(b: nat)
      requires Coherent(View()) && b < |disk| && InUse(Volume().ocp, b)
      modifies this`cache
      ensures View() == Touch(old(View()), b)
    {
      if b !in cache {
        cache := cache[b := disk[b]];
      }
    }

    method FlushBlock(b: nat)
      requires b < |disk|
      modifies this`disk, this`dirty
      ensures View() == Flush(old(View()), b)
    {
      if b !in cache || b !in dirty {
        return;
      }
      disk := disk[b := cache[b]];
      dirty := dirty - {b};
    }

    method Put(b: nat, k: Block)
      requires b < |disk|
      modifies this`cache, this`dirty
      ensures View() == Modify(old(View()), b, k)
    {
      cache := cache[b := k];
      dirty := dirty + {b};
    }

    /** alloc_block: mark the first free block and write the bitmap back at once. */
    method AllocBlock() returns (r: Result<nat>)
      requires Coherent(View()) && 0 in cache && 1 in cache && 0 !in dirty
      modifies this
      ensures Coherent(View()) && 0 in cache && 1 in cache && dirty == old(dirty) && |disk| == old(|disk|)
      ensures var v := old(Volume());
              var b := FirstFree(v.ocp, 0, v.blkNum);
              if b == v.blkNum then r == Err(NoDisk) && View() == old(View())
              else r == Ok(b) && Volume() == v.(ocp := Mark(v.ocp, b))
    {
      var blockno := 0;
      while blockno < |disk|
        invariant blockno <= |disk| && View() == old(View())
        invariant FirstFree(cache[0].ocp, 0, |disk|) == FirstFree(cache[0].ocp, blockno, |disk|)
      {
        if !InUse(cache[0].ocp, blockno) {
          ModifyKeeps(View(), 0, Super(Mark(cache[0].ocp, blockno)));
          Put(0, Super(Mark(cache[0].ocp, blockno)));
          FlushWritesBack(View(), 0);
          FlushBlock(0);
          return Ok(blockno);
        }
        blockno := blockno + 1;
      }
      return Err(NoDisk);
    }

    /** file_get_block: the inode table is written back whenever it succeeds. */
    method FileGetBlock(ino: nat, idx: nat) returns (r: Result<nat>)
      requires Ready() && ino < |Volume().nodes|
      modifies this
      ensures Ready() && |disk| == old(|disk|)
      ensures (Volume(), r) == GetBlock(old(Volume()), ino, idx)
      ensures r.Ok? ==> dirty == old(dirty) - {1}
      ensures r.Err? ==> dirty == old(dirty)
    {
      hide Owned;
      OwnedIsShaped(Volume(), reserved);
      GetBlockKeeps(Volume(), ino, idx, reserved);
      if idx >= NDIRECT {
        return Err(Inval);
      }
      var node := cache[1].nodes[ino];
      if node.blkInd[idx] == 0 {
        var got := AllocBlock();
        if got.Err? {
          return got;
        }
        var node' := node.(blkInd := node.blkInd[idx := got.value], blkUsed := (node.blkUsed + 1) % U16);
        ModifyKeeps(View(), 1, Table(cache[1].nodes[ino := node']));
        Put(1, Table(cache[1].nodes[ino := node']));
        r := got;
      } else {
        r := Ok(node.blkInd[idx]);
      }
      FlushWritesBack(View(), 1);
      FlushBlock(1);
    }

    /** file_free_block with free_block: the bitmap is written back, the inode table is not. */
    method FileFreeBlock(ino: nat, idx: nat)
      requires Ready() && ino < |Volume().nodes|
      modifies this
      ensures Ready() && |disk| == old(|disk|) && dirty <= old(dirty) + {1}
      ensures Volume() == FreeBlock(old(Volume()), ino, idx)
    {
      hide Owned;
      OwnedIsShaped(Volume(), reserved);
      FreeBlockOwned(Volume(), ino, idx, reserved);
      if idx < NDIRECT && cache[1].nodes[ino].blkInd[idx] != 0 {
        var node := cache[1].nodes[ino];
        ModifyKeeps(View(), 0, Super(Clear(cache[0].ocp, node.blkInd[idx])));
        Put(0, Super(Clear(cache[0].ocp, node.blkInd[idx])));
        FlushWritesBack(View(), 0);
        FlushBlock(0);
        var node' := node.(blkInd := node.blkInd[idx := 0]);
        ModifyKeeps(View(), 1, Table(cache[1].nodes[ino := node']));
        Put(1, Table(cache[1].nodes[ino := node']));
      }
    }

    method FileTruncateBlocks(ino: nat, lo: nat, hi: nat)
      requires Ready() && ino < |Volume().nodes|
      modifies this
      ensures Ready() && |disk| == old(|disk|) && dirty <= old(dirty) + {1}
      ensures Volume() == FreeBlocks(old(Volume()), ino, lo, hi)
    {
      hide Owned, FreeBlock;
      OwnedIsShaped(Volume(), reserved);
      var bno := lo;
      while bno < hi
        invariant Ready() && |disk| == old(|disk|) && dirty <= old(dirty) + {1} && ino < |Volume().nodes|
        invariant Shaped(Volume())
        invariant FreeBlocks(Volume(), ino, bno, hi) == FreeBlocks(old(Volume()), ino, lo, hi)
        decreases hi - bno
      {
        FileFreeBlock(ino, bno);
        OwnedIsShaped(Volume(), reserved);
        bno := bno + 1;
      }
    }

    /** file_set_size: only the directory entry's block is flushed. */
    method FileSetSize(ino: nat, entry: nat, newsize: nat)
      requires Ready() && ino < |Volume().nodes| && entry < |disk|
      requires Volume().nodes[ino].size < U16
      modifies this
      ensures Ready() && |disk| == old(|disk|) && Volume() == SetSize(old(Volume()), ino, newsize)
    {
      hide Owned, FreeBlocks;
      OwnedIsShaped(Volume(), reserved);
      SetSizeOwned(Volume(), ino, newsize, reserved);
      var size := cache[1].nodes[ino].size;
      if size > newsize {
        FileTruncateBlocks(ino, Blocks(newsize) % U16, Blocks(size) % U16);
      }
      var node := cache[1].nodes[ino].(size := newsize % U16);
      ModifyKeeps(View(), 1, Table(cache[1].nodes[ino := node]));
      Put(1, Table(cache[1].nodes[ino := node]));
      FlushWritesBack(View(), entry);
      FlushBlock(entry);
    }

    /** file_flush: afterwards the file's blocks, the inode table and the entry's block are clean. */
    method FileFlush(ino: nat, entry: nat)
      requires Ready() && ino < |Volume().nodes| && entry < |disk|
      modifies this
      ensures Ready() && |disk| == old(|disk|) && Volume() == old(Volume()) && dirty <= old(dirty)
      ensures 1 !in dirty && entry !in dirty && FileClean(View(), ino, Blocks(Volume().nodes[ino].size))
    {
      hide Owned;
      OwnedIsShaped(Volume(), reserved);
      var i := 0;
      while i < Blocks(cache[1].nodes[ino].size)
        invariant Ready() && |disk| == old(|disk|) && Volume() == old(Volume()) && dirty <= old(dirty)
        invariant ino < |Volume().nodes| && Shaped(Volume()) && cache == old(cache)
        invariant FileClean(View(), ino, i)
      {
        if i < NDIRECT && cache[1].nodes[ino].blkInd[i] != 0 {
          var b := cache[1].nodes[ino].blkInd[i];
          FlushWritesBack(View(), b);
          FlushBlock(b);
        }
        i := i + 1;
      }
      FlushWritesBack(View(), 1);
      FlushBlock(1);
      FlushWritesBack(View(), entry);
      FlushBlock(entry);
    }

    /** One round of file_write's loop after the block is known: store into the cached page. */
    method StoreInto(ino: nat, idx: nat, b: nat, o: nat, bytes: seq<bv8>)
      requires Ready() && Owns(Volume(), Slot(ino, idx), b) && o + |bytes| <= BLKSIZE
      modifies this
      ensures Ready() && |disk| == old(|disk|) && Volume() == PatchBlock(old(Volume()), b, o, bytes)
      ensures |Volume().nodes| == old(|Volume().nodes|)
    {
      PatchKeeps(Volume(), ino, idx, b, o, bytes, reserved);
      TouchKeeps(View(), b);
      Pgfault(b);
      ModifyKeeps(View(), b, Data(Patch(cache[b].bytes, o, bytes)));
      Put(b, Data(Patch(cache[b].bytes, o, bytes)));
    }

    /** file_write's loop */
    method WriteLoop(ino: nat, buf: seq<bv8>, off: nat) returns (r: Result<()>)
      requires Ready() && ino < |Volume().nodes|
      modifies this
      ensures Ready() && |disk| == old(|disk|) && |Volume().nodes| == old(|Volume().nodes|)
      ensures (Volume(), r) == WriteFrom(old(Volume()), ino, buf, off)
    {
      hide Owned, WriteFrom, GetBlock, PatchBlock;
      OwnedIsShaped(Volume(), reserved);
      var pos := off;
      while pos < off + |buf|
        invariant off <= pos <= off + |buf| && Ready() && |disk| == old(|disk|)
        invariant Shaped(Volume()) && |Volume().nodes| == old(|Volume().nodes|)
        invariant WriteFrom(Volume(), ino, buf[pos - off..], pos) == WriteFrom(old(Volume()), ino, buf, off)
      {
        ghost var rest := buf[pos - off..];
        var idx := pos / BLKSIZE % U16;
        GetBlockKeeps(Volume(), ino, idx, reserved);
        WriteStep(Volume(), ino, rest, pos);
        var got := FileGetBlock(ino, idx);
        if got.Err? {
          return Err(got.error);
        }
        var bn := Min(BLKSIZE - pos % BLKSIZE, off + |buf| - pos);
        assert rest[..bn] == buf[pos - off..pos - off + bn] && rest[bn..] == buf[pos - off + bn..];
        StoreInto(ino, idx, got.value, pos % BLKSIZE, buf[pos - off..pos - off + bn]);
        OwnedIsShaped(Volume(), reserved);
        pos := pos + bn;
      }
      WriteNothing(Volume(), ino, pos);
      assert buf[pos - off..] == [];
      return Ok(());
    }

    /** file_write. On success the disk alone holds the file, its inode, its directory entry's
        block and the bitmap. */
    method FileWrite(ino: nat, entry: nat, buf: seq<bv8>, off: nat) returns (r: Result<nat>)
      requires Ready() && ino < |Volume().nodes| && entry < |disk|
      requires Volume().nodes[ino].size < U16
      modifies this
      ensures Ready() && |disk| == old(|disk|)
      ensures (Volume(), r) == FileBlocks.FileWrite(old(Volume()), ino, buf, off)
      ensures Shaped(Volume()) && ino < |Volume().nodes|
      ensures r.Ok? ==> Durable(View(), ino, entry)
    {
      hide Owned, SetSize, WriteFrom, Durable, FileClean;
      OwnedIsShaped(Volume(), reserved);
      FileWriteOwned(Volume(), ino, buf, off, reserved);
      if off + |buf| > cache[1].nodes[ino].size {
        FileSetSize(ino, entry, off + |buf|);
      }
      OwnedIsShaped(Volume(), reserved);
      var done := WriteLoop(ino, buf, off);
      OwnedIsShaped(Volume(), reserved);
      if done.Err? {
        return Err(done.error);
      }
      FileFlush(ino, entry);
      OwnedIsShaped(Volume(), reserved);
      CleanIsDurable(View(), ino, entry);
      return Ok(|buf|);
    }

    /** The body of file_read's loop: n bytes from offset o of the block behind slot idx. */
    method ReadPiece(ino: nat, idx: nat, o: nat, n: nat) returns (r: Result<seq<bv8>>)
      requires Ready() && ino < |Volume().nodes| && o + n <= BLKSIZE
      modifies this
      ensures Ready() && |disk| == old(|disk|) && Shaped(old(Volume())) && Shaped(Volume())
      ensures var (v, got) := GetBlock(old(Volume()), ino, idx);
              && Volume() == v
              && r == if got.Ok? then Ok(v.data[got.value][o..o + n]) else Err(got.error)
    {
      hide Owned, GetBlock, KeepsBytes, SameSizes;
      OwnedIsShaped(Volume(), reserved);
      GetBlockKeeps(Volume(), ino, idx, reserved);
      var got := FileGetBlock(ino, idx);
      OwnedIsShaped(Volume(), reserved);
      if got.Err? {
        return Err(got.error);
      }
      var b := got.value;
      OwnedBlock(Volume(), Slot(ino, idx), b, reserved);
      TouchKeeps(View(), b);
      Pgfault(b);
      return Ok(cache[b].bytes[o..o + n]);
    }

    /** file_read */
    method FileRead(ino: nat, count: nat, off: nat) returns (r: Result<seq<bv8>>)
      requires Ready() && ino < |Volume().nodes|
      modifies this
      ensures Ready() && |disk| == old(|disk|)
      ensures (Volume(), r) == FileBlocks.FileRead(old(Volume()), ino, count, off)
    {
      hide Owned, ReadFrom, GetBlock, KeepsBytes, SameSizes, Joined;
      OwnedIsShaped(Volume(), reserved);
      var size := cache[1].nodes[ino].size;
      if off >= size {
        return Ok([]);
      }
      var end := off + Min(count, size - off);
      ghost var v0 := Volume();
      var pos, buf := off, [];
      ReadJoined(v0, ino, off, end, []);
      while pos < end
        invariant off <= pos <= end && Ready() && |disk| == old(|disk|)
        invariant Shaped(Volume()) && ino < |Volume().nodes|
        invariant ReadFrom(v0, ino, off, end) == Joined(buf, ReadFrom(Volume(), ino, pos, end))
      {
        ghost var v := Volume();
        var idx := pos / BLKSIZE % U16;
        GetBlockKeeps(v, ino, idx, reserved);
        ReadStep(v, ino, pos, end, buf);
        var bn := Min(BLKSIZE - pos % BLKSIZE, end - pos);
        var piece := ReadPiece(ino, idx, pos % BLKSIZE, bn);
        if piece.Err? {
          return Err(piece.error);
        }
        OwnedIsShaped(Volume(), reserved);
        buf := buf + piece.value;
        pos := pos + bn;
      }
      ReadJoined(Volume(), ino, pos, end, buf);
      return Ok(buf);
    }
  }

  ghost function Joined(buf: seq<bv8>, p: (Vol, Result<seq<bv8>>)): (Vol, Result<seq<bv8>>) {
    (p.0, match p.1 case Ok(rest) => Ok(buf + rest) case Err(e) => Err(e))
  }

  lemma ReadJoined(v: Vol, ino: nat, pos: nat, end: nat, buf: seq<bv8>)
    requires Shaped(v) && ino < |v.nodes|
    ensures Joined([], ReadFrom(v, ino, pos, end)) == ReadFrom(v, ino, pos, end)
    ensures pos >= end ==> Joined(buf, ReadFrom(v, ino, pos, end)) == (v, Ok(buf))
  {
    assert forall s: seq<bv8> :: [] + s == s && s + [] == s;
  }

  lemma ReadStep(v: Vol, ino: nat, pos: nat, end: nat, buf: seq<bv8>)
    requires Shaped(v) && ino < |v.nodes| && pos < end
    ensures var (v1, got) := GetBlock(v, ino, pos / BLKSIZE % U16);
            var n, o := Piece(pos, end), pos % BLKSIZE;
            && (got.Err? ==> Joined(buf, ReadFrom(v, ino, pos, end)) == (v1, Err(got.error)))
            && (got.Ok? ==>
                  Joined(buf, ReadFrom(v, ino, pos, end)) ==
                  Joined(buf + v1.data[got.value][o..o + n], ReadFrom(v1, ino, pos + n, end)))
  {
    assert forall a: seq<bv8>, b: seq<bv8>, c: seq<bv8> :: a + (b + c) == (a + b) + c;
  }

  lemma OwnedBlock(v: Vol, s: Slot, b: nat, reserved: set<nat>)
    requires Owned(v, reserved) && Owns(v, s, b)
    ensures b < v.blkNum && b !in reserved && InUse(v.ocp, b) && 0 in reserved
  {
  }
}
