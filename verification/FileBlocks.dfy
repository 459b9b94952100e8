/** Block allocation and block-mapped files (src/damnfs.c) over the logical contents of the
    disk: bitmap words, inode table and data blocks. */
module FileBlocks {
  import opened Words
  import opened Bitmap

  const BLKSIZE: nat := 4096
  const NDIRECT: nat := 13
  const MAXFILE: nat := NDIRECT * BLKSIZE
  const MAXBLKNUM: nat := 4096
  const U16: nat := 0x1_0000

  datatype Error = NoDisk | Inval
  datatype Result<+T> = Ok(value: T) | Err(error: Error)

  datatype Inode = Inode(size: nat, blkUsed: nat, blkInd: seq<nat>)

  /** `ocp` is super->blk_ocp, `nodes` the inode table, `data` the contents of every block as
      bytes, `blkNum` super->blk_num. */
  datatype Vol = Vol(ocp: seq<Word>, nodes: seq<Inode>, data: seq<seq<bv8>>, blkNum: nat)

  ghost predicate Shaped(v: Vol) {
    && |v.ocp| == MAXBLKNUM / 32 && v.blkNum <= MAXBLKNUM && |v.data| == v.blkNum
    && (forall b :: 0 <= b < v.blkNum ==> |v.data[b]| == BLKSIZE)
    && (forall n :: 0 <= n < |v.nodes| ==> |v.nodes[n].blkInd| == NDIRECT)
    && (forall n, i :: 0 <= n < |v.nodes| && 0 <= i < NDIRECT ==> v.nodes[n].blkInd[i] < v.blkNum)
  }

  // ---- operations --------------------------------------------------------------------------

  /** alloc_block's search: the first block at or after b that is not in use. */
  function FirstFree(ocp: seq<Word>, b: nat, blkNum: nat): (r: nat)
    requires blkNum <= 32 * |ocp| && b <= blkNum
    ensures b <= r <= blkNum && (r < blkNum ==> !InUse(ocp, r))
    ensures forall c :: b <= c < r ==> InUse(ocp, c)
    decreases blkNum - b
  {
    if b == blkNum || !InUse(ocp, b) then b else FirstFree(ocp, b + 1, blkNum)
  }

  function SetNode(v: Vol, ino: nat, node: Inode): Vol
    requires ino < |v.nodes|
  {
    v.(nodes := v.nodes[ino := node])
  }

  /** file_get_block: the block behind slot `idx`, allocated if need be. */
  function GetBlock(v: Vol, ino: nat, idx: nat): (r: (Vol, Result<nat>))
    requires Shaped(v) && ino < |v.nodes|
    ensures Shaped(r.0) && |r.0.nodes| == |v.nodes| && r.0.data == v.data && r.0.blkNum == v.blkNum
    ensures r.1.Ok? ==> r.1.value < v.blkNum
  {
    if idx >= NDIRECT then (v, Err(Inval))
    else if v.nodes[ino].blkInd[idx] != 0 then (v, Ok(v.nodes[ino].blkInd[idx]))
    else
      var b := FirstFree(v.ocp, 0, v.blkNum);
      if b == v.blkNum then (v, Err(NoDisk))
      else
        var node := v.nodes[ino];
        (SetNode(v.(ocp := Mark(v.ocp, b)), ino,
                 node.(blkInd := node.blkInd[idx := b], blkUsed := (node.blkUsed + 1) % U16)), Ok(b))
  }

  /** file_free_block */
  function FreeBlock(v: Vol, ino: nat, idx: nat): (r: Vol)
    requires Shaped(v) && ino < |v.nodes|
    ensures Shaped(r) && |r.nodes| == |v.nodes|
  {
    if idx >= NDIRECT || v.nodes[ino].blkInd[idx] == 0 then v
    else
      var node := v.nodes[ino];
      SetNode(v.(ocp := Clear(v.ocp, node.blkInd[idx])), ino, node.(blkInd := node.blkInd[idx := 0]))
  }

  function Blocks(size: nat): nat { (size + BLKSIZE - 1) / BLKSIZE }

  // ---- ownership -----------------------------------------------------------------------------

  datatype Slot = Slot(ino: nat, idx: nat)

  ghost predicate IsSlot(v: Vol, s: Slot) { s.ino < |v.nodes| && s.idx < NDIRECT }

  ghost function BlockOf(v: Vol, s: Slot): nat
    requires Shaped(v) && IsSlot(v, s)
  {
    v.nodes[s.ino].blkInd[s.idx]
  }

  ghost predicate Owns(v: Vol, s: Slot, b: nat)
    requires Shaped(v)
  {
    IsSlot(v, s) && b != 0 && BlockOf(v, s) == b
  }

  /** The blocks marked in use are exactly the reserved ones and those named by an inode slot;
      no block is named twice. */
  ghost predicate Owned(v: Vol, reserved: set<nat>) {
    && Shaped(v) && 0 in reserved
    && (forall b :: b in reserved ==> b < v.blkNum && InUse(v.ocp, b))
    && (forall s, b :: Owns(v, s, b) ==> b !in reserved && InUse(v.ocp, b))
    && (forall s, s', b :: Owns(v, s, b) && Owns(v, s', b) ==> s == s')
    && (forall b :: 0 <= b < v.blkNum && InUse(v.ocp, b) && b !in reserved ==> exists s :: Owns(v, s, b))
  }

  lemma GetBlockOwned(v: Vol, ino: nat, idx: nat, reserved: set<nat>)
    requires Owned(v, reserved) && ino < |v.nodes|
    ensures var (v', r) := GetBlock(v, ino, idx);
            && Owned(v', reserved) && v'.data == v.data && v'.blkNum == v.blkNum && |v'.nodes| == |v.nodes|
            && (r.Ok? ==> Owns(v', Slot(ino, idx), r.value))
            && (forall s, b :: Owns(v, s, b) ==> Owns(v', s, b))
            && (forall s, b :: Owns(v', s, b) && s != Slot(ino, idx) ==> Owns(v, s, b))
            && (forall n :: 0 <= n < |v.nodes| ==> v'.nodes[n].size == v.nodes[n].size)
            && (r.Err? ==> v' == v)
  {
    hide InUse, Mark;
    var (v', r) := GetBlock(v, ino, idx);
    if v' != v {
      var b := r.value;
      assert InUse(v.ocp, 0) && b != 0;
      assert Owns(v', Slot(ino, idx), b);
      forall c | 0 <= c < v.blkNum ensures InUse(v'.ocp, c) <==> c == b || InUse(v.ocp, c) { BitmapPoint(v.ocp, b, c); }
      assert forall s, c :: Owns(v', s, c) <==> Owns(v, s, c) || (s == Slot(ino, idx) && c == b);
    }
  }

  lemma FreeBlockOwned(v: Vol, ino: nat, idx: nat, reserved: set<nat>)
    requires Owned(v, reserved) && ino < |v.nodes|
    ensures var v' := FreeBlock(v, ino, idx);
            && Owned(v', reserved) && v'.data == v.data && v'.blkNum == v.blkNum && |v'.nodes| == |v.nodes|
            && (forall s, b :: Owns(v', s, b) <==> Owns(v, s, b) && s != Slot(ino, idx))
  {
    hide InUse, Clear;
    var v' := FreeBlock(v, ino, idx);
    if v' != v {
      var b := v.nodes[ino].blkInd[idx];
      assert Owns(v, Slot(ino, idx), b);
      forall c | 0 <= c < v.blkNum ensures InUse(v'.ocp, c) <==> c != b && InUse(v.ocp, c) { BitmapPoint(v.ocp, b, c); }
      assert forall s, c :: Owns(v', s, c) <==> Owns(v, s, c) && s != Slot(ino, idx);
    }
  }

  // ---- file operations ----------------------------------------------------------------------

  /** The loop of file_truncate_blocks. */
  function FreeBlocks(v: Vol, ino: nat, lo: nat, hi: nat): (r: Vol)
    requires Shaped(v) && ino < |v.nodes|
    ensures Shaped(r) && |r.nodes| == |v.nodes|
    decreases hi - lo
  {
    if lo >= hi then v else FreeBlocks(FreeBlock(v, ino, lo), ino, lo + 1, hi)
  }

  /** file_set_size; the size field has 16 bits. */
  function SetSize(v: Vol, ino: nat, newsize: nat): (r: Vol)
    requires Shaped(v) && ino < |v.nodes|
    ensures Shaped(r) && |r.nodes| == |v.nodes|
  {
    var size := v.nodes[ino].size;
    var v1 := if size > newsize then FreeBlocks(v, ino, Blocks(newsize) % U16, Blocks(size) % U16) else v;
    SetNode(v1, ino, v1.nodes[ino].(size := newsize % U16))
  }

  function Min(a: nat, b: nat): nat { if a < b then a else b }

  /** Bytes of one block replaced by `bytes` from offset `o` on. */
  function Patch(block: seq<bv8>, o: nat, bytes: seq<bv8>): seq<bv8>
    requires o + |bytes| <= |block|
  {
    block[..o] + bytes + block[o + |bytes|..]
  }

  function PatchBlock(v: Vol, b: nat, o: nat, bytes: seq<bv8>): Vol
    requires b < |v.data| && o + |bytes| <= |v.data[b]|
  {
    v.(data := v.data[b := Patch(v.data[b], o, bytes)])
  }

  /** The length of the piece of [pos, end) that lies in the block of pos. */
  function Piece(pos: nat, end: nat): (n: nat)
    requires pos < end
    ensures 0 < n <= end - pos && pos % BLKSIZE + n <= BLKSIZE
    ensures (pos + n - 1) / BLKSIZE == pos / BLKSIZE
  {
    Min(BLKSIZE - pos % BLKSIZE, end - pos)
  }

  /** The loop of file_write. */
  function WriteFrom(v: Vol, ino: nat, buf: seq<bv8>, pos: nat): (r: (Vol, Result<()>))
    requires Shaped(v) && ino < |v.nodes|
    ensures Shaped(r.0) && |r.0.nodes| == |v.nodes|
    decreases |buf|
  {
    if buf == [] then (v, Ok(()))
    else
      var (v1, got) := GetBlock(v, ino, pos / BLKSIZE % U16);
      match got
      case Err(e) => (v1, Err(e))
      case Ok(b) =>
        var n := Piece(pos, pos + |buf|);
        WriteFrom(PatchBlock(v1, b, pos % BLKSIZE, buf[..n]), ino, buf[n..], pos + n)
  }

  /** file_write */
  function FileWrite(v: Vol, ino: nat, buf: seq<bv8>, off: nat): (Vol, Result<nat>)
    requires Shaped(v) && ino < |v.nodes|
  {
    var v1 := if off + |buf| > v.nodes[ino].size then SetSize(v, ino, off + |buf|) else v;
    var (v2, r) := WriteFrom(v1, ino, buf, off);
    (v2, match r case Ok(_) => Ok(|buf|) case Err(e) => Err(e))
  }

  /** The loop of file_read. */
  function ReadFrom(v: Vol, ino: nat, pos: nat, end: nat): (Vol, Result<seq<bv8>>)
    requires Shaped(v) && ino < |v.nodes|
    decreases end - pos
  {
    if pos >= end then (v, Ok([]))
    else
      var (v1, got) := GetBlock(v, ino, pos / BLKSIZE % U16);
      match got
      case Err(e) => (v1, Err(e))
      case Ok(b) =>
        var n, o := Piece(pos, end), pos % BLKSIZE;
        var (v2, rest) := ReadFrom(v1, ino, pos + n, end);
        (v2, match rest case Ok(bytes) => Ok(v1.data[b][o..o + n] + bytes) case Err(e) => Err(e))
  }

  /** file_read */
  function FileRead(v: Vol, ino: nat, count: nat, off: nat): (Vol, Result<seq<bv8>>)
    requires Shaped(v) && ino < |v.nodes|
  {
    var size := v.nodes[ino].size;
    if off >= size then (v, Ok([])) else ReadFrom(v, ino, off, off + Min(count, size - off))
  }

  // ---- files as byte sequences -----------------------------------------------------------------

  /** Byte i of a file, if the block it lies in has been allocated. */
  ghost function FileByte(v: Vol, ino: nat, i: nat): Option<bv8>
    requires Shaped(v) && ino < |v.nodes| && i < MAXFILE
  {
    var b := v.nodes[ino].blkInd[i / BLKSIZE];
    if b == 0 then None else Some(v.data[b][i % BLKSIZE])
  }

  /** Every byte that existed is as before, except those of file `ino` in [lo, hi). */
  ghost predicate KeepsBytes(v: Vol, v': Vol, ino: nat, lo: nat, hi: nat) {
    && Shaped(v) && Shaped(v') && |v'.nodes| == |v.nodes|
    && forall n: nat, i: nat :: n < |v.nodes| && i < MAXFILE && FileByte(v, n, i).Some? ==>
         if n == ino && lo <= i < hi then FileByte(v', n, i).Some? else FileByte(v', n, i) == FileByte(v, n, i)
  }

  ghost predicate SameSizes(v: Vol, v': Vol) {
    |v'.nodes| == |v.nodes| && forall n :: 0 <= n < |v.nodes| ==> v'.nodes[n].size == v.nodes[n].size
  }

  lemma GetBlockKeeps(v: Vol, ino: nat, idx: nat, reserved: set<nat>)
    requires Owned(v, reserved) && ino < |v.nodes|
    ensures var (v', r) := GetBlock(v, ino, idx);
            && Owned(v', reserved) && KeepsBytes(v, v', ino, 0, 0) && SameSizes(v, v')
            && (r.Ok? ==> idx < NDIRECT && Owns(v', Slot(ino, idx), r.value))
  {
    GetBlockOwned(v, ino, idx, reserved);
  }

  /** Patching the block behind one slot changes the bytes of that piece and no others. */
  lemma PatchKeeps(v: Vol, ino: nat, idx: nat, b: nat, o: nat, bytes: seq<bv8>, reserved: set<nat>)
    requires Owned(v, reserved) && Owns(v, Slot(ino, idx), b) && o + |bytes| <= BLKSIZE
    ensures var v' := PatchBlock(v, b, o, bytes);
            var lo := idx * BLKSIZE + o;
            && Owned(v', reserved) && KeepsBytes(v, v', ino, lo, lo + |bytes|) && SameSizes(v, v')
            && (forall i: nat :: lo <= i < lo + |bytes| ==> FileByte(v', ino, i) == Some(bytes[i - lo]))
  {
    hide InUse;
    var v' := PatchBlock(v, b, o, bytes);
    assert forall s, c :: Owns(v', s, c) <==> Owns(v, s, c);
    forall n: nat, i: nat | n < |v.nodes| && i < MAXFILE && FileByte(v, n, i).Some?
      ensures if n == ino && idx * BLKSIZE + o <= i < idx * BLKSIZE + o + |bytes|
              then FileByte(v', n, i) == Some(bytes[i - (idx * BLKSIZE + o)])
              else FileByte(v', n, i) == FileByte(v, n, i)
    {
      PatchedByte(v, ino, idx, b, o, bytes, reserved, n, i);
    }
    forall i: nat | idx * BLKSIZE + o <= i < idx * BLKSIZE + o + |bytes|
      ensures i < MAXFILE && FileByte(v, ino, i).Some?
    {
      assert i / BLKSIZE == idx;
    }
  }

  lemma PatchedByte(v: Vol, ino: nat, idx: nat, b: nat, o: nat, bytes: seq<bv8>, reserved: set<nat>, n: nat, i: nat)
    requires Owned(v, reserved) && Owns(v, Slot(ino, idx), b) && o + |bytes| <= BLKSIZE
    requires n < |v.nodes| && i < MAXFILE && FileByte(v, n, i).Some?
    ensures var lo := idx * BLKSIZE + o;
            FileByte(PatchBlock(v, b, o, bytes), n, i) ==
              if n == ino && lo <= i < lo + |bytes| then Some(bytes[i - lo]) else FileByte(v, n, i)
  {
    hide InUse;
    var c := v.nodes[n].blkInd[i / BLKSIZE];
    assert Owns(v, Slot(n, i / BLKSIZE), c);
    assert i == i / BLKSIZE * BLKSIZE + i % BLKSIZE;
  }
}
