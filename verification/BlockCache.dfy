/** The block cache of src/damnfs.c: blocks are read from disk on first touch, changed in memory,
    and written back by flush_block when dirty. */
module BlockCache {
  import opened Words
  import opened Bitmap
  import opened FileBlocks

  /** Block 0 is the super block, block 1 the inode table, the others hold bytes. */
  datatype Block = Super(ocp: seq<Word>) | Table(nodes: seq<Inode>) | Data(bytes: seq<bv8>)

  datatype Store = Store(disk: seq<Block>, cache: map<nat, Block>, dirty: set<nat>)

  predicate Typed(b: nat, k: Block) {
    if b == 0 then k.Super? && |k.ocp| == MAXBLKNUM / 32
    else if b == 1 then k.Table?
    else k.Data? && |k.bytes| == BLKSIZE
  }

  /** A mapped page that is not dirty equals its disk block. */
  ghost predicate Coherent(s: Store) {
    && 2 <= |s.disk| <= MAXBLKNUM
    && (forall b :: 0 <= b < |s.disk| ==> Typed(b, s.disk[b]))
    && (forall b :: b in s.cache ==> b < |s.disk| && Typed(b, s.cache[b]))
    && s.dirty <= s.cache.Keys
    && (forall b :: b in s.cache && b !in s.dirty ==> s.cache[b] == s.disk[b])
  }

  function Content(s: Store, b: nat): Block
    requires b < |s.disk|
  {
    if b in s.cache then s.cache[b] else s.disk[b]
  }

  function Bytes(k: Block): (r: seq<bv8>)
    ensures k.Data? ==> r == k.bytes
    ensures !k.Data? ==> |r| == BLKSIZE
  {
    if k.Data? then k.bytes else seq(BLKSIZE, _ => 0)
  }

  /** The volume the server works on, and the volume the disk alone holds. */
  ghost function VolOf(s: Store): Vol
    requires Coherent(s)
  {
    Vol(Content(s, 0).ocp, Content(s, 1).nodes, seq(|s.disk|, b requires 0 <= b < |s.disk| => Bytes(Content(s, b))), |s.disk|)
  }

  ghost function DiskOnly(s: Store): Store { Store(s.disk, map[], {}) }

  /** bc_pgfault: load the block; the page starts clean. */
  function Touch(s: Store, b: nat): Store
    requires b < |s.disk|
  {
    if b in s.cache then s else s.(cache := s.cache[b := s.disk[b]])
  }

  /** A store through the mapping: the hardware sets the dirty bit. */
  function Modify(s: Store, b: nat, k: Block): Store
    requires b < |s.disk|
  {
    s.(cache := s.cache[b := k], dirty := s.dirty + {b})
  }

  /** flush_block */
  function Flush(s: Store, b: nat): Store
    requires b < |s.disk|
  {
    if b !in s.cache || b !in s.dirty then s
    else s.(disk := s.disk[b := s.cache[b]], dirty := s.dirty - {b})
  }

  predicate Synced(s: Store, b: nat)
    requires b < |s.disk|
  {
    s.disk[b] == Content(s, b)
  }

  lemma TouchKeeps(s: Store, b: nat)
    requires Coherent(s) && b < |s.disk|
    ensures Coherent(Touch(s, b)) && VolOf(Touch(s, b)) == VolOf(s)
    ensures b in Touch(s, b).cache && Touch(s, b).cache[b] == Content(s, b)
    ensures forall c: nat :: c < |s.disk| ==> Content(Touch(s, b), c) == Content(s, c)
  {
    assert VolOf(Touch(s, b)).data == VolOf(s).data;
  }

  /** flush_block changes nothing the server sees and no other disk block, and afterwards the
      block is on disk as the server sees it. */
  lemma FlushWritesBack(s: Store, b: nat)
    requires Coherent(s) && b < |s.disk|
    ensures var s' := Flush(s, b);
            && Coherent(s') && VolOf(s') == VolOf(s) && |s'.disk| == |s.disk| && b !in s'.dirty
            && (forall c: nat :: c < |s.disk| ==> Content(s', c) == Content(s, c))
            && (forall c :: 0 <= c < |s.disk| && c != b ==> s'.disk[c] == s.disk[c])
            && Synced(s', b)
  {
    assert VolOf(Flush(s, b)).data == VolOf(s).data;
  }

  lemma CleanIsSynced(s: Store, b: nat)
    requires Coherent(s) && b < |s.disk|
    ensures b !in s.dirty ==> Synced(s, b)
  {
  }

  lemma ModifyKeeps(s: Store, b: nat, k: Block)
    requires Coherent(s) && b < |s.disk| && Typed(b, k)
    ensures var s' := Modify(s, b, k);
            && Coherent(s') && s'.disk == s.disk
            && VolOf(s') == (match k
                             case Super(ocp) => VolOf(s).(ocp := ocp)
                             case Table(nodes) => VolOf(s).(nodes := nodes)
                             case Data(bytes) => VolOf(s).(data := VolOf(s).data[b := bytes]))
            && (forall c: nat :: c < |s.disk| && c != b ==> Content(s', c) == Content(s, c))
  {
    var s' := Modify(s, b, k);
    assert k.Data? ==> VolOf(s').data == VolOf(s).data[b := k.bytes];
    assert !k.Data? ==> VolOf(s').data == VolOf(s).data;
  }
}
