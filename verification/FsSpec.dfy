/** The disk as the file system reads it: the layout, the inode table, the blocks of a file and
    its bytes, and what a well-formed disk is. */
module FsSpec {
  import opened Codec
  import opened Bitmap

  function BlockAt(disk: Disk, b: nat): Block {
    if b < |disk| then disk[b] else ZeroBlock()
  }

  // ----- layout -----

  /** The regions in order: two blocks before the inode bitmap, inode bitmap, inodes, data bitmap,
      data; and a bitmap bit for every data block. The device is small enough for inode numbers to
      fit in 64 bits. */
  predicate LayoutOk(sb: SuperBlock, n: nat) {
    && 2 <= sb.inodeBmapStart < sb.inodeStart
    && sb.inodeStart + sb.inodeBlocks == sb.dataBmapStart < sb.dataStart
    && sb.dataStart + sb.dataBlocks <= n
    && sb.dataBlocks <= (sb.dataStart - sb.dataBmapStart) * BITS_PER_BLOCK
    && n <= 0x800_0000_0000_0000
  }

  function MaxInodes(sb: SuperBlock): nat {
    sb.inodeBlocks * INODES_PER_BLOCK
  }

  function InodeBlock(sb: SuperBlock, i: nat): nat {
    sb.inodeStart + i / INODES_PER_BLOCK
  }

  function InodeAt(disk: Disk, sb: SuperBlock, i: nat): DiskInode {
    GetSlot(BlockAt(disk, InodeBlock(sb, i)), i % INODES_PER_BLOCK)
  }

  predicate InData(sb: SuperBlock, b: nat) {
    sb.dataStart <= b < sb.dataStart + sb.dataBlocks
  }

  /** Bit `g` of the bitmap that starts in block `start`. */
  predicate BitAt(disk: Disk, start: nat, g: nat) {
    Bit(BlockAt(disk, start + g / BITS_PER_BLOCK), g % BITS_PER_BLOCK)
  }

  /** The bitmap says data block `b` is in use. */
  predicate InUse(disk: Disk, sb: SuperBlock, b: nat)
    requires b >= sb.dataStart
  {
    BitAt(disk, sb.dataBmapStart, b - sb.dataStart)
  }

  // ----- files -----

  function BlocksFor(size: nat): nat {
    (size + BLOCK_SIZE - 1) / BLOCK_SIZE
  }

  /** The least number of blocks with room for the size. */
  lemma BlocksForIsLeast(size: nat, n: nat)
    ensures BlocksFor(size) <= n <==> size <= n * BLOCK_SIZE
  {
  }

  /** `get_bid`: the block that holds part `j` of a file. */
  function Bid(disk: Disk, d: DiskInode, j: nat): nat {
    if j < N_DIRECT then d.addresses[j]
    else if j < MAX_BLOCKS_PER_INODE then WordAt(BlockAt(disk, d.indirect), j - N_DIRECT)
    else 0
  }

  function BlockOf(disk: Disk, sb: SuperBlock, i: nat, j: nat): nat {
    Bid(disk, InodeAt(disk, sb, i), j)
  }

  function FileByte(disk: Disk, sb: SuperBlock, i: nat, k: nat): byte {
    BlockAt(disk, BlockOf(disk, sb, i, k / BLOCK_SIZE))[k % BLOCK_SIZE]
  }

  /** The bytes of file `i`. */
  function Contents(disk: Disk, sb: SuperBlock, i: nat): (f: seq<byte>)
    ensures |f| == InodeAt(disk, sb, i).size
  {
    seq(InodeAt(disk, sb, i).size, (k: nat) => FileByte(disk, sb, i, k))
  }

  // ----- well-formed disks -----

  /** Inode `i` owns the first `n` of its blocks; its size fits in them, and its bytes past the
      size are zero. */
  ghost predicate InodeOk(disk: Disk, sb: SuperBlock, i: nat, n: nat) {
    && n <= MAX_BLOCKS_PER_INODE
    && InodeAt(disk, sb, i).size <= n * BLOCK_SIZE
    && InodeAt(disk, sb, i).indirect == 0
    && (forall j: nat :: j < n ==> InData(sb, BlockOf(disk, sb, i, j)) && InUse(disk, sb, BlockOf(disk, sb, i, j)))
    && (forall k: nat :: InodeAt(disk, sb, i).size <= k < n * BLOCK_SIZE ==> FileByte(disk, sb, i, k) == 0)
  }

  /** No block is among the first `own[i]` blocks of inode `i` and again among those of another. */
  ghost predicate NoSharing(disk: Disk, sb: SuperBlock, own: seq<nat>) {
    forall i: nat, j: nat, i2: nat, j2: nat {:trigger BlockOf(disk, sb, i, j), BlockOf(disk, sb, i2, j2)} ::
      i < |own| && i2 < |own| && j < own[i] && j2 < own[i2] && BlockOf(disk, sb, i, j) == BlockOf(disk, sb, i2, j2)
      ==> i == i2 && j == j2
  }

  /** Inode `i` owns its first `own[i]` blocks, and no block is owned twice. */
  ghost predicate Owns(disk: Disk, sb: SuperBlock, own: seq<nat>) {
    && LayoutOk(sb, |disk|)
    && |own| == MaxInodes(sb)
    && (forall i: nat :: i < |own| ==> InodeOk(disk, sb, i, own[i]))
    && NoSharing(disk, sb, own)
  }

  /** What every inode owns by its size. */
  function Sizes(disk: Disk, sb: SuperBlock): (own: seq<nat>)
    ensures |own| == MaxInodes(sb)
  {
    seq(MaxInodes(sb), (i: nat) => BlocksFor(InodeAt(disk, sb, i).size))
  }

  ghost predicate WellFormed(disk: Disk, sb: SuperBlock) {
    Owns(disk, sb, Sizes(disk, sb))
  }

  /** An owner may give up blocks it does not need. */
  lemma OwnLess(disk: Disk, sb: SuperBlock, own: seq<nat>, less: seq<nat>)
    requires Owns(disk, sb, own) && |less| == |own|
    requires forall i: nat :: i < |own| ==> less[i] <= own[i] && InodeAt(disk, sb, i).size <= less[i] * BLOCK_SIZE
    ensures Owns(disk, sb, less)
  {
    forall i: nat | i < |less|
      ensures InodeOk(disk, sb, i, less[i])
    {
      assert InodeOk(disk, sb, i, own[i]);
    }
  }

  lemma OwnsIsWellFormed(disk: Disk, sb: SuperBlock, own: seq<nat>)
    requires Owns(disk, sb, own)
    ensures WellFormed(disk, sb)
  {
    forall i: nat | i < |own|
      ensures BlocksFor(InodeAt(disk, sb, i).size) <= own[i]
    {
      assert InodeOk(disk, sb, i, own[i]);
    }
    OwnLess(disk, sb, own, Sizes(disk, sb));
  }

  // ----- what a write may change -----

  /** Nothing before the data area differs. */
  predicate SameMeta(d0: Disk, d1: Disk, sb: SuperBlock) {
    |d0| == |d1| && sb.dataStart <= |d0| && d0[..sb.dataStart] == d1[..sb.dataStart]
  }

  lemma SameMetaKeeps(d0: Disk, d1: Disk, sb: SuperBlock, i: nat, j: nat)
    requires LayoutOk(sb, |d0|) && SameMeta(d0, d1, sb) && i < MaxInodes(sb)
    requires InodeAt(d0, sb, i).indirect == 0
    ensures InodeAt(d1, sb, i) == InodeAt(d0, sb, i)
    ensures BlockOf(d1, sb, i, j) == BlockOf(d0, sb, i, j)
  {
    InodeBlockInArea(sb, i, |d0|);
    var b := InodeBlock(sb, i);
    assert d0[b] == d0[..sb.dataStart][b] && d1[b] == d1[..sb.dataStart][b];
    assert d0[0] == d0[..sb.dataStart][0] && d1[0] == d1[..sb.dataStart][0];
  }

  lemma InodeBlockInArea(sb: SuperBlock, i: nat, n: nat)
    requires LayoutOk(sb, n)
    ensures i < MaxInodes(sb) <==> InodeBlock(sb, i) < sb.dataBmapStart
  {
  }

  lemma SameMetaInUse(d0: Disk, d1: Disk, sb: SuperBlock, b: nat)
    requires LayoutOk(sb, |d0|) && SameMeta(d0, d1, sb) && InData(sb, b)
    ensures InUse(d1, sb, b) == InUse(d0, sb, b)
  {
    var m := sb.dataBmapStart + (b - sb.dataStart) / BITS_PER_BLOCK;
    assert d0[m] == d0[..sb.dataStart][m] && d1[m] == d1[..sb.dataStart][m];
  }
}
