/** Free data blocks: how each write changes their set, and what two files in the indirect range do
    to each other. */
module FsFree {
  import opened Codec
  import opened Bitmap
  import opened FsSpec
  import opened FsMeta
  import opened FsGrow

  /** The data blocks the bitmap says are not in use. */
  ghost function FreeBlocks(disk: Disk, sb: SuperBlock): set<nat> {
    set b: nat | sb.dataStart <= b < sb.dataStart + sb.dataBlocks && !InUse(disk, sb, b)
  }

  /** The blocks of the data bitmap are the same. */
  predicate SameDataBitmap(d0: Disk, d1: Disk, sb: SuperBlock) {
    |d1| == |d0| && forall m: nat :: sb.dataBmapStart <= m < sb.dataStart ==> BlockAt(d1, m) == BlockAt(d0, m)
  }

  lemma SameFree(d0: Disk, d1: Disk, sb: SuperBlock)
    requires LayoutOk(sb, |d0|) && SameDataBitmap(d0, d1, sb)
    ensures FreeBlocks(d1, sb) == FreeBlocks(d0, sb)
  {
    forall b: nat | InData(sb, b)
      ensures InUse(d1, sb, b) == InUse(d0, sb, b)
    {
      BitmapBlockInArea(sb, b - sb.dataStart, |d0|);
    }
  }

  /** Setting a bit takes one block, or none if the bit is past the data blocks. */
  lemma MarkFree(disk: Disk, sb: SuperBlock, g: nat)
    requires LayoutOk(sb, |disk|) && g < (sb.dataStart - sb.dataBmapStart) * BITS_PER_BLOCK
    ensures sb.dataBmapStart + g / BITS_PER_BLOCK < sb.dataStart
    ensures FreeBlocks(MarkBit(disk, sb.dataBmapStart, g), sb) == FreeBlocks(disk, sb) - {sb.dataStart + g}
  {
    hide FsSpec.BitAt;
    BitmapBlockInArea(sb, g, |disk|);
    forall b: nat | InData(sb, b)
      ensures InUse(MarkBit(disk, sb.dataBmapStart, g), sb, b) <==> b == sb.dataStart + g || InUse(disk, sb, b)
    {
      BitmapBlockInArea(sb, b - sb.dataStart, |disk|);
      MarkBitExact(disk, sb.dataBmapStart, g, b - sb.dataStart);
    }
  }

  lemma PutInodeFree(disk: Disk, sb: SuperBlock, i: nat, d: DiskInode)
    requires LayoutOk(sb, |disk|) && i < MaxInodes(sb)
    ensures InodeBlock(sb, i) < |disk| && FreeBlocks(PutInodeAt(disk, sb, i, d), sb) == FreeBlocks(disk, sb)
  {
    InodeBlockInArea(sb, i, |disk|);
    SameFree(disk, PutInodeAt(disk, sb, i, d), sb);
  }

  lemma SetBidFree(disk: Disk, sb: SuperBlock, i: nat, j: nat, b: u64)
    requires LayoutOk(sb, |disk|) && i < MaxInodes(sb) && j < MAX_BLOCKS_PER_INODE
    requires InodeBlock(sb, i) < |disk| && InodeAt(disk, sb, i).indirect == 0
    ensures FreeBlocks(SetBid(disk, sb, i, j, b), sb) == FreeBlocks(disk, sb)
  {
    InodeBlockInArea(sb, i, |disk|);
    SameFree(disk, SetBid(disk, sb, i, j, b), sb);
  }

  /** Writing outside the inode table changes no inode. */
  lemma InodesElsewhere(disk: Disk, sb: SuperBlock, m: nat, nb: Block, i: nat)
    requires LayoutOk(sb, |disk|) && m < |disk| && !(sb.inodeStart <= m < sb.dataBmapStart) && i < MaxInodes(sb)
    ensures InodeAt(disk[m := nb], sb, i) == InodeAt(disk, sb, i)
  {
    InodeBlockInArea(sb, i, |disk|);
  }

  /** Setting an address keeps the rest of the inode, whatever the disk holds. */
  lemma SetBidInode(disk: Disk, sb: SuperBlock, i: nat, j: nat, b: u64)
    requires LayoutOk(sb, |disk|) && i < MaxInodes(sb) && j < MAX_BLOCKS_PER_INODE
    requires InodeBlock(sb, i) < |disk| && InodeAt(disk, sb, i).indirect == 0
    ensures InodeAt(SetBid(disk, sb, i, j, b), sb, i).size == InodeAt(disk, sb, i).size
    ensures InodeAt(SetBid(disk, sb, i, j, b), sb, i).indirect == 0
  {
    hide FsSpec.InodeAt;
    var d := InodeAt(disk, sb, i);
    if j < N_DIRECT {
      PutInodeAtGet(disk, sb, i, d.(addresses := d.addresses[j := b]), i);
    } else {
      InodesElsewhere(disk, sb, 0, PutWord(disk[0], j - N_DIRECT, b), i);
    }
  }

  /** Two files past the direct range are never in order: both have their next block in word 0 of the
      same index block. */
  lemma TwoBigFilesShare(disk: Disk, sb: SuperBlock, i: nat, i2: nat)
    requires i < MaxInodes(sb) && i2 < MaxInodes(sb) && i != i2
    requires InodeAt(disk, sb, i).size > N_DIRECT * BLOCK_SIZE && InodeAt(disk, sb, i2).size > N_DIRECT * BLOCK_SIZE
    ensures !WellFormed(disk, sb)
  {
    hide FsSpec.InodeAt, FsSpec.BitAt;
    var own := Sizes(disk, sb);
    if WellFormed(disk, sb) {
      assert InodeOk(disk, sb, i, own[i]) && InodeOk(disk, sb, i2, own[i2]);
      IndirectIsShared(disk, sb, i, i2);
      assert false;
    }
  }

  /** Some other file is past the direct range if file `i` is not alone there. */
  lemma OtherBigFile(disk: Disk, sb: SuperBlock, i: nat) returns (i2: nat)
    requires !AloneIndirect(Sizes(disk, sb), i)
    ensures i2 < MaxInodes(sb) && i2 != i && InodeAt(disk, sb, i2).size > N_DIRECT * BLOCK_SIZE
  {
    hide FsSpec.InodeAt;
    i2 :| i2 < |Sizes(disk, sb)| && i2 != i && Sizes(disk, sb)[i2] > N_DIRECT;
  }
}
