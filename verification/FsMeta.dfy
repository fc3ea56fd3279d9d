/** Changing bitmaps and inodes: growing a file, and the updates that leave files alone. */
module FsMeta {
  import opened Codec
  import opened Bitmap
  import opened FsSpec
  import opened FsData

  /** Inode `i` has the same size, owns the same first `n` blocks with the same contents, and they
      are still in use. */
  ghost predicate Agree(d0: Disk, d1: Disk, sb: SuperBlock, i: nat, n: nat) {
    && InodeAt(d1, sb, i).size == InodeAt(d0, sb, i).size
    && InodeAt(d1, sb, i).indirect == InodeAt(d0, sb, i).indirect
    && forall j: nat :: j < n ==>
         && BlockOf(d1, sb, i, j) == BlockOf(d0, sb, i, j)
         && BlockAt(d1, BlockOf(d0, sb, i, j)) == BlockAt(d0, BlockOf(d0, sb, i, j))
         && (InData(sb, BlockOf(d0, sb, i, j)) && InUse(d0, sb, BlockOf(d0, sb, i, j)) ==>
               InUse(d1, sb, BlockOf(d0, sb, i, j)))
  }

  lemma AgreeInode(d0: Disk, d1: Disk, sb: SuperBlock, i: nat, n: nat)
    requires InodeOk(d0, sb, i, n) && Agree(d0, d1, sb, i, n)
    ensures InodeOk(d1, sb, i, n)
    ensures Contents(d1, sb, i) == Contents(d0, sb, i)
  {
    forall k: nat | k < n * BLOCK_SIZE
      ensures FileByte(d1, sb, i, k) == FileByte(d0, sb, i, k)
    {
      assert BlockOf(d1, sb, i, k / BLOCK_SIZE) == BlockOf(d0, sb, i, k / BLOCK_SIZE);
    }
    assert forall k: nat :: k < InodeAt(d0, sb, i).size ==> Contents(d1, sb, i)[k] == Contents(d0, sb, i)[k];
  }

  /** When every inode agrees, ownership and contents carry over. */
  lemma AgreeOwns(d0: Disk, d1: Disk, sb: SuperBlock, own: seq<nat>)
    requires Owns(d0, sb, own) && |d1| == |d0|
    requires forall i: nat :: i < |own| ==> Agree(d0, d1, sb, i, own[i])
    ensures Owns(d1, sb, own)
    ensures forall i: nat :: i < |own| ==> Contents(d1, sb, i) == Contents(d0, sb, i)
  {
    forall i: nat | i < |own|
      ensures InodeOk(d1, sb, i, own[i])
      ensures Contents(d1, sb, i) == Contents(d0, sb, i)
      ensures forall j: nat :: j < own[i] ==> BlockOf(d1, sb, i, j) == BlockOf(d0, sb, i, j)
    {
      assert InodeOk(d0, sb, i, own[i]) && Agree(d0, d1, sb, i, own[i]);
      AgreeInode(d0, d1, sb, i, own[i]);
    }
  }

  // ----- the data bitmap -----

  /** The disk with bit `g` of the bitmap at `start` set. */
  function MarkBit(disk: Disk, start: nat, g: nat): Disk
    requires start + g / BITS_PER_BLOCK < |disk|
  {
    var m := start + g / BITS_PER_BLOCK;
    disk[m := SetBit(disk[m], g % BITS_PER_BLOCK)]
  }

  /** Marking a bit sets exactly that bit of the bitmap. */
  lemma MarkBitExact(disk: Disk, start: nat, g: nat, h: nat)
    requires start + g / BITS_PER_BLOCK < |disk| && start + h / BITS_PER_BLOCK < |disk|
    ensures BitAt(MarkBit(disk, start, g), start, h) <==> h == g || BitAt(disk, start, h)
  {
    var m := start + g / BITS_PER_BLOCK;
    if h / BITS_PER_BLOCK == g / BITS_PER_BLOCK {
      SetBitExact(disk[m], g % BITS_PER_BLOCK, h % BITS_PER_BLOCK);
    }
  }

  /** Changing one block `m` that is neither the index block, nor an inode block, nor owned leaves
      every inode as it was. */
  lemma OtherBlock(disk: Disk, sb: SuperBlock, own: seq<nat>, m: nat, b: Block, i: nat)
    requires Owns(disk, sb, own) && i < |own| && 0 < m < |disk|
    requires !(sb.inodeStart <= m < sb.dataBmapStart)
    requires forall j: nat :: j < own[i] ==> BlockOf(disk, sb, i, j) != m
    requires forall c: nat :: InData(sb, c) && InUse(disk, sb, c) ==> InUse(disk[m := b], sb, c)
    ensures InodeAt(disk[m := b], sb, i) == InodeAt(disk, sb, i)
    ensures Agree(disk, disk[m := b], sb, i, own[i])
  {
    assert InodeOk(disk, sb, i, own[i]);
    InodeBlockInArea(sb, i, |disk|);
  }

  /** Marking a data block in use changes no file. */
  lemma MarkDataBit(disk: Disk, sb: SuperBlock, own: seq<nat>, g: nat)
    requires Owns(disk, sb, own) && g < (sb.dataStart - sb.dataBmapStart) * BITS_PER_BLOCK
    ensures sb.dataBmapStart + g / BITS_PER_BLOCK < sb.dataStart <= |disk|
    ensures var d1 := MarkBit(disk, sb.dataBmapStart, g);
      && Owns(d1, sb, own)
      && (forall i: nat :: i < |own| ==>
            Contents(d1, sb, i) == Contents(disk, sb, i) && InodeAt(d1, sb, i) == InodeAt(disk, sb, i))
      && (forall b: nat :: InData(sb, b) ==> (InUse(d1, sb, b) <==> b == sb.dataStart + g || InUse(disk, sb, b)))
  {
    BitmapBlockInArea(sb, g, |disk|);
    var m := sb.dataBmapStart + g / BITS_PER_BLOCK;
    var nb := SetBit(disk[m], g % BITS_PER_BLOCK);
    var d1 := MarkBit(disk, sb.dataBmapStart, g);
    forall b: nat | InData(sb, b)
      ensures InUse(d1, sb, b) <==> b == sb.dataStart + g || InUse(disk, sb, b)
    {
      BitmapBlockInArea(sb, b - sb.dataStart, |disk|);
      MarkBitExact(disk, sb.dataBmapStart, g, b - sb.dataStart);
    }
    forall i: nat | i < |own|
      ensures Agree(disk, d1, sb, i, own[i]) && InodeAt(d1, sb, i) == InodeAt(disk, sb, i)
    {
      assert InodeOk(disk, sb, i, own[i]);
      OtherBlock(disk, sb, own, m, nb, i);
    }
    AgreeOwns(disk, d1, sb, own);
  }

  lemma BitmapBlockInArea(sb: SuperBlock, g: nat, n: nat)
    requires LayoutOk(sb, n)
    ensures g < (sb.dataStart - sb.dataBmapStart) * BITS_PER_BLOCK
       <==> sb.dataBmapStart + g / BITS_PER_BLOCK < sb.dataStart
  {
  }

  /** No inode owns block `b`. */
  ghost predicate Unowned(disk: Disk, sb: SuperBlock, own: seq<nat>, b: nat) {
    forall i: nat, j: nat :: i < |own| && j < own[i] ==> BlockOf(disk, sb, i, j) != b
  }

  /** A block the bitmap says is free is owned by nobody. */
  lemma FreeIsUnowned(disk: Disk, sb: SuperBlock, own: seq<nat>, b: nat)
    requires Owns(disk, sb, own) && InData(sb, b) && !InUse(disk, sb, b)
    ensures Unowned(disk, sb, own, b)
  {
    forall i: nat, j: nat | i < |own| && j < own[i]
      ensures BlockOf(disk, sb, i, j) != b
    {
      assert InodeOk(disk, sb, i, own[i]);
    }
  }

  /** Clearing a block nobody owns changes no file. */
  lemma ClearUnowned(disk: Disk, sb: SuperBlock, own: seq<nat>, b: nat)
    requires Owns(disk, sb, own) && InData(sb, b) && Unowned(disk, sb, own, b)
    ensures var d1 := disk[b := ZeroBlock()];
      && Owns(d1, sb, own) && SameMeta(disk, d1, sb) && Unowned(d1, sb, own, b)
      && (forall i: nat :: i < |own| ==>
            Contents(d1, sb, i) == Contents(disk, sb, i) && InodeAt(d1, sb, i) == InodeAt(disk, sb, i))
  {
    var d1 := disk[b := ZeroBlock()];
    forall c: nat | InData(sb, c)
      ensures InUse(d1, sb, c) == InUse(disk, sb, c)
    {
      SameMetaInUse(disk, d1, sb, c);
    }
    forall i: nat | i < |own|
      ensures Agree(disk, d1, sb, i, own[i]) && InodeAt(d1, sb, i) == InodeAt(disk, sb, i)
    {
      OtherBlock(disk, sb, own, b, ZeroBlock(), i);
    }
    AgreeOwns(disk, d1, sb, own);
    forall i: nat, j: nat | i < |own| && j < own[i]
      ensures BlockOf(d1, sb, i, j) != b
    {
      assert Agree(disk, d1, sb, i, own[i]);
      assert BlockOf(disk, sb, i, j) != b;
    }
  }

  // ----- inodes -----

  function PutInodeAt(disk: Disk, sb: SuperBlock, i: nat, d: DiskInode): Disk
    requires InodeBlock(sb, i) < |disk|
  {
    var m := InodeBlock(sb, i);
    disk[m := PutSlot(disk[m], i % INODES_PER_BLOCK, d)]
  }

  /** Writing an inode changes that inode and no other. */
  lemma PutInodeAtGet(disk: Disk, sb: SuperBlock, i: nat, d: DiskInode, i2: nat)
    requires InodeBlock(sb, i) < |disk|
    ensures InodeAt(PutInodeAt(disk, sb, i, d), sb, i2) == if i2 == i then d else InodeAt(disk, sb, i2)
  {
    var m := InodeBlock(sb, i);
    if InodeBlock(sb, i2) == m {
      PutSlotGet(disk[m], i % INODES_PER_BLOCK, d, i2 % INODES_PER_BLOCK);
    }
  }

  /** Blocks outside the inode area are unaffected by writing an inode. */
  lemma PutInodeElsewhere(disk: Disk, sb: SuperBlock, i: nat, d: DiskInode, b: nat)
    requires LayoutOk(sb, |disk|) && i < MaxInodes(sb)
    ensures InodeBlock(sb, i) < |disk|
    ensures b == 0 || InData(sb, b) ==> BlockAt(PutInodeAt(disk, sb, i, d), b) == BlockAt(disk, b)
    ensures InData(sb, b) ==> InUse(PutInodeAt(disk, sb, i, d), sb, b) == InUse(disk, sb, b)
  {
    InodeBlockInArea(sb, i, |disk|);
  }

  lemma PutInodeOthers(disk: Disk, sb: SuperBlock, own: seq<nat>, i: nat, d: DiskInode, i2: nat)
    requires Owns(disk, sb, own) && i < |own| && i2 < |own| && i2 != i
    ensures InodeBlock(sb, i) < |disk|
    ensures Agree(disk, PutInodeAt(disk, sb, i, d), sb, i2, own[i2])
  {
    PutInodeElsewhere(disk, sb, i, d, 0);
    var d1 := PutInodeAt(disk, sb, i, d);
    PutInodeAtGet(disk, sb, i, d, i2);
    assert InodeOk(disk, sb, i2, own[i2]);
    forall j: nat | j < own[i2]
      ensures BlockOf(d1, sb, i2, j) == BlockOf(disk, sb, i2, j)
      ensures BlockAt(d1, BlockOf(disk, sb, i2, j)) == BlockAt(disk, BlockOf(disk, sb, i2, j))
      ensures InUse(d1, sb, BlockOf(disk, sb, i2, j))
    {
      PutInodeElsewhere(disk, sb, i, d, BlockOf(disk, sb, i2, j));
    }
  }

  /** Two inodes with the same block map. */
  predicate SameMap(d: DiskInode, e: DiskInode) {
    d.size == e.size && d.indirect == e.indirect && d.addresses == e.addresses
  }

  /** An update that keeps the block map, such as counting a link, changes no file. */
  lemma PutSameMap(disk: Disk, sb: SuperBlock, own: seq<nat>, i: nat, d: DiskInode)
    requires Owns(disk, sb, own) && i < |own| && SameMap(d, InodeAt(disk, sb, i))
    ensures InodeBlock(sb, i) < |disk|
    ensures var d1 := PutInodeAt(disk, sb, i, d);
      Owns(d1, sb, own) && forall i2: nat :: i2 < |own| ==> Contents(d1, sb, i2) == Contents(disk, sb, i2)
  {
    PutInodeElsewhere(disk, sb, i, d, 0);
    var d1 := PutInodeAt(disk, sb, i, d);
    forall i2: nat | i2 < |own|
      ensures Agree(disk, d1, sb, i2, own[i2])
    {
      if i2 == i {
        assert InodeOk(disk, sb, i, own[i]);
        PutSelf(disk, sb, own, i, d);
      } else {
        PutInodeOthers(disk, sb, own, i, d, i2);
      }
    }
    AgreeOwns(disk, d1, sb, own);
  }

  lemma PutSelf(disk: Disk, sb: SuperBlock, own: seq<nat>, i: nat, d: DiskInode)
    requires Owns(disk, sb, own) && i < |own|
    requires d.indirect == 0 && d.addresses == InodeAt(disk, sb, i).addresses
    ensures InodeBlock(sb, i) < |disk|
    ensures var d1 := PutInodeAt(disk, sb, i, d);
      && InodeAt(d1, sb, i) == d
      && forall j: nat :: j < own[i] ==>
           && BlockOf(d1, sb, i, j) == BlockOf(disk, sb, i, j)
           && BlockAt(d1, BlockOf(disk, sb, i, j)) == BlockAt(disk, BlockOf(disk, sb, i, j))
           && InUse(d1, sb, BlockOf(disk, sb, i, j))
  {
    PutInodeElsewhere(disk, sb, i, d, 0);
    PutInodeAtGet(disk, sb, i, d, i);
    assert InodeOk(disk, sb, i, own[i]);
    var d1 := PutInodeAt(disk, sb, i, d);
    forall j: nat | j < own[i]
      ensures BlockOf(d1, sb, i, j) == BlockOf(disk, sb, i, j)
      ensures BlockAt(d1, BlockOf(disk, sb, i, j)) == BlockAt(disk, BlockOf(disk, sb, i, j))
      ensures InUse(d1, sb, BlockOf(disk, sb, i, j))
    {
      PutInodeElsewhere(disk, sb, i, d, BlockOf(disk, sb, i, j));
    }
  }

  lemma StillNoSharing(d0: Disk, d1: Disk, sb: SuperBlock, own: seq<nat>, i: nat, n: nat)
    requires NoSharing(d0, sb, own) && i < |own|
    requires forall a: nat, j: nat :: a < |own| && j < own[a] && (a == i ==> j < n) ==>
               BlockOf(d1, sb, a, j) == BlockOf(d0, sb, a, j)
    requires n > own[i] ==> n == own[i] + 1 && Unowned(d0, sb, own, BlockOf(d1, sb, i, own[i]))
    ensures NoSharing(d1, sb, own[i := n])
  {
    hide FsSpec.BlockOf;
    var own1 := own[i := n];
    forall a: nat, j: nat, c: nat, l: nat {:trigger BlockOf(d1, sb, a, j), BlockOf(d1, sb, c, l)}
      | a < |own| && c < |own| && j < own1[a] && l < own1[c] && BlockOf(d1, sb, a, j) == BlockOf(d1, sb, c, l)
      ensures a == c && j == l
    {
      var x, y := BlockOf(d0, sb, a, j), BlockOf(d0, sb, c, l);
    }
  }

  /** Ownership when inode `i` alone was rewritten. */
  lemma OwnsFromParts(d0: Disk, d1: Disk, sb: SuperBlock, own: seq<nat>, i: nat, n: nat)
    requires Owns(d0, sb, own) && |d1| == |d0| && i < |own|
    requires forall i2: nat :: i2 < |own| && i2 != i ==> Agree(d0, d1, sb, i2, own[i2])
    requires InodeOk(d1, sb, i, n)
    requires forall j: nat :: j < n && j < own[i] ==> BlockOf(d1, sb, i, j) == BlockOf(d0, sb, i, j)
    requires n > own[i] ==> n == own[i] + 1 && Unowned(d0, sb, own, BlockOf(d1, sb, i, own[i]))
    ensures Owns(d1, sb, own[i := n])
    ensures forall i2: nat :: i2 < |own| && i2 != i ==> Contents(d1, sb, i2) == Contents(d0, sb, i2)
  {
    forall i2: nat | i2 < |own| && i2 != i
      ensures InodeOk(d1, sb, i2, own[i2])
      ensures Contents(d1, sb, i2) == Contents(d0, sb, i2)
      ensures forall j: nat :: j < own[i2] ==> BlockOf(d1, sb, i2, j) == BlockOf(d0, sb, i2, j)
    {
      assert InodeOk(d0, sb, i2, own[i2]) && Agree(d0, d1, sb, i2, own[i2]);
      AgreeInode(d0, d1, sb, i2, own[i2]);
    }
    StillNoSharing(d0, d1, sb, own, i, n);
  }

  /** `initialize`: the inode owns nothing and its file is empty; the others are unaffected. */
  lemma PutFresh(disk: Disk, sb: SuperBlock, own: seq<nat>, i: nat, kind: InodeType)
    requires Owns(disk, sb, own) && i < |own|
    ensures InodeBlock(sb, i) < |disk|
    ensures var d1 := PutInodeAt(disk, sb, i, FreshInode(kind));
      Owns(d1, sb, own[i := 0]) && Contents(d1, sb, i) == [] && SameOthers(disk, d1, sb, i)
  {
    var d := FreshInode(kind);
    PutInodeElsewhere(disk, sb, i, d, 0);
    var d1 := PutInodeAt(disk, sb, i, d);
    PutInodeAtGet(disk, sb, i, d, i);
    forall i2: nat | i2 < |own| && i2 != i
      ensures Agree(disk, d1, sb, i2, own[i2]) && InodeAt(d1, sb, i2) == InodeAt(disk, sb, i2)
    {
      PutInodeOthers(disk, sb, own, i, d, i2);
      PutInodeAtGet(disk, sb, i, d, i2);
    }
    OwnsFromParts(disk, d1, sb, own, i, 0);
  }

  /** The bytes of a file after a write of its inode that keeps its blocks and raises its size. */
  lemma RaisedSize(d0: Disk, d1: Disk, sb: SuperBlock, i: nat, n: nat, size: nat)
    requires InodeOk(d0, sb, i, n) && InodeAt(d0, sb, i).size <= size <= n * BLOCK_SIZE
    requires InodeAt(d1, sb, i).size == size && InodeAt(d1, sb, i).indirect == 0
    requires forall j: nat :: j < n ==>
      && BlockOf(d1, sb, i, j) == BlockOf(d0, sb, i, j)
      && BlockAt(d1, BlockOf(d0, sb, i, j)) == BlockAt(d0, BlockOf(d0, sb, i, j))
      && InUse(d1, sb, BlockOf(d0, sb, i, j))
    ensures InodeOk(d1, sb, i, n)
    ensures Contents(d1, sb, i) == Contents(d0, sb, i) + Zeros(size - InodeAt(d0, sb, i).size)
  {
    hide FsSpec.InodeAt, FsSpec.BlockOf, FsSpec.BitAt;
    forall k: nat | k < n * BLOCK_SIZE
      ensures FileByte(d1, sb, i, k) == FileByte(d0, sb, i, k)
    {
      assert k / BLOCK_SIZE < n;
      assert BlockOf(d1, sb, i, k / BLOCK_SIZE) == BlockOf(d0, sb, i, k / BLOCK_SIZE);
    }
    hide FsSpec.FileByte;
    forall k: nat | k < size
      ensures Contents(d1, sb, i)[k] == (Contents(d0, sb, i) + Zeros(size - InodeAt(d0, sb, i).size))[k]
    {
      assert FileByte(d1, sb, i, k) == FileByte(d0, sb, i, k);
    }
  }

  /** Growing the size inside the blocks already owned appends zeros. */
  lemma PutSize(disk: Disk, sb: SuperBlock, own: seq<nat>, i: nat, n: u64)
    requires Owns(disk, sb, own) && i < |own|
    requires InodeAt(disk, sb, i).size <= n <= own[i] * BLOCK_SIZE
    ensures InodeBlock(sb, i) < |disk|
    ensures var was := InodeAt(disk, sb, i);
      var d1 := PutInodeAt(disk, sb, i, was.(size := n));
      && Owns(d1, sb, own)
      && Contents(d1, sb, i) == Contents(disk, sb, i) + Zeros(n - was.size)
      && SameOthers(disk, d1, sb, i)
  {
    hide FsSpec.InodeAt, FsSpec.BlockOf, FsSpec.BitAt, FsSpec.FileByte;
    var was := InodeAt(disk, sb, i);
    assert InodeOk(disk, sb, i, own[i]);
    var d: DiskInode := was.(size := n);
    PutSelf(disk, sb, own, i, d);
    var d1 := PutInodeAt(disk, sb, i, d);
    hide PutInodeAt;
    RaisedSize(disk, d1, sb, i, own[i], n);
    forall i2: nat | i2 < |own| && i2 != i
      ensures Agree(disk, d1, sb, i2, own[i2]) && InodeAt(d1, sb, i2) == InodeAt(disk, sb, i2)
    {
      PutInodeOthers(disk, sb, own, i, d, i2);
      PutInodeAtGet(disk, sb, i, d, i2);
    }
    OwnsFromParts(disk, d1, sb, own, i, own[i]);
    assert own[i := own[i]] == own;
  }
}
