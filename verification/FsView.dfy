/** From disks to the file system as its users see it. */
module FsView {
  import opened Codec
  import opened Bitmap
  import opened FsSpec
  import opened FsData
  import opened FsMeta
  import opened FsGrow
  import Tree

  function NodeAt(disk: Disk, sb: SuperBlock, i: nat): Tree.Node {
    Tree.Node(InodeAt(disk, sb, i).kind, InodeAt(disk, sb, i).links, Contents(disk, sb, i))
  }

  function Nodes(disk: Disk, sb: SuperBlock): (v: seq<Tree.Node>)
    ensures |v| == MaxInodes(sb)
  {
    seq(MaxInodes(sb), (i: nat) => NodeAt(disk, sb, i))
  }

  /** The inode bitmap has a bit for inode `i`, and it is set. The bitmap can be shorter than the
      inode table. */
  predicate InodeUsed(disk: Disk, sb: SuperBlock, i: nat) {
    && sb.inodeBmapStart <= sb.inodeStart
    && i < (sb.inodeStart - sb.inodeBmapStart) * BITS_PER_BLOCK
    && BitAt(disk, sb.inodeBmapStart, i)
  }

  function Used(disk: Disk, sb: SuperBlock): set<nat> {
    set i: nat | i < MaxInodes(sb) && InodeUsed(disk, sb, i)
  }

  function View(disk: Disk, sb: SuperBlock): (v: Tree.Fs)
    ensures |v.nodes| == MaxInodes(sb)
  {
    Tree.Fs(Nodes(disk, sb), Used(disk, sb))
  }

  /** The inode bitmap is the same on both disks. */
  predicate SameInodeBitmap(d0: Disk, d1: Disk, sb: SuperBlock) {
    |d0| == |d1| && forall m: nat :: sb.inodeBmapStart <= m < sb.inodeStart ==> BlockAt(d1, m) == BlockAt(d0, m)
  }

  lemma SameUsed(d0: Disk, d1: Disk, sb: SuperBlock)
    requires LayoutOk(sb, |d0|) && SameInodeBitmap(d0, d1, sb)
    ensures Used(d1, sb) == Used(d0, sb)
  {
    forall i: nat | i < (sb.inodeStart - sb.inodeBmapStart) * BITS_PER_BLOCK
      ensures BitAt(d1, sb.inodeBmapStart, i) == BitAt(d0, sb.inodeBmapStart, i)
    {
      assert sb.inodeBmapStart + i / BITS_PER_BLOCK < sb.inodeStart;
    }
    assert forall i: nat :: InodeUsed(d1, sb, i) <==> InodeUsed(d0, sb, i);
  }

  /** When only node `i` changed, the view is updated at `i`. */
  lemma ViewUpdate(d0: Disk, d1: Disk, sb: SuperBlock, i: nat)
    requires LayoutOk(sb, |d0|) && i < MaxInodes(sb) && SameOthers(d0, d1, sb, i) && SameInodeBitmap(d0, d1, sb)
    ensures View(d1, sb) == Tree.Fs(Nodes(d0, sb)[i := NodeAt(d1, sb, i)], Used(d0, sb))
  {
    SameUsed(d0, d1, sb);
    assert forall i2: nat :: i2 < MaxInodes(sb) && i2 != i ==> NodeAt(d1, sb, i2) == NodeAt(d0, sb, i2);
  }

  lemma MetaSameBitmap(d0: Disk, d1: Disk, sb: SuperBlock)
    requires LayoutOk(sb, |d0|) && SameMeta(d0, d1, sb)
    ensures SameInodeBitmap(d0, d1, sb)
  {
    forall m: nat | sb.inodeBmapStart <= m < sb.inodeStart
      ensures BlockAt(d1, m) == BlockAt(d0, m)
    {
      assert d0[m] == d0[..sb.dataStart][m] && d1[m] == d1[..sb.dataStart][m];
    }
  }

  lemma PutInodeBitmap(disk: Disk, sb: SuperBlock, i: nat, d: DiskInode)
    requires LayoutOk(sb, |disk|) && i < MaxInodes(sb)
    ensures InodeBlock(sb, i) < |disk| && SameInodeBitmap(disk, PutInodeAt(disk, sb, i, d), sb)
  {
    InodeBlockInArea(sb, i, |disk|);
  }

  /** `d1` is `d0` with the bytes of file `i` from `off` on replaced by `buf`, and no other change
      to any file, inode or bitmap. */
  ghost predicate Wrote(d0: Disk, d1: Disk, sb: SuperBlock, own: seq<nat>, i: nat, off: nat, buf: seq<byte>) {
    && i < |own| && off + |buf| <= |Contents(d0, sb, i)|
    && Owns(d1, sb, own)
    && SameMeta(d0, d1, sb)
    && SameOthers(d0, d1, sb, i)
    && InodeAt(d1, sb, i) == InodeAt(d0, sb, i)
    && Contents(d1, sb, i) == Splice(Contents(d0, sb, i), off, buf)
  }

  lemma WroteNothing(disk: Disk, sb: SuperBlock, own: seq<nat>, i: nat, off: nat)
    requires Owns(disk, sb, own) && i < |own| && off <= |Contents(disk, sb, i)|
    ensures Wrote(disk, disk, sb, own, i, off, [])
  {
  }

  lemma WroteMore(d0: Disk, d1: Disk, d2: Disk, sb: SuperBlock, own: seq<nat>, i: nat, off: nat,
      t: seq<byte>, u: seq<byte>)
    requires Wrote(d0, d1, sb, own, i, off, t) && Wrote(d1, d2, sb, own, i, off + |t|, u)
    ensures Wrote(d0, d2, sb, own, i, off, t + u)
  {
    SpliceTwice(Contents(d0, sb, i), off, t, u);
  }

  lemma WroteOthers(d0: Disk, d1: Disk, sb: SuperBlock, own: seq<nat>, i: nat, off: nat, buf: seq<byte>)
    requires Wrote(d0, d1, sb, own, i, off, buf)
    ensures OtherInodes(d0, d1, sb, i)
  {
  }

  /** A write to the data of node `i` is a write of the view. */
  lemma WrittenView(d0: Disk, d1: Disk, sb: SuperBlock, own: seq<nat>, i: nat, off: nat, buf: seq<byte>)
    requires Wrote(d0, d1, sb, own, i, off, buf)
    ensures WellFormed(d1, sb)
    ensures View(d1, sb) == Tree.Written(View(d0, sb), i, off, buf)
  {
    OwnsIsWellFormed(d1, sb, own);
    MetaSameBitmap(d0, d1, sb);
    ViewUpdate(d0, d1, sb, i);
  }

  /** `d1` differs from `d0` in nothing a user sees; `own` is what inodes own on `d1`. */
  ghost predicate SameView(d0: Disk, d1: Disk, sb: SuperBlock, own: seq<nat>) {
    Owns(d1, sb, own) && |d1| == |d0| && View(d1, sb) == View(d0, sb)
  }

  lemma SameNodes(d0: Disk, d1: Disk, sb: SuperBlock, own: seq<nat>)
    requires Owns(d1, sb, own) && LayoutOk(sb, |d0|) && SameInodeBitmap(d0, d1, sb)
    requires forall i: nat :: i < |own| ==> NodeAt(d1, sb, i) == NodeAt(d0, sb, i)
    ensures SameView(d0, d1, sb, own)
  {
    SameUsed(d0, d1, sb);
  }

  /** Marking a bit of the data bitmap changes no view. */
  lemma MarkSameView(disk: Disk, sb: SuperBlock, own: seq<nat>, g: nat)
    requires Owns(disk, sb, own) && g < (sb.dataStart - sb.dataBmapStart) * BITS_PER_BLOCK
    ensures sb.dataBmapStart + g / BITS_PER_BLOCK < |disk|
    ensures SameView(disk, MarkBit(disk, sb.dataBmapStart, g), sb, own)
  {
    hide FsSpec.InodeAt;
    MarkDataBit(disk, sb, own, g);
    SameNodes(disk, MarkBit(disk, sb.dataBmapStart, g), sb, own);
  }

  lemma ClearSameView(disk: Disk, sb: SuperBlock, own: seq<nat>, b: nat)
    requires Owns(disk, sb, own) && InData(sb, b) && Unowned(disk, sb, own, b)
    ensures SameView(disk, disk[b := ZeroBlock()], sb, own)
  {
    hide FsSpec.InodeAt;
    ClearUnowned(disk, sb, own, b);
    MetaSameBitmap(disk, disk[b := ZeroBlock()], sb);
    SameNodes(disk, disk[b := ZeroBlock()], sb, own);
  }

  lemma GrowSameView(disk: Disk, sb: SuperBlock, own: seq<nat>, i: nat, b: u64)
    requires Owns(disk, sb, own) && i < |own| && own[i] < MAX_BLOCKS_PER_INODE && Spare(disk, sb, own, b)
    requires own[i] < N_DIRECT || AloneIndirect(own, i)
    ensures InodeBlock(sb, i) < |disk| && InodeAt(disk, sb, i).indirect < |disk|
    ensures SameView(disk, SetBid(disk, sb, i, own[i], b), sb, own[i := own[i] + 1])
  {
    hide FsSpec.InodeAt, FsGrow.SetBid;
    GrowByOne(disk, sb, own, i, b);
    SetBidSelf(disk, sb, own, i, b);
    SetBidBitmap(disk, sb, i, own[i], b);
    SameNodes(disk, SetBid(disk, sb, i, own[i], b), sb, own[i := own[i] + 1]);
  }

  lemma SetBidBitmap(disk: Disk, sb: SuperBlock, i: nat, j: nat, b: u64)
    requires LayoutOk(sb, |disk|) && i < MaxInodes(sb) && j < MAX_BLOCKS_PER_INODE
    requires InodeBlock(sb, i) < |disk| && InodeAt(disk, sb, i).indirect == 0
    ensures SameInodeBitmap(disk, SetBid(disk, sb, i, j, b), sb)
    ensures InodeAt(SetBid(disk, sb, i, j, b), sb, i).links == InodeAt(disk, sb, i).links
  {
    hide FsSpec.InodeAt;
    var d := InodeAt(disk, sb, i);
    InodeBlockInArea(sb, i, |disk|);
    if j < N_DIRECT {
      var e: DiskInode := d.(addresses := d.addresses[j := b]);
      PutInodeBitmap(disk, sb, i, e);
      PutInodeAtGet(disk, sb, i, e, i);
    } else {
      IndexWriteKeeps(disk, sb, PutWord(disk[0], j - N_DIRECT, b), i, 0);
    }
  }

  /** Setting a larger size within the owned blocks grows the node with zeros. */
  lemma SizeView(disk: Disk, sb: SuperBlock, own: seq<nat>, i: nat, n: u64)
    requires Owns(disk, sb, own) && i < |own|
    requires InodeAt(disk, sb, i).size <= n <= own[i] * BLOCK_SIZE
    ensures InodeBlock(sb, i) < |disk|
    ensures var d1 := PutInodeAt(disk, sb, i, InodeAt(disk, sb, i).(size := n));
      WellFormed(d1, sb) && View(d1, sb) == Tree.Grown(View(disk, sb), i, n)
  {
    hide FsSpec.InodeAt;
    var d: DiskInode := InodeAt(disk, sb, i).(size := n);
    PutSize(disk, sb, own, i, n);
    PutInodeBitmap(disk, sb, i, d);
    PutInodeAtGet(disk, sb, i, d, i);
    var d1 := PutInodeAt(disk, sb, i, d);
    OwnsIsWellFormed(d1, sb, own);
    ViewUpdate(disk, d1, sb, i);
  }

  // ----- inode allocation -----

  /** Marking bit `g` of the inode bitmap hands out inode `g` and changes no node. */
  lemma MarkInodeBit(disk: Disk, sb: SuperBlock, own: seq<nat>, g: nat)
    requires Owns(disk, sb, own) && g < (sb.inodeStart - sb.inodeBmapStart) * BITS_PER_BLOCK
    ensures sb.inodeBmapStart + g / BITS_PER_BLOCK < |disk|
    ensures var d1 := MarkBit(disk, sb.inodeBmapStart, g);
      && Owns(d1, sb, own) && Nodes(d1, sb) == Nodes(disk, sb)
      && (forall i: nat :: i < |own| ==> InodeAt(d1, sb, i) == InodeAt(disk, sb, i))
      && Used(d1, sb) == if g < MaxInodes(sb) then Used(disk, sb) + {g} else Used(disk, sb)
  {
    hide FsSpec.InodeAt;
    var m := sb.inodeBmapStart + g / BITS_PER_BLOCK;
    assert m < sb.inodeStart;
    var nb := SetBit(disk[m], g % BITS_PER_BLOCK);
    var d1 := MarkBit(disk, sb.inodeBmapStart, g);
    forall i: nat | i < |own|
      ensures Agree(disk, d1, sb, i, own[i]) && InodeAt(d1, sb, i) == InodeAt(disk, sb, i)
    {
      NotABitmapBlock(disk, sb, own, m, nb, i);
    }
    AgreeOwns(disk, d1, sb, own);
    assert forall i: nat :: i < |own| ==> NodeAt(d1, sb, i) == NodeAt(disk, sb, i);
    MarkUsed(disk, sb, g);
  }

  lemma NotABitmapBlock(disk: Disk, sb: SuperBlock, own: seq<nat>, m: nat, nb: Block, i: nat)
    requires Owns(disk, sb, own) && i < |own| && sb.inodeBmapStart <= m < sb.inodeStart
    ensures m < |disk|
    ensures Agree(disk, disk[m := nb], sb, i, own[i]) && InodeAt(disk[m := nb], sb, i) == InodeAt(disk, sb, i)
  {
    assert InodeOk(disk, sb, i, own[i]);
    OtherBlock(disk, sb, own, m, nb, i);
  }

  lemma MarkUsed(disk: Disk, sb: SuperBlock, g: nat)
    requires LayoutOk(sb, |disk|) && g < (sb.inodeStart - sb.inodeBmapStart) * BITS_PER_BLOCK
    ensures sb.inodeBmapStart + g / BITS_PER_BLOCK < |disk|
    ensures Used(MarkBit(disk, sb.inodeBmapStart, g), sb) ==
      if g < MaxInodes(sb) then Used(disk, sb) + {g} else Used(disk, sb)
  {
    var d1 := MarkBit(disk, sb.inodeBmapStart, g);
    forall i: nat | i < (sb.inodeStart - sb.inodeBmapStart) * BITS_PER_BLOCK
      ensures BitAt(d1, sb.inodeBmapStart, i) <==> i == g || BitAt(disk, sb.inodeBmapStart, i)
    {
      MarkBitExact(disk, sb.inodeBmapStart, g, i);
    }
    assert forall i: nat :: InodeUsed(d1, sb, i) <==> i == g || InodeUsed(disk, sb, i);
  }

  /** Initializing an inode empties its node. */
  lemma FreshView(disk: Disk, sb: SuperBlock, i: nat, kind: InodeType)
    requires WellFormed(disk, sb) && i < MaxInodes(sb)
    ensures InodeBlock(sb, i) < |disk|
    ensures var d1 := PutInodeAt(disk, sb, i, FreshInode(kind));
      && WellFormed(d1, sb)
      && View(d1, sb) == Tree.Fs(Nodes(disk, sb)[i := Tree.Node(kind, 0, [])], Used(disk, sb))
  {
    hide FsSpec.InodeAt;
    var own := Sizes(disk, sb);
    PutFresh(disk, sb, own, i, kind);
    PutInodeBitmap(disk, sb, i, FreshInode(kind));
    PutInodeAtGet(disk, sb, i, FreshInode(kind), i);
    var d1 := PutInodeAt(disk, sb, i, FreshInode(kind));
    OwnsIsWellFormed(d1, sb, own[i := 0]);
    ViewUpdate(disk, d1, sb, i);
  }

  /** Counting a link changes nothing else. */
  lemma LinkView(disk: Disk, sb: SuperBlock, i: nat, n: u64)
    requires WellFormed(disk, sb) && i < MaxInodes(sb)
    ensures InodeBlock(sb, i) < |disk|
    ensures var d1 := PutInodeAt(disk, sb, i, InodeAt(disk, sb, i).(links := n));
      && WellFormed(d1, sb)
      && View(d1, sb) == Tree.Fs(Nodes(disk, sb)[i := NodeAt(disk, sb, i).(links := n)], Used(disk, sb))
  {
    hide FsSpec.InodeAt;
    var own := Sizes(disk, sb);
    var d: DiskInode := InodeAt(disk, sb, i).(links := n);
    PutSameMap(disk, sb, own, i, d);
    PutInodeBitmap(disk, sb, i, d);
    var d1 := PutInodeAt(disk, sb, i, d);
    forall i2: nat | i2 < MaxInodes(sb)
      ensures InodeAt(d1, sb, i2) == if i2 == i then d else InodeAt(disk, sb, i2)
    {
      PutInodeAtGet(disk, sb, i, d, i2);
    }
    OwnsIsWellFormed(d1, sb, own);
    ViewUpdate(disk, d1, sb, i);
  }

  /** No inode but `i` differs. */
  predicate OtherInodes(d0: Disk, d1: Disk, sb: SuperBlock, i: nat) {
    forall i2: nat :: i2 < MaxInodes(sb) && i2 != i ==> InodeAt(d1, sb, i2) == InodeAt(d0, sb, i2)
  }

  /** Only blocks `lo .. hi` may differ. */
  predicate OnlyBlocks(d0: Disk, d1: Disk, lo: nat, hi: nat) {
    |d0| == |d1| && forall m: nat :: m < |d0| && !(lo <= m < hi) ==> d1[m] == d0[m]
  }
}
