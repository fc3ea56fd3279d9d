/** Giving a file one more block, and why the indirect range is shared. */
module FsGrow {
  import opened Codec
  import opened FsSpec
  import opened FsData
  import opened FsMeta

  /** `set_bid` on the inode on disk: the address in the inode, or the word in the index block. */
  function SetBid(disk: Disk, sb: SuperBlock, i: nat, j: nat, b: u64): Disk
    requires InodeBlock(sb, i) < |disk| && InodeAt(disk, sb, i).indirect < |disk|
    requires j < MAX_BLOCKS_PER_INODE
  {
    var d := InodeAt(disk, sb, i);
    if j < N_DIRECT then PutInodeAt(disk, sb, i, d.(addresses := d.addresses[j := b]))
    else disk[d.indirect := PutWord(disk[d.indirect], j - N_DIRECT, b)]
  }

  /** No other inode reaches into the indirect range. */
  predicate AloneIndirect(own: seq<nat>, i: nat) {
    forall i2: nat :: i2 < |own| && i2 != i ==> own[i2] <= N_DIRECT
  }

  /** Every inode keeps its indirect blocks in the same index block, block 0, because nothing ever
      assigns `indirect`: two files that both reach past the direct range share a block. */
  lemma IndirectIsShared(disk: Disk, sb: SuperBlock, i: nat, i2: nat)
    requires InodeAt(disk, sb, i).indirect == 0 && InodeAt(disk, sb, i2).indirect == 0
    ensures BlockOf(disk, sb, i, N_DIRECT) == BlockOf(disk, sb, i2, N_DIRECT)
  {
  }

  lemma OneIndirectOwner(disk: Disk, sb: SuperBlock, own: seq<nat>, i: nat)
    requires Owns(disk, sb, own) && i < |own| && own[i] > N_DIRECT
    ensures AloneIndirect(own, i)
  {
    forall i2: nat | i2 < |own| && i2 != i
      ensures own[i2] <= N_DIRECT
    {
      assert InodeOk(disk, sb, i, own[i]) && InodeOk(disk, sb, i2, own[i2]);
      IndirectIsShared(disk, sb, i, i2);
    }
  }

  /** Setting block `own[i]` of file `i` leaves the blocks of every other file in place. */
  lemma SetBidOthers(disk: Disk, sb: SuperBlock, own: seq<nat>, i: nat, b: u64, i2: nat)
    requires Owns(disk, sb, own) && i < |own| && own[i] < MAX_BLOCKS_PER_INODE
    requires own[i] < N_DIRECT || AloneIndirect(own, i)
    requires i2 < |own| && i2 != i
    ensures InodeBlock(sb, i) < |disk| && InodeAt(disk, sb, i).indirect < |disk|
    ensures Agree(disk, SetBid(disk, sb, i, own[i], b), sb, i2, own[i2])
    ensures InodeAt(SetBid(disk, sb, i, own[i], b), sb, i2) == InodeAt(disk, sb, i2)
  {
    assert InodeOk(disk, sb, i, own[i]) && InodeOk(disk, sb, i2, own[i2]);
    InodeBlockInArea(sb, i, |disk|);
    var d := InodeAt(disk, sb, i);
    if own[i] < N_DIRECT {
      var e: DiskInode := d.(addresses := d.addresses[own[i] := b]);
      PutInodeOthers(disk, sb, own, i, e, i2);
      PutInodeAtGet(disk, sb, i, e, i2);
    } else {
      IndexWriteKeeps(disk, sb, PutWord(disk[0], own[i] - N_DIRECT, b), i2, own[i2]);
    }
  }

  lemma SetBidAllOthers(disk: Disk, sb: SuperBlock, own: seq<nat>, i: nat, b: u64)
    requires Owns(disk, sb, own) && i < |own| && own[i] < MAX_BLOCKS_PER_INODE
    requires own[i] < N_DIRECT || AloneIndirect(own, i)
    ensures InodeBlock(sb, i) < |disk| && InodeAt(disk, sb, i).indirect < |disk|
    ensures forall i2: nat :: i2 < |own| && i2 != i ==>
      && Agree(disk, SetBid(disk, sb, i, own[i], b), sb, i2, own[i2])
      && InodeAt(SetBid(disk, sb, i, own[i], b), sb, i2) == InodeAt(disk, sb, i2)
  {
    hide FsSpec.BlockOf, FsSpec.InodeAt, SetBid;
    SetBidSelf(disk, sb, own, i, b);
    forall i2: nat | i2 < |own| && i2 != i
      ensures Agree(disk, SetBid(disk, sb, i, own[i], b), sb, i2, own[i2])
      ensures InodeAt(SetBid(disk, sb, i, own[i], b), sb, i2) == InodeAt(disk, sb, i2)
    {
      SetBidOthers(disk, sb, own, i, b, i2);
    }
  }

  /** Writing the index block affects neither inodes nor data nor the bitmap, nor direct blocks. */
  lemma IndexWriteKeeps(disk: Disk, sb: SuperBlock, nb: Block, i: nat, n: nat)
    requires LayoutOk(sb, |disk|) && i < MaxInodes(sb)
    ensures InodeAt(disk[0 := nb], sb, i) == InodeAt(disk, sb, i)
    ensures forall c: nat ::
      InData(sb, c) ==> BlockAt(disk[0 := nb], c) == disk[c] && InUse(disk[0 := nb], sb, c) == InUse(disk, sb, c)
    ensures n <= N_DIRECT && InodeOk(disk, sb, i, n) ==> Agree(disk, disk[0 := nb], sb, i, n)
  {
    InodeBlockInArea(sb, i, |disk|);
  }

  /** The blocks file `i` had stay, and the new one is `b`. */
  lemma SetBidSelf(disk: Disk, sb: SuperBlock, own: seq<nat>, i: nat, b: u64)
    requires Owns(disk, sb, own) && i < |own| && own[i] < MAX_BLOCKS_PER_INODE
    ensures InodeBlock(sb, i) < |disk| && InodeAt(disk, sb, i).indirect < |disk|
    ensures var d1 := SetBid(disk, sb, i, own[i], b);
      && |d1| == |disk|
      && InodeAt(d1, sb, i).size == InodeAt(disk, sb, i).size && InodeAt(d1, sb, i).indirect == 0
      && InodeAt(d1, sb, i).kind == InodeAt(disk, sb, i).kind
      && BlockOf(d1, sb, i, own[i]) == b
      && (forall j: nat :: j < own[i] ==> BlockOf(d1, sb, i, j) == BlockOf(disk, sb, i, j))
      && (forall c: nat :: InData(sb, c) ==> BlockAt(d1, c) == disk[c] && InUse(d1, sb, c) == InUse(disk, sb, c))
  {
    hide FsSpec.InodeAt, Codec.WordAt;
    assert InodeOk(disk, sb, i, own[i]);
    InodeBlockInArea(sb, i, |disk|);
    var d, n := InodeAt(disk, sb, i), own[i];
    var d1 := SetBid(disk, sb, i, n, b);
    if n < N_DIRECT {
      var e: DiskInode := d.(addresses := d.addresses[n := b]);
      PutInodeAtGet(disk, sb, i, e, i);
      forall c: nat | InData(sb, c)
        ensures BlockAt(d1, c) == disk[c] && InUse(d1, sb, c) == InUse(disk, sb, c)
      {
        PutInodeElsewhere(disk, sb, i, e, c);
      }
    } else {
      IndexWriteKeeps(disk, sb, PutWord(disk[0], n - N_DIRECT, b), i, 0);
      PutWordAt(disk[0], n - N_DIRECT, b, n - N_DIRECT);
      forall j: nat | j < n
        ensures BlockOf(d1, sb, i, j) == BlockOf(disk, sb, i, j)
      {
        if j >= N_DIRECT {
          PutWordAt(disk[0], n - N_DIRECT, b, j - N_DIRECT);
        }
      }
    }
  }

  /** A zeroed block nobody owns, marked in use. */
  ghost predicate Spare(disk: Disk, sb: SuperBlock, own: seq<nat>, b: nat) {
    && InData(sb, b) && InUse(disk, sb, b) && Unowned(disk, sb, own, b)
    && BlockAt(disk, b) == ZeroBlock()
  }

  /** Giving file `i` a spare block keeps every file's bytes and every ownership, when the block is
      in the direct range or no other file uses the index block. */
  lemma GrowByOne(disk: Disk, sb: SuperBlock, own: seq<nat>, i: nat, b: u64)
    requires Owns(disk, sb, own) && i < |own| && own[i] < MAX_BLOCKS_PER_INODE && Spare(disk, sb, own, b)
    requires own[i] < N_DIRECT || AloneIndirect(own, i)
    ensures InodeBlock(sb, i) < |disk| && InodeAt(disk, sb, i).indirect < |disk|
    ensures var d1 := SetBid(disk, sb, i, own[i], b);
      && Owns(d1, sb, own[i := own[i] + 1])
      && Contents(d1, sb, i) == Contents(disk, sb, i)
      && SameOthers(disk, d1, sb, i)
  {
    hide FsSpec.BlockOf, FsSpec.InodeAt, SetBid, FsSpec.FileByte, FsSpec.BitAt;
    SetBidSelf(disk, sb, own, i, b);
    assert InodeOk(disk, sb, i, own[i]);
    var n := own[i];
    var d1 := SetBid(disk, sb, i, n, b);
    SetBidAllOthers(disk, sb, own, i, b);
    GrownInode(disk, d1, sb, i, n, b);
    OwnsFromParts(disk, d1, sb, own, i, n + 1);
  }

  lemma GrownInode(d0: Disk, d1: Disk, sb: SuperBlock, i: nat, n: nat, b: nat)
    requires InodeOk(d0, sb, i, n) && n < MAX_BLOCKS_PER_INODE && sb.dataStart + sb.dataBlocks <= |d0|
    requires InodeAt(d1, sb, i).size == InodeAt(d0, sb, i).size && InodeAt(d1, sb, i).indirect == 0
    requires BlockOf(d1, sb, i, n) == b && InData(sb, b) && InUse(d0, sb, b) && d0[b] == ZeroBlock()
    requires forall j: nat :: j < n ==> BlockOf(d1, sb, i, j) == BlockOf(d0, sb, i, j)
    requires forall c: nat :: InData(sb, c) ==> BlockAt(d1, c) == d0[c] && InUse(d1, sb, c) == InUse(d0, sb, c)
    ensures InodeOk(d1, sb, i, n + 1)
    ensures Contents(d1, sb, i) == Contents(d0, sb, i)
  {
    hide FsSpec.BlockOf, FsSpec.InodeAt;
    forall k: nat | k < (n + 1) * BLOCK_SIZE
      ensures FileByte(d1, sb, i, k) == if k < n * BLOCK_SIZE then FileByte(d0, sb, i, k) else 0
    {
      var j := k / BLOCK_SIZE;
      if j < n {
        assert BlockOf(d1, sb, i, j) == BlockOf(d0, sb, i, j) && InData(sb, BlockOf(d0, sb, i, j));
      }
    }
    assert forall k: nat :: k < InodeAt(d0, sb, i).size ==> Contents(d1, sb, i)[k] == Contents(d0, sb, i)[k];
  }

  /** Exactly when giving file `i` a spare block keeps blocks unshared: the block is in the direct
      range, or no other file reaches into the indirect range. */
  lemma GrowByOneIff(disk: Disk, sb: SuperBlock, own: seq<nat>, i: nat, b: u64)
    requires Owns(disk, sb, own) && i < |own| && own[i] < MAX_BLOCKS_PER_INODE && Spare(disk, sb, own, b)
    ensures InodeBlock(sb, i) < |disk| && InodeAt(disk, sb, i).indirect < |disk|
    ensures Owns(SetBid(disk, sb, i, own[i], b), sb, own[i := own[i] + 1])
       <==> own[i] < N_DIRECT || AloneIndirect(own, i)
  {
    hide FsSpec.BlockOf, FsSpec.InodeAt, SetBid;
    SetBidSelf(disk, sb, own, i, b);
    var d1, own1 := SetBid(disk, sb, i, own[i], b), own[i := own[i] + 1];
    assert forall i2: nat :: i2 < |own| && i2 != i ==> own1[i2] == own[i2];
    if own[i] < N_DIRECT || AloneIndirect(own, i) {
      GrowByOne(disk, sb, own, i, b);
    } else if Owns(d1, sb, own1) {
      OneIndirectOwner(d1, sb, own1, i);
    }
  }

  /** When a second file grows into the indirect range, it takes over the index word of the first:
      the bytes the first file had there are gone. */
  lemma SecondIndirectFileClobbers(disk: Disk, sb: SuperBlock, own: seq<nat>, i: nat, b: u64, i2: nat, k: nat)
    requires Owns(disk, sb, own) && i < |own| && Spare(disk, sb, own, b)
    requires i2 < |own| && i2 != i && N_DIRECT <= own[i] < own[i2]
    requires k < InodeAt(disk, sb, i2).size && k / BLOCK_SIZE == own[i]
    ensures InodeBlock(sb, i) < |disk| && InodeAt(disk, sb, i).indirect < |disk|
    ensures InodeAt(SetBid(disk, sb, i, own[i], b), sb, i2) == InodeAt(disk, sb, i2)
    ensures Contents(SetBid(disk, sb, i, own[i], b), sb, i2)[k] == 0
  {
    assert InodeOk(disk, sb, i, own[i]) && InodeOk(disk, sb, i2, own[i2]);
    InodeBlockInArea(sb, i, |disk|);
    var nb := PutWord(disk[0], own[i] - N_DIRECT, b);
    IndexWriteKeeps(disk, sb, nb, i2, 0);
    PutWordAt(disk[0], own[i] - N_DIRECT, b, own[i] - N_DIRECT);
  }
}
