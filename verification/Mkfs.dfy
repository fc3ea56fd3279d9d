/** Making a file system on a device, and opening it. */
module Mkfs {
  import opened Common
  import opened Codec
  import opened Bitmap
  import opened BlockCache
  import opened FsSpec
  import opened FsMeta
  import opened FsView
  import opened FileSystem
  import Tree

  /** What `create` accepts: room for the two leading blocks, the inode area and more. */
  predicate Fits(totalBlocks: nat, inodeBlocks: nat) {
    2 + (inodeBlocks / BLOCK_SIZE + 1) + inodeBlocks < totalBlocks <= 0x800_0000_0000_0000
  }

  /** The layout `create` computes. */
  function MakeSuper(totalBlocks: nat, inodeBlocks: nat): SuperBlock
    requires Fits(totalBlocks, inodeBlocks)
  {
    var inodeBmapBlocks := inodeBlocks / BLOCK_SIZE + 1;
    var rest := totalBlocks - 2 - (inodeBmapBlocks + inodeBlocks);
    var dataBmapBlocks := rest / BLOCK_SIZE / 8 + 1;
    var inodeBmapStart := SUPER_BLOCK_LOC + 1;
    var inodeStart := inodeBmapStart + inodeBmapBlocks;
    var dataBmapStart := inodeStart + inodeBlocks;
    var dataStart := dataBmapStart + dataBmapBlocks;
    SuperBlock(FS_MAGIC, totalBlocks, inodeBmapStart, inodeStart, inodeBlocks, dataBmapStart, dataStart,
               rest - dataBmapBlocks)
  }

  /** The regions are in order without gaps, end exactly at the last block, and the data bitmap has
      a bit for every data block. It is the shortest one with more bits than blocks from its start on;
      the inode bitmap is the shortest one with more bytes than inode blocks. */
  predicate LaidOut(sb: SuperBlock, totalBlocks: nat, inodeBlocks: nat) {
    && LayoutOk(sb, totalBlocks) && sb.magic == FS_MAGIC && sb.blocks == totalBlocks
    && sb.inodeBmapStart == SUPER_BLOCK_LOC + 1 && sb.inodeBlocks == inodeBlocks
    && sb.dataStart + sb.dataBlocks == totalBlocks
    && var n, m := sb.dataStart - sb.dataBmapStart, sb.inodeStart - sb.inodeBmapStart;
    && (n - 1) * BITS_PER_BLOCK <= totalBlocks - sb.dataBmapStart < n * BITS_PER_BLOCK
    && (m - 1) * BLOCK_SIZE <= inodeBlocks < m * BLOCK_SIZE
  }

  /** `create` accepts the sizes for which there is such a layout, and computes the only one. */
  lemma LayoutOfCreate(totalBlocks: nat, inodeBlocks: nat)
    requires totalBlocks <= 0x800_0000_0000_0000
    ensures forall sb: SuperBlock :: LaidOut(sb, totalBlocks, inodeBlocks) <==>
      Fits(totalBlocks, inodeBlocks) && sb == MakeSuper(totalBlocks, inodeBlocks)
  {
    forall sb: SuperBlock | LaidOut(sb, totalBlocks, inodeBlocks)
      ensures Fits(totalBlocks, inodeBlocks)
    {
      RoomFor(sb, totalBlocks, inodeBlocks);
    }
    if Fits(totalBlocks, inodeBlocks) {
      MadeLayout(totalBlocks, inodeBlocks);
    }
  }

  lemma RoomFor(sb: SuperBlock, totalBlocks: nat, inodeBlocks: nat)
    requires LaidOut(sb, totalBlocks, inodeBlocks) && totalBlocks <= 0x800_0000_0000_0000
    ensures Fits(totalBlocks, inodeBlocks)
  {
    assert sb.inodeStart - sb.inodeBmapStart == inodeBlocks / BLOCK_SIZE + 1;
  }

  lemma MadeLayout(totalBlocks: nat, inodeBlocks: nat)
    requires Fits(totalBlocks, inodeBlocks)
    ensures forall sb: SuperBlock ::
      LaidOut(sb, totalBlocks, inodeBlocks) <==> sb == MakeSuper(totalBlocks, inodeBlocks)
  {
    var made := MakeSuper(totalBlocks, inodeBlocks);
    assert LaidOut(made, totalBlocks, inodeBlocks);
    forall sb: SuperBlock | LaidOut(sb, totalBlocks, inodeBlocks)
      ensures sb == made
    {
      OneLayout(sb, made, totalBlocks, inodeBlocks);
    }
  }

  lemma OneLayout(a: SuperBlock, b: SuperBlock, totalBlocks: nat, inodeBlocks: nat)
    requires LaidOut(a, totalBlocks, inodeBlocks) && LaidOut(b, totalBlocks, inodeBlocks)
    ensures a == b
  {
    assert a.inodeStart == b.inodeStart;
    assert a.dataStart == b.dataStart;
  }

  /** The inode bitmap is sized by inode blocks instead of inodes: it has a bit for every inode exactly
      up to 2048 inode blocks, and at 4096. */
  lemma InodeBitsIff(totalBlocks: nat, inodeBlocks: nat)
    requires Fits(totalBlocks, inodeBlocks)
    ensures var sb := MakeSuper(totalBlocks, inodeBlocks);
      InodeBits(sb) >= MaxInodes(sb) <==> inodeBlocks <= 2048 || inodeBlocks == 4096
  {
    var sb := MakeSuper(totalBlocks, inodeBlocks);
    var q, r := inodeBlocks / BLOCK_SIZE, inodeBlocks % BLOCK_SIZE;
    assert InodeBits(sb) == (q + 1) * 32768 && MaxInodes(sb) == 65536 * q + 16 * r;
  }

  /** Inodes are at different places in the inode area. */
  lemma FindInodeInjective(sb: SuperBlock, i: nat, j: nat)
    ensures InodeBlock(sb, i) == InodeBlock(sb, j) && i % INODES_PER_BLOCK == j % INODES_PER_BLOCK <==> i == j
  {
  }

  // ----- the formatted disk -----

  /** Everything between the super block and the data area is zero. */
  predicate Blank(disk: Disk, sb: SuperBlock) {
    forall m: nat :: sb.inodeBmapStart <= m < sb.dataStart && m < |disk| ==> disk[m] == ZeroBlock()
  }

  function NoNode(): Tree.Node {
    Tree.Node(Invalid, 0, [])
  }

  lemma BlankInode(disk: Disk, sb: SuperBlock, i: nat)
    requires LayoutOk(sb, |disk|) && Blank(disk, sb) && i < MaxInodes(sb)
    ensures InodeAt(disk, sb, i) == FreshInode(Invalid)
  {
    InodeBlockInArea(sb, i, |disk|);
    var k := i % INODES_PER_BLOCK;
    DecodeZeroInode(disk[InodeBlock(sb, i)][k * DINODE_SIZE..k * DINODE_SIZE + DINODE_SIZE]);
  }

  lemma BlankBit(disk: Disk, sb: SuperBlock, i: nat)
    requires LayoutOk(sb, |disk|) && Blank(disk, sb)
    ensures !InodeUsed(disk, sb, i)
  {
    if i < (sb.inodeStart - sb.inodeBmapStart) * BITS_PER_BLOCK {
      var m, k := sb.inodeBmapStart + i / BITS_PER_BLOCK, i % BITS_PER_BLOCK;
      assert m < sb.inodeStart;
      assert BlockAt(disk, m) == ZeroBlock() && ZeroBlock()[k / 8] == 0;
      ZeroHasNoBits(k % 8);
    }
  }

  lemma {:induction false} ZeroHasNoBits(k: nat)
    ensures !Bit8(0, k)
  {
    if k > 0 {
      ZeroHasNoBits(k - 1);
    }
  }

  /** A blank disk is a well-formed file system without nodes. */
  lemma BlankView(disk: Disk, sb: SuperBlock)
    requires LayoutOk(sb, |disk|) && Blank(disk, sb)
    ensures WellFormed(disk, sb)
    ensures View(disk, sb) == Tree.Fs(seq(MaxInodes(sb), i => NoNode()), {})
  {
    forall i: nat | i < MaxInodes(sb)
      ensures InodeOk(disk, sb, i, Sizes(disk, sb)[i]) && Sizes(disk, sb)[i] == 0 && NodeAt(disk, sb, i) == NoNode()
    {
      BlankInode(disk, sb, i);
    }
    forall i: nat
      ensures !InodeUsed(disk, sb, i)
    {
      BlankBit(disk, sb, i);
    }
  }

  /** The file system after `create`: an empty root directory and nothing else. */
  function NewFs(sb: SuperBlock): Tree.Fs
    requires MaxInodes(sb) > 0
  {
    Tree.Fs(seq(MaxInodes(sb), i => NoNode())[0 := Tree.Node(Directory, 0, [])], {0})
  }

  lemma NewFsOk(sb: SuperBlock)
    requires MaxInodes(sb) > 0
    ensures Tree.TreeOk(NewFs(sb))
  {
    var fs := NewFs(sb);
    assert forall d: nat :: Tree.IsDir(fs, d) ==> d == 0 && Tree.Dir(fs, d) == [];
    assert forall i: nat :: !Tree.Referenced(fs, i);
  }

  // ----- methods -----

  /** `open`: a file system on the device, or null when its super block must be valid and is not. */
  method Open(dev: BlockDevice, validate: bool) returns (fs: FileSystem?)
    requires SUPER_BLOCK_LOC < |dev.blocks|
    modifies dev
    ensures dev.blocks == old(dev.blocks)
    ensures fs == null <==> validate && GetSuper(dev.blocks[SUPER_BLOCK_LOC]).magic != FS_MAGIC
    ensures fs != null ==> fresh(fs) && fresh(fs.cache) && fresh(fs.cache.issued) && fresh(fs.icache)
    ensures fs != null ==>
      fs.cache.dev == dev && fs.cache.disk == dev.blocks && fs.sb == GetSuper(dev.blocks[SUPER_BLOCK_LOC])
    ensures fs != null ==> fs.cache.Valid() && fs.cache.Quiet() && fs.cache.Clean()
    ensures fs != null ==> fs.cache.capacity == BLOCK_BUFFER_SIZE
    ensures fs != null ==> fs.icache.cache == [] && fs.icache.capacity == INODE_BUFFER_SIZE
  {
    var cache := new BlockCacheBuffer(dev, BLOCK_BUFFER_SIZE);
    var icache := new InodeCacheBuffer(INODE_BUFFER_SIZE);
    cache.QuietIsAvailable(SUPER_BLOCK_LOC);
    var b := cache.Read(SUPER_BLOCK_LOC);
    var sb := GetSuper(b);
    if sb.magic == FS_MAGIC || !validate {
      fs := new FileSystem(cache, icache, sb);
    } else {
      fs := null;
    }
  }

  /** Zeroes blocks `lo .. hi` through the cache. */
  method ZeroBlocks(cache: BlockCacheBuffer, lo: nat, hi: nat)
    requires cache.Valid() && cache.Quiet() && cache.capacity > 0 && lo <= hi <= |cache.disk|
    modifies cache, cache.dev, cache.issued
    ensures cache.Valid() && cache.Quiet() && fresh(cache.issued - old(cache.issued))
    ensures OnlyBlocks(old(cache.disk), cache.disk, lo, hi)
    ensures forall m: nat :: lo <= m < hi ==> cache.disk[m] == ZeroBlock()
  {
    hide BlockCacheBuffer.Valid;
    var i := lo;
    while i < hi
      invariant lo <= i <= hi
      invariant cache.Valid() && cache.Quiet() && fresh(cache.issued - old(cache.issued))
      invariant OnlyBlocks(old(cache.disk), cache.disk, lo, hi)
      invariant forall m: nat :: lo <= m < i ==> cache.disk[m] == ZeroBlock()
    {
      cache.QuietIsAvailable(i);
      cache.Update(i, ZeroBlock());
      i := i + 1;
    }
  }

  /** The first part of `init_fs`: zeroes all blocks between the super block and the data, writes
      the super block and flushes. The cache is left without anything to write back. */
  method Format(dev: BlockDevice, sb: SuperBlock) returns (cache: BlockCacheBuffer)
    requires LayoutOk(sb, |dev.blocks|)
    modifies dev
    ensures fresh(cache) && fresh(cache.issued) && cache.dev == dev && cache.Clean() && cache.Attached(|dev.blocks|)
    ensures OnlyBlocks(old(dev.blocks), dev.blocks, SUPER_BLOCK_LOC, sb.dataStart)
    ensures Blank(dev.blocks, sb) && GetSuper(dev.blocks[SUPER_BLOCK_LOC]) == sb
  {
    hide BlockCacheBuffer.Valid, Codec.GetSuper;
    cache := new BlockCacheBuffer(dev, BLOCK_BUFFER_SIZE);
    ZeroBlocks(cache, sb.inodeBmapStart, sb.dataStart);
    cache.QuietIsAvailable(SUPER_BLOCK_LOC);
    var b := cache.Read(SUPER_BLOCK_LOC);
    cache.QuietIsAvailable(SUPER_BLOCK_LOC);
    PutSuperGet(b, sb);
    cache.Update(SUPER_BLOCK_LOC, PutSuper(b, sb));
    cache.ValidIsAttached();
    cache.Flush();
  }

  /** With nothing in use, only a table without inodes has none to give. */
  lemma NothingToGive(sb: SuperBlock, used: set<nat>, n: nat)
    requires LayoutOk(sb, n) && used == {}
    requires forall i: nat :: i < MaxInodes(sb) && i < InodeBits(sb) ==> i in used
    ensures MaxInodes(sb) == 0
  {
    assert MaxInodes(sb) > 0 ==> 0 in used;
  }

  /** The first inode handed out is the root. */
  lemma FirstIsRoot(sb: SuperBlock, fs: Tree.Fs, i: nat)
    requires fs == Tree.Fs(seq(MaxInodes(sb), k => NoNode()), {}) && i < MaxInodes(sb)
    requires forall j: nat :: j < i ==> j in fs.used
    ensures i == 0 && Tree.Allocated(fs, i, Directory) == NewFs(sb)
  {
    assert i > 0 ==> 0 in fs.used;
    assert fs.used + {0} == {0};
  }

  /** The second part of `init_fs`: opens the formatted device, allocates the root directory, and drops
      the cache, writing back what it holds. */
  method MakeRoot(dev: BlockDevice, sb: SuperBlock) returns (root: Inode?)
    requires LayoutOk(sb, |dev.blocks|) && sb.magic == FS_MAGIC
    requires Blank(dev.blocks, sb) && GetSuper(dev.blocks[SUPER_BLOCK_LOC]) == sb
    modifies dev
    ensures root == null <==> MaxInodes(sb) == 0
    ensures OnlyBlocks(old(dev.blocks), dev.blocks, sb.inodeBmapStart, sb.dataBmapStart)
    ensures WellFormed(dev.blocks, sb)
    ensures root != null ==> root.inum == 0 && View(dev.blocks, sb) == NewFs(sb)
  {
    hide BlockCacheBuffer.Valid, BlockCacheBuffer.Quiet, Codec.GetSuper, FsSpec.InodeAt, FsSpec.WellFormed,
         FsView.Nodes, FsView.Used, Blank;
    var fs := Open(dev, true);
    BlankView(dev.blocks, sb);
    ghost var blank := View(dev.blocks, sb);
    root := fs.AllocateInode(Directory, {});
    if root == null {
      NothingToGive(sb, Used(fs.cache.disk, sb), |fs.cache.disk|);
    } else {
      FirstIsRoot(sb, blank, root.inum);
    }
    fs.cache.ValidIsAttached();
    fs.cache.Flush();
  }

  /** `init_fs`: formats the device, makes the root directory, and drops both caches, writing back
      what they hold. Null stands for the error of a device without inodes. */
  method InitFs(dev: BlockDevice, sb: SuperBlock) returns (root: Inode?)
    requires LayoutOk(sb, |dev.blocks|) && sb.magic == FS_MAGIC
    modifies dev
    ensures root == null <==> MaxInodes(sb) == 0
    ensures OnlyBlocks(old(dev.blocks), dev.blocks, SUPER_BLOCK_LOC, sb.dataStart)
    ensures GetSuper(dev.blocks[SUPER_BLOCK_LOC]) == sb
    ensures forall m: nat :: sb.dataBmapStart <= m < sb.dataStart ==> dev.blocks[m] == ZeroBlock()
    ensures WellFormed(dev.blocks, sb)
    ensures root != null ==> root.inum == 0 && View(dev.blocks, sb) == NewFs(sb)
  {
    hide BlockCacheBuffer.Valid, BlockCacheBuffer.Quiet, Codec.GetSuper, FsSpec.WellFormed, FsView.View, NewFs;
    var first := Format(dev, sb);
    root := MakeRoot(dev, sb);
    first.Flush();
  }

  /** `create`: the device holds a new file system with an empty root directory, and it is open.
      Null stands for a panic: too little room for the areas, or no inodes. */
  method Create(dev: BlockDevice, totalBlocks: nat, inodeBlocks: nat) returns (fs: FileSystem?)
    requires totalBlocks <= |dev.blocks| <= 0x800_0000_0000_0000
    modifies dev
    ensures fs == null <==> !Fits(totalBlocks, inodeBlocks) || inodeBlocks == 0
    ensures !Fits(totalBlocks, inodeBlocks) ==> dev.blocks == old(dev.blocks)
    ensures fs != null ==> fresh(fs) && fresh(fs.cache) && fresh(fs.cache.issued) && fresh(fs.icache)
    ensures fs != null ==> fs.cache.dev == dev && fs.Copies() == {}
    ensures fs != null ==> fs.sb == MakeSuper(totalBlocks, inodeBlocks) && fs.Valid()
    ensures fs != null ==> fs.cache.disk == dev.blocks && View(dev.blocks, fs.sb) == NewFs(fs.sb)
    ensures fs != null ==> Tree.TreeOk(View(dev.blocks, fs.sb)) && FirstInUse(dev.blocks, fs.sb, 0)
  {
    hide Codec.GetSuper, BlockCacheBuffer.Valid, BlockCacheBuffer.Quiet, FsSpec.InodeAt, FsSpec.WellFormed,
         Tree.TreeOk, NewFs, FsView.View, FirstInUse;
    if !Fits(totalBlocks, inodeBlocks) {
      return null;
    }
    var sb := MakeSuper(totalBlocks, inodeBlocks);
    LayoutOfCreate(totalBlocks, inodeBlocks);
    var root := InitFs(dev, sb);
    if root == null {
      return null;
    }
    NewFsOk(sb);
    BlankData(dev.blocks, sb);
    fs := Open(dev, true);
  }

  /** Flushes the cache and opens the device again: whatever the calls before were, the same files are
      there. */
  method Reopen(fs: FileSystem) returns (again: FileSystem)
    requires fs.Valid() && fs.sb.magic == FS_MAGIC
    modifies fs.cache, fs.cache.dev, fs.cache.issued
    ensures fresh(again) && fresh(again.cache) && fresh(again.cache.issued) && fresh(again.icache)
    ensures again.cache.dev == fs.cache.dev && again.sb == fs.sb && again.Valid() && again.Copies() == {}
    ensures again.cache.disk == again.cache.dev.blocks == old(fs.cache.disk)
  {
    hide BlockCacheBuffer.Valid, BlockCacheBuffer.Quiet, Codec.GetSuper, FsSpec.WellFormed;
    fs.cache.ValidIsAttached();
    fs.cache.Flush();
    again := Open(fs.cache.dev, true);
  }

  // ----- data blocks of a new file system -----

  /** Exactly the first `n` data blocks are in use. */
  ghost predicate FirstInUse(disk: Disk, sb: SuperBlock, n: nat) {
    forall b: nat :: InData(sb, b) ==> (InUse(disk, sb, b) <==> b < sb.dataStart + n)
  }

  lemma BlankData(disk: Disk, sb: SuperBlock)
    requires LayoutOk(sb, |disk|)
    requires forall m: nat :: sb.dataBmapStart <= m < sb.dataStart ==> disk[m] == ZeroBlock()
    ensures FirstInUse(disk, sb, 0)
  {
    forall b: nat | InData(sb, b)
      ensures !InUse(disk, sb, b)
    {
      var g := b - sb.dataStart;
      var m, k := sb.dataBmapStart + g / BITS_PER_BLOCK, g % BITS_PER_BLOCK;
      assert m < sb.dataStart;
      assert BlockAt(disk, m) == ZeroBlock() && ZeroBlock()[k / 8] == 0;
      ZeroHasNoBits(k % 8);
    }
  }

  /** Marking bit `g` makes data block `g` in use, and no data block if `g` is past them. */
  lemma MarkFirst(disk: Disk, sb: SuperBlock, n: nat, g: nat)
    requires LayoutOk(sb, |disk|) && FirstInUse(disk, sb, n)
    requires g < (sb.dataStart - sb.dataBmapStart) * BITS_PER_BLOCK && (g == n || g >= sb.dataBlocks)
    ensures sb.dataBmapStart + g / BITS_PER_BLOCK < |disk|
    ensures FirstInUse(MarkBit(disk, sb.dataBmapStart, g), sb, if g == n then n + 1 else n)
  {
    hide FsSpec.BitAt;
    assert g / BITS_PER_BLOCK < sb.dataStart - sb.dataBmapStart;
    forall b: nat | InData(sb, b)
      ensures InUse(MarkBit(disk, sb.dataBmapStart, g), sb, b) <==> b < sb.dataStart + if g == n then n + 1 else n
    {
      assert (b - sb.dataStart) / BITS_PER_BLOCK < sb.dataStart - sb.dataBmapStart;
      MarkBitExact(disk, sb.dataBmapStart, g, b - sb.dataStart);
    }
  }

  /** `n` calls of `allocate_data_block` on a file system without blocks in use give the data blocks
      in order, then nothing ever after. */
  method AllocateInOrder(fs: FileSystem, n: nat) returns (rs: seq<Option<nat>>)
    requires fs.Ready() && FirstInUse(fs.cache.disk, fs.sb, 0)
    modifies fs.cache, fs.cache.dev, fs.cache.issued
    ensures fs.Ready() && fs.Grew() && |rs| == n
    ensures forall i: nat :: i < n ==> rs[i] == if i < fs.sb.dataBlocks then Some(fs.sb.dataStart + i) else None
  {
    hide Codec.GetSuper, BlockCacheBuffer.Valid, BlockCacheBuffer.Quiet, FsSpec.InUse;
    rs := [];
    while |rs| < n
      invariant fs.Ready() && fs.Grew() && |rs| <= n
      invariant FirstInUse(fs.cache.disk, fs.sb, Min(|rs|, fs.sb.dataBlocks))
      invariant forall i: nat :: i < |rs| ==> rs[i] == if i < fs.sb.dataBlocks then Some(fs.sb.dataStart + i) else None
    {
      ghost var disk, k := fs.cache.disk, Min(|rs|, fs.sb.dataBlocks);
      var r, extra := fs.AllocateDataBlock();
      if r.Some? {
        assert r.value == fs.sb.dataStart + k by {
          assert InData(fs.sb, r.value) && !InUse(disk, fs.sb, r.value);
          assert InData(fs.sb, fs.sb.dataStart + k) && !InUse(disk, fs.sb, fs.sb.dataStart + k);
        }
        MarkFirst(disk, fs.sb, k, k);
      } else {
        assert k < fs.sb.dataBlocks ==> InData(fs.sb, fs.sb.dataStart + k);
        if extra.Some? {
          MarkFirst(disk, fs.sb, k, extra.value);
        }
      }
      rs := rs + [r];
    }
  }

  // ----- a name with a NUL -----

  /** "a", and "a", NUL, "b". */
  const PLAIN: seq<byte> := [97]
  const WITH_NUL: seq<byte> := [97, 0, 98]

  /** On every new file system, creating "a" and then "a", NUL, "b" gives two entries of the same
      name: each step is legal until the last one, which the check for an existing entry lets pass. */
  lemma NulNameWitness(sb: SuperBlock)
    requires 3 <= MaxInodes(sb) < 0x1_0000_0000_0000_0000
    ensures var ops := [Tree.Alloc(1, File), Tree.Link(0, PLAIN, 1), Tree.Alloc(2, File)];
      exists fs ::
        && Tree.Reaches(NewFs(sb), ops, fs) && Tree.TreeOk(fs) && Tree.CanEnter(fs, 0, WITH_NUL, 2)
        && Tree.Find(Tree.Dir(fs, 0), WITH_NUL) == None
        && !Tree.TreeOk(Tree.Linked(fs, 0, WITH_NUL, 2))
  {
    var a, b, c := Tree.Alloc(1, File), Tree.Link(0, PLAIN, 1), Tree.Alloc(2, File);
    NewFsOk(sb);
    var f0 := NewFs(sb);
    var f1 := Tree.Apply(f0, a);
    Tree.AllocKeeps(f0, a);
    assert Tree.Dir(f1, 0) == [];
    var f2 := Tree.Apply(f1, b);
    Tree.LinkKeeps(f1, b);
    Tree.LinkRefers(f1, 0, PLAIN, 1);
    var f3 := Tree.Apply(f2, c);
    Tree.AllocKeeps(f2, c);
    assert Tree.Dir(f3, 0) == Tree.Dir(f2, 0) && Tree.Dir(f2, 0)[0].name == PLAIN;
    assert WITH_NUL == PLAIN + [0] + [98];
    Tree.NulNameBreaks(f3, 0, PLAIN, [98], 2);
    ThreeSteps(f0, a, b, c);
  }

  lemma ThreeSteps(fs: Tree.Fs, a: Tree.Op, b: Tree.Op, c: Tree.Op)
    requires Tree.Legal(fs, a) && Tree.Legal(Tree.Apply(fs, a), b) && Tree.Legal(Tree.Apply(Tree.Apply(fs, a), b), c)
    ensures Tree.Reaches(fs, [a, b, c], Tree.Apply(Tree.Apply(Tree.Apply(fs, a), b), c))
  {
    var f1 := Tree.Apply(fs, a);
    var f2 := Tree.Apply(f1, b);
    var f3 := Tree.Apply(f2, c);
    hide Tree.Legal, Tree.Apply;
    assert [a, b, c][1..] == [b, c] && [b, c][1..] == [c] && [c][1..] == [];
    assert Tree.Reaches(f3, [], f3);
    assert Tree.Reaches(f2, [c], f3);
    assert Tree.Reaches(f1, [b, c], f3);
  }
}
