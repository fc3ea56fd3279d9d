/** Callers of the file system: what a sequence of calls comes to. */
module FsClients {
  import opened Common
  import opened Codec
  import opened BlockCache
  import opened FsSpec
  import opened FsFree
  import opened FsGrow
  import opened FsView
  import opened FileSystem
  import opened Mkfs
  import Path
  import Tree

  lemma FewEntries(disk: Disk, sb: SuperBlock, d: nat)
    requires d < MaxInodes(sb)
    ensures InodeAt(disk, sb, d).size < N_DIRECT * BLOCK_SIZE <==> |Tree.Dir(View(disk, sb), d)| < Tree.DIRECT_ENTRIES
  {
    hide FsSpec.InodeAt, FsView.View, Tree.Dir;
    DirSize(disk, sb, d);
  }

  /** After a creation under a good name, the path of the name leads to the new node, unless walking it
      blocks. */
  lemma CreatedIsFound(v: Tree.Fs, w: Tree.Fs, d: nat, name: seq<byte>, kind: InodeType, n: Inode)
    requires Tree.TreeOk(v) && Tree.IsDir(v, d) && |v.nodes| < 0x1_0000_0000_0000_0000
    requires Outcome(v, w, d, name, kind, Created, n)
    requires GoodName(name) && name != [] && Path.NoSlash(name) && Tree.Find(Tree.Dir(v, d), name) == None
    ensures Tree.TreeOk(w) && (Path.PathBlocks(w, d, name) <==> |Tree.Dir(v, d)| >= Tree.DIRECT_ENTRIES)
    ensures !Path.PathBlocks(w, d, name) ==> Path.PathTarget(w, d, name) == Some(n.inum)
  {
    hide Path.PathTarget, Path.PathBlocks;
    assert CutName(name) == name;
    assert Tree.DirOk(v, d);
    Path.EnteredIsFound(Tree.Allocated(v, n.inum, kind), d, name, n.inum);
  }

  /** Creates a node and walks to it: the path of its name leads to the node just created, unless the
      directory filled its direct range before, where walking blocks. */
  method CreateAndFind(fs: FileSystem, dir: Inode, name: seq<byte>, kind: InodeType)
      returns (r: CreateResult, n: Inode?, blocked: bool, found: Inode?)
    requires fs.OpenDir(dir) && GoodName(name) && name != [] && Path.NoSlash(name)
    requires dir.d.size == N_DIRECT * BLOCK_SIZE ==> AloneIndirect(Sizes(fs.cache.disk, fs.sb), dir.inum)
    modifies fs.cache, fs.cache.dev, fs.cache.issued, fs.icache, fs.Copies(), dir
    ensures fs.Valid() && fs.Grew()
    ensures Chosen(old(fs.cache.disk), fs.sb, old(Tree.Dir(View(fs.cache.disk, fs.sb), dir.inum)), old(dir.d.size),
                   name, r)
    ensures Outcome(View(old(fs.cache.disk), fs.sb), View(fs.cache.disk, fs.sb), dir.inum, name, kind, r, n)
    ensures n != null ==> (blocked <==> old(dir.d.size) >= N_DIRECT * BLOCK_SIZE)
    ensures n != null && !blocked ==> found != null && found.inum == n.inum && fs.Current(found)
  {
    hide FsSpec.InodeAt, FsSpec.WellFormed, Codec.GetSuper, BlockCacheBuffer.Valid, BlockCacheBuffer.Quiet,
         FsView.View, Tree.TreeOk, Tree.Dir, Path.PathTarget, Path.PathBlocks, Path.Visited, FileSystem.Ready,
         FileSystem.Coherent, FileSystem.Valid, FreeBlocks, EntryBlocks, Outcome, FsView.Used, FileSystem.StillHeld,
         AsideFrom, Named;
    ghost var v := View(fs.cache.disk, fs.sb);
    fs.DirFacts(dir);
    DirSize(fs.cache.disk, fs.sb, dir.inum);
    FewEntries(fs.cache.disk, fs.sb, dir.inum);
    blocked, found := false, null;
    r, n := fs.CreateInode(dir, name, kind, {});
    CreatedIsSome(v, View(fs.cache.disk, fs.sb), dir.inum, name, kind, r, n);
    if r == Created {
      CreatedIsFound(v, View(fs.cache.disk, fs.sb), dir.inum, name, kind, n);
      blocked, found := fs.GetInodeFromPath(name, dir, {});
    }
  }

  // ----- reading what was written -----

  lemma SplicedSlice(s: seq<byte>, off: nat, t: seq<byte>)
    requires off + |t| <= |s|
    ensures Splice(s, off, t)[off..off + |t|] == t
  {
  }

  /** Writes into a file and reads the same range: the bytes written come back, and reading blocks
      exactly if some are past the direct range. */
  method WriteReadBack(fs: FileSystem, file: Inode, offset: nat, buf: seq<byte>) returns (r: IoResult<seq<byte>>)
    requires fs.Valid() && fs.Current(file) && offset + |buf| <= file.d.size
    modifies fs.cache, fs.cache.dev, fs.cache.issued
    ensures fs.Valid() && fs.Grew() && fs.Current(file)
    ensures r == if buf != [] && offset + |buf| > N_DIRECT * BLOCK_SIZE then Blocked else Done(buf)
  {
    hide FsSpec.InodeAt, FsSpec.WellFormed, Codec.GetSuper, BlockCacheBuffer.Valid, BlockCacheBuffer.Quiet,
         FsView.View, FileSystem.Ready, FileSystem.Coherent, FsSpec.Contents, Codec.Splice;
    ghost var v := View(fs.cache.disk, fs.sb);
    NodeIsInode(fs.cache.disk, fs.sb, file.inum);
    var n := fs.WriteInode(file, offset, buf);
    assert buf[..n.value] == buf;
    SplicedSlice(v.nodes[file.inum].bytes, offset, buf);
    r := fs.ReadInode(file, offset, |buf|);
    NodeIsInode(fs.cache.disk, fs.sb, file.inum);
  }

  // ----- several open handles -----

  /** The file has exactly these bytes. */
  ghost predicate Holds(disk: Disk, sb: SuperBlock, i: nat, s: seq<byte>) {
    i < MaxInodes(sb) && View(disk, sb).nodes[i].bytes == s
  }

  /** Only node `i` may differ. */
  ghost predicate SameBut(v: Tree.Fs, w: Tree.Fs, i: nat) {
    && w.used == v.used && |w.nodes| == |v.nodes|
    && forall j: nat :: j < |v.nodes| && j != i ==> w.nodes[j] == v.nodes[j]
  }

  lemma DirStays(v: Tree.Fs, w: Tree.Fs, i: nat, d: nat)
    requires SameBut(v, w, i) && d < |v.nodes| && d != i
    ensures Tree.Dir(w, d) == Tree.Dir(v, d) && (Tree.IsDir(w, d) <==> Tree.IsDir(v, d))
  {
  }

  /** Growing an empty file and writing all of it. */
  lemma Filled(v: Tree.Fs, i: nat, s: seq<byte>)
    requires i < |v.nodes| && v.nodes[i].bytes == []
    ensures var w := Tree.Written(Tree.Grown(v, i, |s|), i, 0, s);
      && w.used == v.used && w.nodes == v.nodes[i := v.nodes[i].(bytes := s)]
      && (Tree.TreeOk(v) && v.nodes[i].kind != Directory ==> Tree.TreeOk(w))
  {
    if Tree.TreeOk(v) && v.nodes[i].kind != Directory {
      Tree.FileOpKeeps(v, Tree.Grow(i, |s|));
      Tree.FileOpKeeps(Tree.Grown(v, i, |s|), Tree.Write(i, 0, s));
    }
    hide Tree.TreeOk;
    assert Splice(Zeros(|s|), 0, s) == s;
    assert [] + Zeros(|s|) == Zeros(|s|);
  }

  /** Gives an empty file its bytes; other files keep theirs, and their handles stay usable. */
  method Fill(fs: FileSystem, file: Inode, s: seq<byte>, ghost others: set<Inode>) returns (r: ResizeResult)
    requires fs.Valid() && fs.Current(file) && file.d.kind == File && file.d.size == 0 && |s| <= N_DIRECT * BLOCK_SIZE
    requires Tree.TreeOk(View(fs.cache.disk, fs.sb))
    requires fs.Held(others) && forall h :: h in others ==> h.inum != file.inum
    modifies fs.cache, fs.cache.dev, fs.cache.issued, file
    ensures fs.Valid() && fs.Grew() && fs.Current(file) && fs.StillHeld(others)
    ensures Tree.TreeOk(View(fs.cache.disk, fs.sb))
    ensures SameBut(View(old(fs.cache.disk), fs.sb), View(fs.cache.disk, fs.sb), file.inum)
    ensures r == Ok <==> BlocksFor(|s|) <= |FreeBlocks(old(fs.cache.disk), fs.sb)|
    ensures r == Ok ==> |FreeBlocks(fs.cache.disk, fs.sb)| == |FreeBlocks(old(fs.cache.disk), fs.sb)| - BlocksFor(|s|)
    ensures r == Ok ==> file.d.size == |s| && Holds(fs.cache.disk, fs.sb, file.inum, s)
  {
    hide FsSpec.InodeAt, FsSpec.WellFormed, Codec.GetSuper, BlockCacheBuffer.Valid, BlockCacheBuffer.Quiet,
         FsView.Used, FsView.Nodes, FileSystem.Ready, FileSystem.Coherent, FileSystem.Held, FileSystem.StillHeld,
         FreeBlocks, Tree.TreeOk;
    ghost var v := View(fs.cache.disk, fs.sb);
    NodeIsInode(fs.cache.disk, fs.sb, file.inum);
    Filled(v, file.inum, s);
    r := fs.ResizeInode(file, |s|);
    if r == Ok {
      var n := fs.WriteInode(file, 0, s);
      assert s[..n.value] == s;
    }
    fs.HandlesStay(others, file.inum, file.inum);
  }

  /** What a creation leaves of the directory and the new node. */
  lemma CreatedNode(v: Tree.Fs, w: Tree.Fs, d: nat, name: seq<byte>, kind: InodeType, n: Inode)
    requires Tree.TreeOk(v) && Tree.IsDir(v, d) && |v.nodes| < 0x1_0000_0000_0000_0000
    requires Outcome(v, w, d, name, kind, Created, n) && GoodName(name) && Tree.Find(Tree.Dir(v, d), name) == None
    ensures Tree.TreeOk(w) && |w.nodes| == |v.nodes| && w.used == v.used + {n.inum} && n.inum != d
    ensures w.nodes[n.inum].kind == kind && w.nodes[n.inum].bytes == []
    ensures w.nodes[d].kind == Directory && |w.nodes[d].bytes| == |v.nodes[d].bytes| + DIR_ENTRY_SIZE
    ensures Tree.Dir(w, d) == Tree.Dir(v, d) + [DirEntry(n.inum, name)]
  {
    assert CutName(name) == name && Tree.DirOk(v, d);
    Tree.AppendEntry(v.nodes[d].bytes, DirEntry(n.inum, name));
    hide Tree.TreeOk;
  }

  /** Creates an empty node; its handle, that of the directory and those of other nodes are usable. */
  method CreateNode(fs: FileSystem, dir: Inode, name: seq<byte>, kind: InodeType, ghost keep: set<Inode>)
      returns (r: CreateResult, n: Inode?)
    requires fs.OpenDir(dir) && dir.d.size < N_DIRECT * BLOCK_SIZE && GoodName(name) && fs.Held(keep)
    modifies fs.cache, fs.cache.dev, fs.cache.issued, fs.icache, fs.Copies(), dir
    ensures fresh(fs.Copies() - old(fs.Copies())) && (n != null ==> n in old(fs.Copies()) || fresh(n))
    ensures fs.Valid() && fs.Grew() && (r == Created <==> n != null)
    ensures Chosen(old(fs.cache.disk), fs.sb, old(Tree.Dir(View(fs.cache.disk, fs.sb), dir.inum)), old(dir.d.size),
                   name, r)
    ensures n != null ==> fs.OpenDir(dir) && dir.d.size == old(dir.d.size) + DIR_ENTRY_SIZE
    ensures n != null ==> fs.Current(n) && Used(fs.cache.disk, fs.sb) == Used(old(fs.cache.disk), fs.sb) + {n.inum}
    ensures n != null ==> n.d.size == 0 && n.d.kind == kind && (kind == Directory ==> fs.OpenDir(n))
    ensures n != null ==> n.inum != dir.inum && Available(old(fs.cache.disk), fs.sb, n.inum)
    ensures n != null ==>
      Tree.Dir(View(fs.cache.disk, fs.sb), dir.inum)
      == old(Tree.Dir(View(fs.cache.disk, fs.sb), dir.inum)) + [DirEntry(n.inum, name)]
    ensures n != null ==>
      |FreeBlocks(fs.cache.disk, fs.sb)| == |FreeBlocks(old(fs.cache.disk), fs.sb)| - EntryBlocks(old(dir.d.size))
    ensures n != null ==> fs.StillHeld(AsideFrom({dir.inum}, keep))
  {
    hide FsSpec.InodeAt, FsSpec.WellFormed, Codec.GetSuper, BlockCacheBuffer.Valid, BlockCacheBuffer.Quiet,
         FsView.View, Tree.TreeOk, Tree.Dir, FileSystem.Ready, FileSystem.Coherent, FileSystem.StillHeld,
         FileSystem.Held, AsideFrom, Outcome, FileSystem.Valid, FsView.Used, FreeBlocks, EntryBlocks;
    ghost var disk, v := fs.cache.disk, View(fs.cache.disk, fs.sb);
    fs.DirFacts(dir);
    DirSize(disk, fs.sb, dir.inum);
    NodeIsInode(disk, fs.sb, dir.inum);
    ViewUsed(disk, fs.sb);
    r, n := fs.CreateInode(dir, name, kind, keep);
    CreatedIsSome(v, View(fs.cache.disk, fs.sb), dir.inum, name, kind, r, n);
    if n != null {
      CreatedNode(v, View(fs.cache.disk, fs.sb), dir.inum, name, kind, n);
      NodeIsInode(fs.cache.disk, fs.sb, dir.inum);
      NodeIsInode(fs.cache.disk, fs.sb, n.inum);
      ViewUsed(fs.cache.disk, fs.sb);
      assert Named(Tree.Dir(v, dir.inum), name) + {dir.inum} == {dir.inum};
      LeastAvailable(disk, fs.sb, n.inum);
    }
  }

  /** When a creation under a good name succeeds. */
  lemma CreatedIff(disk: Disk, sb: SuperBlock, es: seq<DirEntry>, size: nat, name: seq<byte>, r: CreateResult)
    requires Chosen(disk, sb, es, size, name, r) && GoodName(name) && |es| <= Tree.DIRECT_ENTRIES
    ensures r == Created <==>
      NewName(es, name) && !InodesExhausted(disk, sb) && EntryBlocks(size) <= |FreeBlocks(disk, sb)|
  {
    hide FreeBlocks, EntryBlocks, InodesExhausted;
  }

  predicate NewName(es: seq<DirEntry>, name: seq<byte>) {
    !(name != [] && name[0] == Path.SLASH) && Tree.Find(es, name) == None
  }

  /** An inode that can be given out. */
  ghost predicate Available(disk: Disk, sb: SuperBlock, i: nat) {
    i < MaxInodes(sb) && i < InodeBits(sb) && i !in Used(disk, sb)
  }

  ghost predicate TwoAvailable(disk: Disk, sb: SuperBlock) {
    exists i, j :: i != j && Available(disk, sb, i) && Available(disk, sb, j)
  }

  /** Taking one of the available inodes leaves another exactly if there were two. */
  lemma AnotherAvailable(d0: Disk, d1: Disk, sb: SuperBlock, n: nat)
    requires Available(d0, sb, n) && Used(d1, sb) == Used(d0, sb) + {n}
    ensures !InodesExhausted(d1, sb) <==> TwoAvailable(d0, sb)
  {
    hide FsView.Used;
    if i, j :| i != j && Available(d0, sb, i) && Available(d0, sb, j) {
      var k := if i == n then j else i;
      assert k !in Used(d1, sb);
    }
    if k: nat :| k < MaxInodes(sb) && k < InodeBits(sb) && k !in Used(d1, sb) {
      assert Available(d0, sb, k) && k != n;
    }
  }

  lemma NotExhausted(disk: Disk, sb: SuperBlock)
    requires TwoAvailable(disk, sb)
    ensures !InodesExhausted(disk, sb)
  {
    hide FsView.Used;
    var i, j :| i != j && Available(disk, sb, i) && Available(disk, sb, j);
  }

  lemma LeastAvailable(disk: Disk, sb: SuperBlock, n: nat)
    requires !InodesExhausted(disk, sb) && n !in Used(disk, sb) && forall i: nat :: i < n ==> i in Used(disk, sb)
    ensures Available(disk, sb, n)
  {
    hide FsView.Used;
    var k: nat :| k < MaxInodes(sb) && k < InodeBits(sb) && k !in Used(disk, sb);
    assert n <= k;
  }

  lemma FoundAfter(es: seq<DirEntry>, i: u64, a: seq<byte>, b: seq<byte>)
    ensures NewName(es + [DirEntry(i, a)], b) <==> NewName(es, b) && a != b
  {
    Tree.FindInBoth(es, [DirEntry(i, a)], b);
  }

  /** There are inodes and blocks for two entries in a directory of this size. */
  ghost predicate RoomForTwo(disk: Disk, sb: SuperBlock, size: nat) {
    TwoAvailable(disk, sb) && TwoEntries(size) <= |FreeBlocks(disk, sb)|
  }

  function TwoEntries(size: nat): nat {
    EntryBlocks(size) + EntryBlocks(size + DIR_ENTRY_SIZE)
  }

  /** Directory `d` lacks both names, and they differ. */
  ghost predicate TwoNew(disk: Disk, sb: SuperBlock, d: nat, a: seq<byte>, b: seq<byte>) {
    && d < MaxInodes(sb) && a != b
    && NewName(Tree.Dir(View(disk, sb), d), a) && NewName(Tree.Dir(View(disk, sb), d), b)
  }

  /** Creates two files in a directory, both open in the end, exactly if there is room and the names
      are new and differ. */
  method OpenTwo(fs: FileSystem, dir: Inode, a: seq<byte>, b: seq<byte>) returns (f: Inode?, g: Inode?)
    requires fs.OpenDir(dir) && dir.d.size + DIR_ENTRY_SIZE < N_DIRECT * BLOCK_SIZE && GoodName(a) && GoodName(b)
    modifies fs.cache, fs.cache.dev, fs.cache.issued, fs.icache, fs.Copies(), dir
    ensures fs.Valid() && fs.Grew()
    ensures f != null ==> f in old(fs.Copies()) || fresh(f)
    ensures g != null ==> g in old(fs.Copies()) || fresh(g)
    ensures f != null && g != null <==>
      TwoNew(old(fs.cache.disk), fs.sb, dir.inum, a, b) && RoomForTwo(old(fs.cache.disk), fs.sb, old(dir.d.size))
    ensures f != null && g != null ==> f.inum != g.inum && fs.Current(f) && fs.Current(g)
    ensures f != null && g != null ==> f.inum in Used(fs.cache.disk, fs.sb) && g.inum in Used(fs.cache.disk, fs.sb)
    ensures f != null && g != null ==> f.d.size == 0 && g.d.size == 0 && f.d.kind == File && g.d.kind == File
    ensures f != null && g != null ==> Tree.TreeOk(View(fs.cache.disk, fs.sb))
    ensures f != null && g != null ==>
      |FreeBlocks(fs.cache.disk, fs.sb)| == |FreeBlocks(old(fs.cache.disk), fs.sb)| - TwoEntries(old(dir.d.size))
  {
    hide FsSpec.InodeAt, FsSpec.WellFormed, Codec.GetSuper, BlockCacheBuffer.Valid, BlockCacheBuffer.Quiet,
         FsView.View, FsView.Used, Tree.TreeOk, Tree.Dir, FileSystem.Ready, FileSystem.Coherent, FileSystem.Valid,
         FreeBlocks, EntryBlocks, NewName, Chosen, InodesExhausted, TwoAvailable;
    ghost var d0, sb, es, size := fs.cache.disk, fs.sb, Tree.Dir(View(fs.cache.disk, fs.sb), dir.inum), dir.d.size;
    fs.DirFacts(dir);
    FewEntries(d0, sb, dir.inum);
    var r, r2;
    g := null;
    r, f := CreateNode(fs, dir, a, File, {});
    CreatedIff(d0, sb, es, size, a, r);
    if f == null {
      if TwoAvailable(d0, sb) {
        NotExhausted(d0, sb);
      }
      return;
    }
    ghost var d1 := fs.cache.disk;
    r2, g := CreateNode(fs, dir, b, File, {f});
    CreatedIff(d1, sb, es + [DirEntry(f.inum, a)], size + DIR_ENTRY_SIZE, b, r2);
    FoundAfter(es, f.inum, a, b);
    AnotherAvailable(d0, d1, sb, f.inum);
  }

  /** Two files of a directory open at once: each is filled and read while the other's handle is held,
      and both give back their bytes, exactly if there is room for all and the names are new. */
  method TwoOpenFiles(fs: FileSystem, dir: Inode, a: seq<byte>, b: seq<byte>, s: seq<byte>, t: seq<byte>)
      returns (done: bool, x: IoResult<seq<byte>>, y: IoResult<seq<byte>>)
    requires fs.OpenDir(dir) && dir.d.size + DIR_ENTRY_SIZE < N_DIRECT * BLOCK_SIZE && GoodName(a) && GoodName(b)
    requires |s| <= N_DIRECT * BLOCK_SIZE && |t| <= N_DIRECT * BLOCK_SIZE
    modifies fs.cache, fs.cache.dev, fs.cache.issued, fs.icache, fs.Copies(), dir
    ensures fs.Valid()
    ensures done <==>
      && TwoNew(old(fs.cache.disk), fs.sb, dir.inum, a, b) && RoomForTwo(old(fs.cache.disk), fs.sb, old(dir.d.size))
      && TwoEntries(old(dir.d.size)) + BlocksFor(|s|) + BlocksFor(|t|) <= |FreeBlocks(old(fs.cache.disk), fs.sb)|
    ensures done ==> x == Done(s) && y == Done(t)
  {
    hide FsSpec.InodeAt, FsSpec.WellFormed, Codec.GetSuper, BlockCacheBuffer.Valid, BlockCacheBuffer.Quiet,
         FsView.View, FsView.Used, Tree.TreeOk, FileSystem.Ready, FileSystem.Coherent, FileSystem.Valid, FreeBlocks,
         TwoEntries, TwoNew, RoomForTwo;
    done, x, y := false, Overflow, Overflow;
    var f, g := OpenTwo(fs, dir, a, b);
    if f == null || g == null {
      return;
    }
    ViewUsed(fs.cache.disk, fs.sb);
    var q := Fill(fs, f, s, {g});
    if q != Ok {
      return;
    }
    ViewUsed(fs.cache.disk, fs.sb);
    q := Fill(fs, g, t, {f});
    if q != Ok {
      return;
    }
    x := ReadAll(fs, f, s);
    y := ReadAll(fs, g, t);
    done := true;
  }

  method ReadAll(fs: FileSystem, file: Inode, ghost s: seq<byte>) returns (r: IoResult<seq<byte>>)
    requires fs.Valid() && fs.Current(file) && file.d.size == |s| && Holds(fs.cache.disk, fs.sb, file.inum, s)
    requires |s| <= N_DIRECT * BLOCK_SIZE
    modifies fs.cache, fs.cache.dev, fs.cache.issued
    ensures fs.Valid() && fs.Grew() && fs.cache.disk == old(fs.cache.disk) && r == Done(s)
  {
    hide FsSpec.InodeAt, FsSpec.WellFormed, Codec.GetSuper, BlockCacheBuffer.Valid, BlockCacheBuffer.Quiet,
         FsView.View, FileSystem.Ready, FileSystem.Coherent;
    NodeIsInode(fs.cache.disk, fs.sb, file.inum);
    r := fs.ReadInode(file, 0, file.d.size);
    assert s[0..|s|] == s;
  }

  // ----- closing and opening again -----

  /** A file created and filled is there with its bytes after the device has been closed and opened
      again. */
  method Persist(fs: FileSystem, dir: Inode, name: seq<byte>, s: seq<byte>)
      returns (done: bool, again: FileSystem, x: IoResult<seq<byte>>)
    requires fs.OpenDir(dir) && dir.d.size < N_DIRECT * BLOCK_SIZE && fs.sb.magic == FS_MAGIC
    requires GoodName(name) && name != [] && Path.NoSlash(name) && |s| <= N_DIRECT * BLOCK_SIZE
    modifies fs.cache, fs.cache.dev, fs.cache.issued, fs.icache, fs.Copies(), dir
    ensures again.Valid() && again.cache.dev == fs.cache.dev && again.sb == fs.sb
    ensures done <==>
      && dir.inum < MaxInodes(fs.sb) && NewName(Tree.Dir(View(old(fs.cache.disk), fs.sb), dir.inum), name)
      && !InodesExhausted(old(fs.cache.disk), fs.sb)
      && EntryBlocks(old(dir.d.size)) + BlocksFor(|s|) <= |FreeBlocks(old(fs.cache.disk), fs.sb)|
    ensures done ==> x == Done(s)
  {
    hide FsSpec.InodeAt, FsSpec.WellFormed, Codec.GetSuper, BlockCacheBuffer.Valid, BlockCacheBuffer.Quiet,
         FsView.View, FsView.Used, Tree.TreeOk, Tree.Dir, FileSystem.Ready, FileSystem.Coherent, FileSystem.Valid,
         FreeBlocks, EntryBlocks, Chosen, InodesExhausted, Holds, SameBut;
    ghost var d0, sb, es := fs.cache.disk, fs.sb, Tree.Dir(View(fs.cache.disk, fs.sb), dir.inum);
    done, x := false, Overflow;
    fs.DirFacts(dir);
    FewEntries(d0, sb, dir.inum);
    var r, f := CreateNode(fs, dir, name, File, {});
    CreatedIff(d0, sb, es, old(dir.d.size), name, r);
    var q := Exhausted;
    if f != null {
      ghost var v := View(fs.cache.disk, sb);
      DirSize(fs.cache.disk, sb, dir.inum);
      q := Fill(fs, f, s, {});
      DirStays(v, View(fs.cache.disk, sb), f.inum, dir.inum);
    }
    again := Reopen(fs);
    if q == Ok {
      x := FindAndRead(again, dir.inum, name, es, f.inum, s);
      done := true;
    }
  }

  /** Walks from directory `d` to the file entered last in it and reads it. */
  method FindAndRead(fs: FileSystem, d: nat, name: seq<byte>, ghost es: seq<DirEntry>, ghost i: nat, ghost s: seq<byte>)
      returns (r: IoResult<seq<byte>>)
    requires fs.Valid() && fs.Copies() == {} && Tree.TreeOk(View(fs.cache.disk, fs.sb))
    requires d < MaxInodes(fs.sb) && i < 0x1_0000_0000_0000_0000 && Tree.IsDir(View(fs.cache.disk, fs.sb), d)
    requires name != [] && Path.NoSlash(name) && Tree.Find(es, name) == None && |es| < Tree.DIRECT_ENTRIES
    requires Tree.Dir(View(fs.cache.disk, fs.sb), d) == es + [DirEntry(i, name)]
    requires Holds(fs.cache.disk, fs.sb, i, s) && |s| <= N_DIRECT * BLOCK_SIZE
    modifies fs.cache, fs.cache.dev, fs.cache.issued, fs.icache
    ensures fs.Valid() && r == Done(s)
  {
    hide FsSpec.InodeAt, FsSpec.WellFormed, Codec.GetSuper, BlockCacheBuffer.Valid, BlockCacheBuffer.Quiet,
         FsView.View, FsView.Used, Tree.TreeOk, Tree.Dir, FileSystem.Ready, FileSystem.Coherent, Path.PathTarget,
         Path.PathBlocks, Path.Visited;
    var dir := fs.GetInode(d);
    Path.OneComponentTarget(View(fs.cache.disk, fs.sb), d, name);
    Tree.FindInBoth(es, [DirEntry(i, name)], name);
    var blocked, file := fs.GetInodeFromPath(name, dir, {});
    NodeIsInode(fs.cache.disk, fs.sb, i);
    r := ReadAll(fs, file, s);
  }

  // ----- a handle that goes stale -----

  /** The cache has the copies of inodes `n - 1`, `n - 2`, and so on, in this order. */
  predicate Latest(copies: seq<Inode>, n: nat) {
    |copies| <= n && forall k: nat :: k < |copies| ==> copies[k].inum == n - 1 - k
  }

  /** Asking for the next inode puts its copy in front of those kept. */
  lemma NextInFront(copies: seq<Inode>, n: nat, capacity: nat, r: Inode, now: seq<Inode>)
    requires Latest(copies, n) && r.inum == n && InFront(Kept(copies, capacity), r, now)
    requires |copies| == Min(n, capacity) && capacity > 0
    ensures Latest(now, n + 1) && |now| == Min(n + 1, capacity)
  {
    assert r !in copies;
  }

  /** A witness that a handle in use goes stale: once as many other inodes as the cache holds have been
      asked for, asking for the first again gives a second copy of it. */
  method StaleHandle(fs: FileSystem) returns (h: Inode, r: Inode)
    requires fs.Ready() && fs.Coherent() && fs.icache.cache == [] && fs.icache.capacity < MaxInodes(fs.sb)
    modifies fs.cache, fs.cache.dev, fs.cache.issued, fs.icache
    ensures fs.Ready() && fs.Coherent() && fs.cache.disk == old(fs.cache.disk)
    ensures h.inum == r.inum && fs.Current(r) && !fs.Current(h)
  {
    hide FsSpec.InodeAt, Codec.GetSuper, BlockCacheBuffer.Valid, BlockCacheBuffer.Quiet, InFront, Latest, Kept;
    var first := fs.GetInode(0);
    NextInFront([], 0, fs.icache.capacity, first, fs.icache.cache);
    var i := 1;
    while i <= fs.icache.capacity
      invariant fs.Ready() && fs.Coherent() && fs.Grew() && fs.cache.disk == old(fs.cache.disk)
      invariant 1 <= i <= fs.icache.capacity + 1
      invariant Latest(fs.icache.cache, i) && |fs.icache.cache| == Min(i, fs.icache.capacity)
    {
      ghost var copies := fs.icache.cache;
      var next := fs.GetInode(i);
      NextInFront(copies, i, fs.icache.capacity, next, fs.icache.cache);
      i := i + 1;
    }
    ghost var copies := fs.icache.cache;
    assert forall e :: e in Kept(copies, fs.icache.capacity) ==> e.inum != 0 by {
      NoneIsFirst(copies, i, fs.icache.capacity);
    }
    var again := fs.GetInode(0);
    h, r := first, again;
  }

  lemma NoneIsFirst(copies: seq<Inode>, n: nat, capacity: nat)
    requires Latest(copies, n) && |copies| < n
    ensures forall e :: e in Kept(copies, capacity) ==> e.inum != 0
  {
  }

  lemma CreatedIsSome(v: Tree.Fs, w: Tree.Fs, d: nat, name: seq<byte>, kind: InodeType, r: CreateResult, n: Inode?)
    requires d < |v.nodes| < 0x1_0000_0000_0000_0000 && Outcome(v, w, d, name, kind, r, n)
    ensures r == Created <==> n != null
  {
  }

  // ----- a new image -----

  /** On a new image every data block is free. */
  lemma AllFree(disk: Disk, sb: SuperBlock)
    requires FirstInUse(disk, sb, 0)
    ensures |FreeBlocks(disk, sb)| == sb.dataBlocks
  {
    hide FsSpec.InUse;
    assert FreeBlocks(disk, sb) == Range(sb.dataStart, sb.dataBlocks);
  }

  /** On a new image with a data block, creating under a good name succeeds. */
  lemma FirstIsCreated(disk: Disk, sb: SuperBlock, name: seq<byte>, r: CreateResult)
    requires MaxInodes(sb) > 1 && InodeBits(sb) > 1 && View(disk, sb) == NewFs(sb) && sb.dataBlocks > 0
    requires FirstInUse(disk, sb, 0) && GoodName(name) && name != [] && Path.NoSlash(name)
    requires Chosen(disk, sb, Tree.Dir(View(disk, sb), 0), 0, name, r)
    ensures r == Created
  {
    hide FirstInUse, FreeBlocks;
    AllFree(disk, sb);
    assert 1 !in Used(disk, sb);
  }

  lemma RootOfNew(disk: Disk, sb: SuperBlock)
    requires MaxInodes(sb) > 0 && View(disk, sb) == NewFs(sb)
    ensures InodeAt(disk, sb, 0).kind == Directory && InodeAt(disk, sb, 0).size == 0
    ensures Used(disk, sb) == {0}
  {
    hide FsSpec.InodeAt;
    NodeIsInode(disk, sb, 0);
  }

  /** Makes a file system, creates a node in its root and finds it again by its path. */
  method FirstFile(dev: BlockDevice, totalBlocks: nat, inodeBlocks: nat, name: seq<byte>, kind: InodeType)
      returns (fs: FileSystem, n: Inode, found: Inode)
    requires Fits(totalBlocks, inodeBlocks) && totalBlocks <= |dev.blocks| <= 0x800_0000_0000_0000
    requires inodeBlocks > 0 && MakeSuper(totalBlocks, inodeBlocks).dataBlocks > 0
    requires GoodName(name) && name != [] && Path.NoSlash(name)
    modifies dev
    ensures fresh(fs) && fs.cache.dev == dev && fs.Valid() && fs.sb == MakeSuper(totalBlocks, inodeBlocks)
    ensures found.inum == n.inum && fs.Current(found)
    ensures Outcome(NewFs(fs.sb), View(fs.cache.disk, fs.sb), 0, name, kind, Created, n)
  {
    hide FsSpec.InodeAt, FsSpec.WellFormed, Codec.GetSuper, BlockCacheBuffer.Valid, BlockCacheBuffer.Quiet,
         FsView.View, Tree.TreeOk, Tree.Dir, FileSystem.Ready, FileSystem.Coherent, FirstInUse, Outcome, Chosen,
         NewFs, Kept, InFront;
    fs := Create(dev, totalBlocks, inodeBlocks);
    RootOfNew(fs.cache.disk, fs.sb);
    var root := fs.GetInode(0);
    ghost var disk := fs.cache.disk;
    var r, m, blocked, g := CreateAndFind(fs, root, name, kind);
    FirstIsCreated(disk, fs.sb, name, r);
    assert m != null by {
      CreatedIsSome(NewFs(fs.sb), View(fs.cache.disk, fs.sb), 0, name, kind, r, m);
    }
    n, found := m, g;
  }

  // ----- two large files -----

  /** No file has bytes. */
  predicate NoBytes(v: Tree.Fs) {
    forall i: nat :: i < |v.nodes| ==> v.nodes[i].bytes == []
  }

  lemma EmptyFilesMayGrow(disk: Disk, sb: SuperBlock, i: nat)
    requires NoBytes(View(disk, sb))
    ensures AloneIndirect(Sizes(disk, sb), i)
  {
    hide FsSpec.InodeAt, FsView.View;
    forall i2: nat | i2 < MaxInodes(sb)
      ensures Sizes(disk, sb)[i2] == 0
    {
      NodeIsInode(disk, sb, i2);
    }
  }

  lemma SomeInodeFree(disk: Disk, sb: SuperBlock, v: Tree.Fs, i: nat)
    requires i < MaxInodes(sb) && i < InodeBits(sb) && v == View(disk, sb) && i !in v.used
    ensures !InodesExhausted(disk, sb)
  {
    hide FsView.Used;
  }

  /** Takes an inode for a new file; inode `i` shows that one is free. */
  method EmptyFile(fs: FileSystem, ghost keep: set<Inode>, ghost i: nat) returns (f: Inode)
    requires fs.Valid() && fs.Held(keep)
    requires i < MaxInodes(fs.sb) && i < InodeBits(fs.sb) && i !in Used(fs.cache.disk, fs.sb)
    requires NoBytes(View(fs.cache.disk, fs.sb))
    modifies fs.cache, fs.cache.dev, fs.cache.issued, fs.icache, fs.Copies()
    ensures fs.Valid() && fs.Grew() && fs.StillHeld(keep)
    ensures fresh(fs.Copies() - old(fs.Copies())) && (f in old(fs.Copies()) || fresh(f))
    ensures fs.Current(f) && f.d.size == 0 && f.inum <= i && f.inum !in old(Used(fs.cache.disk, fs.sb))
    ensures NoBytes(View(fs.cache.disk, fs.sb))
    ensures Used(fs.cache.disk, fs.sb) == old(Used(fs.cache.disk, fs.sb)) + {f.inum}
    ensures FreeBlocks(fs.cache.disk, fs.sb) == old(FreeBlocks(fs.cache.disk, fs.sb))
  {
    hide FsSpec.InodeAt, FsSpec.WellFormed, Codec.GetSuper, BlockCacheBuffer.Valid, BlockCacheBuffer.Quiet,
         FsView.Used, FsView.Nodes, FileSystem.Coherent, FreeBlocks;
    ghost var disk := fs.cache.disk;
    SomeInodeFree(disk, fs.sb, View(disk, fs.sb), i);
    var r := fs.AllocateInode(File, keep);
    f := r;
    SameFree(disk, fs.cache.disk, fs.sb);
  }

  /** On a new image: two empty files. */
  method TwoEmpty(dev: BlockDevice, totalBlocks: nat, inodeBlocks: nat) returns (fs: FileSystem, f: Inode, g: Inode)
    requires Fits(totalBlocks, inodeBlocks) && totalBlocks <= |dev.blocks| <= 0x800_0000_0000_0000 && inodeBlocks > 0
    modifies dev
    ensures fresh(fs) && fresh(fs.cache) && fresh(fs.cache.issued) && fresh(f) && fresh(g) && fs.cache.dev == dev
    ensures fs.Valid() && fs.Current(f) && fs.Current(g) && f.inum != g.inum && f.d.size == 0 && g.d.size == 0
    ensures fs.sb == MakeSuper(totalBlocks, inodeBlocks) && NoBytes(View(fs.cache.disk, fs.sb))
    ensures |FreeBlocks(fs.cache.disk, fs.sb)| == fs.sb.dataBlocks
  {
    hide FsSpec.InodeAt, FsSpec.WellFormed, Codec.GetSuper, BlockCacheBuffer.Valid, BlockCacheBuffer.Quiet,
         FsView.View, FsView.Used, Tree.TreeOk, FileSystem.Ready, FileSystem.Coherent, FileSystem.Valid, FirstInUse,
         FreeBlocks;
    fs := Create(dev, totalBlocks, inodeBlocks);
    AllFree(fs.cache.disk, fs.sb);
    RootOfNew(fs.cache.disk, fs.sb);
    f := EmptyFile(fs, {}, 1);
    g := EmptyFile(fs, {f}, 2);
  }

  /** On a new image: two files, of 29 and of 28 blocks. */
  method TwoFiles(dev: BlockDevice, totalBlocks: nat, inodeBlocks: nat) returns (fs: FileSystem, f: Inode, g: Inode)
    requires Fits(totalBlocks, inodeBlocks) && totalBlocks <= |dev.blocks| <= 0x800_0000_0000_0000
    requires inodeBlocks > 0 && MakeSuper(totalBlocks, inodeBlocks).dataBlocks > 57
    modifies dev
    ensures fresh(fs) && fresh(fs.cache) && fresh(fs.cache.issued) && fresh(g) && fs.cache.dev == dev
    ensures fs.Valid() && fs.Current(f) && fs.Current(g) && f.inum != g.inum
    ensures f.d.size == 29 * BLOCK_SIZE && g.d.size == 28 * BLOCK_SIZE && |FreeBlocks(fs.cache.disk, fs.sb)| > 0
  {
    hide FsSpec.InodeAt, FsSpec.WellFormed, Codec.GetSuper, BlockCacheBuffer.Valid, BlockCacheBuffer.Quiet,
         FsView.View, FileSystem.Ready, FileSystem.Coherent, FileSystem.Valid, FreeBlocks, FsGrow.AloneIndirect,
         Tree.Grown, FsSpec.Sizes;
    fs, f, g := TwoEmpty(dev, totalBlocks, inodeBlocks);
    EmptyFilesMayGrow(fs.cache.disk, fs.sb, f.inum);
    var r := fs.ResizeInode(f, 29 * BLOCK_SIZE);
    var s := fs.ResizeInode(g, 28 * BLOCK_SIZE);
  }

  /** A witness that two files past the direct range break the disk: from a new image, the second of
      two files grows past its 28th block, the call succeeds, and the disk is no longer in order. */
  method SecondBigFile(dev: BlockDevice, totalBlocks: nat, inodeBlocks: nat)
      returns (fs: FileSystem, ghost before: Disk, r: ResizeResult)
    requires Fits(totalBlocks, inodeBlocks) && totalBlocks <= |dev.blocks| <= 0x800_0000_0000_0000
    requires inodeBlocks > 0 && MakeSuper(totalBlocks, inodeBlocks).dataBlocks > 57
    modifies dev
    ensures r == Ok && WellFormed(before, fs.sb) && !WellFormed(fs.cache.disk, fs.sb)
  {
    hide FsSpec.InodeAt, FsSpec.WellFormed, Codec.GetSuper, BlockCacheBuffer.Valid, BlockCacheBuffer.Quiet,
         FsView.View, FileSystem.Ready, FileSystem.Coherent, FreeBlocks;
    var f, g;
    fs, f, g := TwoFiles(dev, totalBlocks, inodeBlocks);
    before := fs.cache.disk;
    assert Sizes(before, fs.sb)[f.inum] == 29;
    r := fs.ResizeInode(g, 28 * BLOCK_SIZE + 1);
  }
}
