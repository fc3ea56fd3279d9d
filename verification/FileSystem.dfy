/** The file system over the block cache: bitmap allocation, inodes, growing, reading and writing
    files. Every method is specified on the logical disk `cache.disk`. */
module FileSystem {
  import opened Common
  import opened Codec
  import opened Bitmap
  import opened BlockCache
  import opened FsSpec
  import opened FsData
  import opened FsMeta
  import opened FsGrow
  import opened FsFree
  import opened FsView
  import Tree
  import Path

  ghost predicate Full(b: Block) {
    forall k: nat :: k < BITS_PER_BLOCK ==> Bit(b, k)
  }

  lemma FullRange(disk: Disk, start: nat, end: nat)
    requires start <= end <= |disk| && forall m: nat :: start <= m < end ==> Full(disk[m])
    ensures forall g: nat :: g < (end - start) * BITS_PER_BLOCK ==> BitAt(disk, start, g)
  {
    forall g: nat | g < (end - start) * BITS_PER_BLOCK
      ensures BitAt(disk, start, g)
    {
      assert Full(disk[start + g / BITS_PER_BLOCK]);
    }
  }

  /** The bit found in block `i` after full blocks is the least clear bit of the bitmap. */
  lemma BitFound(disk: Disk, start: nat, i: nat, k: nat)
    requires start <= i < |disk| && k < BITS_PER_BLOCK
    requires forall m: nat :: start <= m < i ==> Full(disk[m])
    requires !Bit(disk[i], k) && forall j: nat :: j < k ==> Bit(disk[i], j)
    ensures var g := (i - start) * BITS_PER_BLOCK + k;
      && start + g / BITS_PER_BLOCK == i && MarkBit(disk, start, g) == disk[i := SetBit(disk[i], k)]
      && !BitAt(disk, start, g)
      && forall h: nat :: h < g ==> BitAt(disk, start, h)
  {
    var g := (i - start) * BITS_PER_BLOCK + k;
    assert g / BITS_PER_BLOCK == i - start && g % BITS_PER_BLOCK == k;
    FullRange(disk, start, i);
    forall h: nat | h < g
      ensures BitAt(disk, start, h)
    {
      if h >= (i - start) * BITS_PER_BLOCK {
        assert h / BITS_PER_BLOCK == i - start && h % BITS_PER_BLOCK < k;
      }
    }
  }

  const INODE_BUFFER_SIZE: nat := 64

  /** In-memory copy of an inode, with its place on disk. */
  class Inode {
    const inum: nat
    const blockId: nat
    const slot: nat
    var d: DiskInode

    constructor (inum: nat, blockId: nat, slot: nat, d: DiskInode)
      ensures this.inum == inum && this.blockId == blockId && this.slot == slot && this.d == d
    {
      this.inum, this.blockId, this.slot, this.d := inum, blockId, slot, d;
    }
  }

  class InodeCacheBuffer {
    const capacity: nat
    var cache: seq<Inode>

    constructor (capacity: nat)
      ensures this.capacity == capacity && cache == []
    {
      this.capacity, cache := capacity, [];
    }
  }

  /** The copies that stay when another one is asked for: a full cache drops its last one. */
  function Kept(copies: seq<Inode>, capacity: nat): seq<Inode> {
    if |copies| == capacity > 0 then copies[..capacity - 1] else copies
  }

  /** `r` has come to the front of `copies`, from among them or as a new one. */
  ghost predicate InFront(copies: seq<Inode>, r: Inode, now: seq<Inode>) {
    || (r !in copies && now == [r] + copies)
    || exists pos: nat :: pos < |copies| && copies[pos] == r && now == [r] + (copies[..pos] + copies[pos + 1..])
  }

  /** Where the element at position `k` was before position `pos` was moved to the front. */
  function WasAt(k: nat, pos: nat): nat {
    if k == 0 then pos else if k <= pos then k - 1 else k
  }

  lemma MovedToFront<T>(s: seq<T>, pos: nat)
    requires pos < |s|
    ensures var t := [s[pos]] + (s[..pos] + s[pos + 1..]);
      && |t| == |s|
      && (forall k: nat :: k < |t| ==> t[k] == s[WasAt(k, pos)])
      && (forall e :: e in t <==> e in s)
  {
    var t := [s[pos]] + (s[..pos] + s[pos + 1..]);
    forall e | e in s
      ensures e in t
    {
      var k :| 0 <= k < |s| && s[k] == e;
      assert k < pos ==> t[k + 1] == e;
      assert k > pos ==> t[k] == e;
    }
  }

  class FileSystem {
    const cache: BlockCacheBuffer
    const icache: InodeCacheBuffer
    const sb: SuperBlock

    constructor (cache: BlockCacheBuffer, icache: InodeCacheBuffer, sb: SuperBlock)
      ensures this.cache == cache && this.icache == icache && this.sb == sb
    {
      this.cache, this.icache, this.sb := cache, icache, sb;
    }

    ghost predicate Ready()
      reads cache, cache.dev, cache.issued
    {
      && cache.Valid()
      && cache.Quiet()
      && cache.capacity >= 2
      && LayoutOk(sb, |cache.disk|)
    }

    /** The cached copies of inodes. */
    ghost function Copies(): set<Inode>
      reads icache
    {
      set e | e in icache.cache
    }

    /** `find_inode`: the copy knows where its inode is. */
    predicate Placed(e: Inode) {
      e.blockId == InodeBlock(sb, e.inum) && e.slot == e.inum % INODES_PER_BLOCK
    }

    /** At most one copy per inode number, within the capacity, and each equals the inode on disk. */
    ghost predicate Coherent()
      reads cache, icache, icache.cache
    {
      && 0 < icache.capacity && |icache.cache| <= icache.capacity
      && (forall k, l :: 0 <= k < l < |icache.cache| ==> icache.cache[k].inum != icache.cache[l].inum)
      && (forall e :: e in icache.cache ==> Placed(e))
      && (forall e :: e in icache.cache && e.inum < MaxInodes(sb) ==> e.d == InodeAt(cache.disk, sb, e.inum))
    }

    /** A handle that may be used: it equals the inode on disk, and no other copy of that inode is
        in the cache. */
    ghost predicate Current(inode: Inode)
      reads cache, icache, inode
    {
      && Placed(inode)
      && inode.inum < MaxInodes(sb)
      && inode.d == InodeAt(cache.disk, sb, inode.inum)
      && forall e :: e in icache.cache && e.inum == inode.inum ==> e == inode
    }

    ghost predicate Valid()
      reads cache, cache.dev, cache.issued, icache, icache.cache
    {
      Ready() && Coherent() && WellFormed(cache.disk, sb) && Anchored()
    }

    /** The super block on disk is the one in use. */
    ghost predicate Anchored()
      reads cache
    {
      SUPER_BLOCK_LOC < |cache.disk| && GetSuper(cache.disk[SUPER_BLOCK_LOC]) == sb
    }

    /** Handles of inodes in use that may be used. */
    ghost predicate Held(handles: set<Inode>)
      reads cache, icache, handles
    {
      forall h :: h in handles ==> Current(h) && h.inum in Used(cache.disk, sb)
    }

    /** The handles may still be used, and none has changed. */
    twostate predicate StillHeld(handles: set<Inode>)
      reads cache, icache, handles
    {
      Held(handles) && forall h :: h in handles ==> h.d == old(h.d)
    }

    /** Only new copies joined the cache. */
    twostate predicate Joined()
      reads cache
    {
      old(cache.issued) <= cache.issued && fresh(cache.issued - old(cache.issued))
    }

    /** Only new copies joined the cache, and the super block is as it was. */
    twostate predicate Grew()
      reads cache
    {
      && Joined() && |cache.disk| == |old(cache.disk)|
      && (SUPER_BLOCK_LOC < |cache.disk| ==> cache.disk[SUPER_BLOCK_LOC] == old(cache.disk)[SUPER_BLOCK_LOC])
    }

    method ReadBlock(id: nat) returns (b: Block)
      requires Ready() && id < |cache.disk|
      modifies cache, cache.dev, cache.issued
      ensures Ready() && Grew() && cache.disk == old(cache.disk) && b == cache.disk[id]
    {
      cache.QuietIsAvailable(id);
      b := cache.Read(id);
    }

    method WriteBlock(id: nat, b: Block)
      requires Ready() && id < |cache.disk|
      modifies cache, cache.dev, cache.issued
      ensures Ready() && Joined() && (id != SUPER_BLOCK_LOC ==> Grew()) && cache.disk == old(cache.disk)[id := b]
    {
      cache.QuietIsAvailable(id);
      cache.Update(id, b);
    }

    /** Finds and sets the least clear bit of the bitmap in blocks `start .. end`. */
    method AllocateBmap(start: nat, end: nat) returns (r: Option<nat>)
      requires Ready() && start <= end <= |cache.disk|
      modifies cache, cache.dev, cache.issued
      ensures Ready() && Joined() && (start > SUPER_BLOCK_LOC ==> Grew())
      ensures r == None ==> cache.disk == old(cache.disk)
      ensures r == None ==> forall g: nat :: g < (end - start) * BITS_PER_BLOCK ==> BitAt(cache.disk, start, g)
      ensures r.Some? ==> r.value < (end - start) * BITS_PER_BLOCK && !BitAt(old(cache.disk), start, r.value)
      ensures r.Some? ==> forall g: nat :: g < r.value ==> BitAt(old(cache.disk), start, g)
      ensures r.Some? ==>
        start + r.value / BITS_PER_BLOCK < end && cache.disk == MarkBit(old(cache.disk), start, r.value)
    {
      hide Codec.GetSuper, BlockCacheBuffer.Valid, BlockCacheBuffer.Quiet;
      var i := start;
      while i < end
        invariant start <= i <= end
        invariant Ready() && Joined() && cache.disk == old(cache.disk)
        invariant forall m: nat :: start <= m < i ==> Full(cache.disk[m])
      {
        var blockOffset := i - start;
        var b := ReadBlock(i);
        var offset, nb := Allocate(b);
        WriteBlock(i, nb);
        if offset.Some? {
          BitFound(old(cache.disk), start, i, offset.value);
          return Some(blockOffset * BITS_PER_BLOCK + offset.value);
        }
        assert cache.disk == old(cache.disk);
        i := i + 1;
      }
      FullRange(cache.disk, start, end);
      r := None;
    }

    /** Position of the copy of inode `inum`, or the length of the cache. */
    method FindInode(inum: nat) returns (k: nat)
      ensures k <= |icache.cache|
      ensures k < |icache.cache| ==> icache.cache[k].inum == inum
      ensures forall l :: 0 <= l < k ==> icache.cache[l].inum != inum
    {
      k := 0;
      while k < |icache.cache| && icache.cache[k].inum != inum
        invariant k <= |icache.cache|
        invariant forall l :: 0 <= l < k ==> icache.cache[l].inum != inum
      {
        k := k + 1;
      }
    }

    /** Moves the copy at position `pos` to the front. */
    method Promote(pos: nat) returns (r: Inode)
      requires Coherent() && pos < |icache.cache|
      modifies icache
      ensures Coherent() && r == old(icache.cache)[pos] && r in icache.cache
      ensures icache.cache == [r] + (old(icache.cache)[..pos] + old(icache.cache)[pos + 1..])
      ensures forall e :: e in icache.cache <==> e in old(icache.cache)
    {
      hide FsSpec.InodeAt, Placed;
      r := icache.cache[pos];
      MovedToFront(icache.cache, pos);
      icache.cache := [r] + (icache.cache[..pos] + icache.cache[pos + 1..]);
    }

    /** Reads an inode that is not cached and puts its copy in front. */
    method LoadInode(inum: nat) returns (r: Inode)
      requires Ready() && Coherent() && inum <= MaxInodes(sb) && |icache.cache| < icache.capacity
      requires forall e :: e in icache.cache ==> e.inum != inum
      modifies cache, cache.dev, cache.issued, icache
      ensures Ready() && Grew() && Coherent() && cache.disk == old(cache.disk)
      ensures fresh(r) && r.inum == inum && icache.cache == [r] + old(icache.cache)
      ensures r.d == InodeAt(cache.disk, sb, inum)
    {
      hide Codec.GetSlot, Codec.GetSuper, BlockCacheBuffer.Valid, BlockCacheBuffer.Quiet;
      InodeSlotOnDisk(sb, inum, |cache.disk|);
      var b := ReadBlock(InodeBlock(sb, inum));
      r := new Inode(inum, InodeBlock(sb, inum), inum % INODES_PER_BLOCK, GetSlot(b, inum % INODES_PER_BLOCK));
      icache.cache := [r] + icache.cache;
    }

    /** `InodeCacheBuffer::get`: drops the last copy of a full cache, even on a hit, and puts the
        inode's copy in front, reading it from disk if it is not cached. Null stands for
        `InodeNotExists`. */
    method GetInode(inum: nat) returns (r: Inode?)
      requires Ready() && Coherent()
      modifies cache, cache.dev, cache.issued, icache
      ensures Ready() && Grew() && Coherent() && cache.disk == old(cache.disk)
      ensures r == null <==> inum > MaxInodes(sb)
      ensures r == null ==> icache.cache == old(icache.cache)
      ensures r != null ==> r.inum == inum && r in icache.cache && Fetched(r)
      ensures r != null && inum < MaxInodes(sb) ==> Current(r)
      ensures forall e :: e in icache.cache ==> e in old(icache.cache) || e == r
      ensures r != null && fresh(r) ==> r.d == InodeAt(cache.disk, sb, inum)
      ensures fresh(Copies() - old(Copies()))
    {
      hide FsSpec.InodeAt, Codec.GetSuper, BlockCacheBuffer.Valid, BlockCacheBuffer.Quiet;
      if inum > MaxInodes(sb) {
        return null;
      }
      if |icache.cache| == icache.capacity {
        icache.cache := icache.cache[..icache.capacity - 1];
      }
      var pos := FindInode(inum);
      if pos < |icache.cache| {
        r := Promote(pos);
      } else {
        r := LoadInode(inum);
      }
      UniqueCopy(r);
    }

    /** The copy `r` has come to the front of those kept, and is new exactly if none of them has its
        inode. */
    twostate predicate Fetched(new r: Inode)
      reads icache
    {
      && InFront(Kept(old(icache.cache), icache.capacity), r, icache.cache)
      && (r in old(icache.cache) || fresh(r))
      && (fresh(r) <==> forall e :: e in Kept(old(icache.cache), icache.capacity) ==> e.inum != r.inum)
    }

    /** After `get` a handle held before may still be used exactly if another inode was asked for or its
        copy was kept; the source drops copies that are in use. */
    twostate lemma HandleStays(new r: Inode, h: Inode)
      requires old(Coherent()) && old(Current(h)) && h.d == old(h.d) && cache.disk == old(cache.disk)
      requires Fetched(r)
      ensures Current(h) <==> r.inum != h.inum || h in Kept(old(icache.cache), icache.capacity)
    {
      hide FsSpec.InodeAt;
      ghost var kept := Kept(old(icache.cache), icache.capacity);
      assert forall e :: e in kept ==> e in old(icache.cache);
      assert r in icache.cache by {
        assert icache.cache[0] == r;
      }
      assert forall e :: e in icache.cache ==> e == r || e in kept;
      if r.inum == h.inum && h in kept {
        assert !fresh(r);
      }
    }

    /** Handles stay usable while only inodes `a` and `b` change, which they are not handles of, and no
        other copies of theirs join the cache. */
    twostate lemma HandlesStay(handles: set<Inode>, new a: nat, new b: nat)
      requires old(Held(handles)) && forall h :: h in handles ==> h.d == old(h.d)
      requires a in Used(old(cache.disk), sb) ==> forall h :: h in handles ==> h.inum != a
      requires b in Used(old(cache.disk), sb) ==> forall h :: h in handles ==> h.inum != b
      requires forall i: nat :: i < MaxInodes(sb) && i != a && i != b ==>
        InodeAt(cache.disk, sb, i) == InodeAt(old(cache.disk), sb, i)
      requires Used(old(cache.disk), sb) <= Used(cache.disk, sb)
      requires forall e :: e in icache.cache ==> e in old(icache.cache) || e.inum !in Used(old(cache.disk), sb)
      ensures StillHeld(handles)
    {
      hide FsSpec.InodeAt, FsView.Used;
    }

    twostate lemma FetchedAside(new r: Inode, handles: set<Inode>)
      requires old(Coherent()) && old(Held(handles)) && cache.disk == old(cache.disk) && Fetched(r)
      requires forall h :: h in handles ==> h.d == old(h.d)
      ensures Held(AsideFrom({r.inum}, handles))
    {
      hide FsSpec.InodeAt, FsView.Used, Fetched;
      forall h | h in handles && h.inum != r.inum
        ensures Current(h)
      {
        HandleStays(r, h);
      }
    }

    /** Fewer handles of the same objects. */
    twostate lemma FewerHeld(handles: set<Inode>, new inums: set<nat>)
      requires Held(handles) && forall h :: h in handles ==> h.d == old(h.d)
      ensures StillHeld(AsideFrom(inums, handles))
    {
      hide Current, FsView.Used;
    }

    twostate lemma NothingFetched(new inums: set<nat>, handles: set<Inode>)
      requires old(Held(handles)) && cache.disk == old(cache.disk) && icache.cache == old(icache.cache)
      requires forall h :: h in handles ==> h.d == old(h.d)
      ensures Held(AsideFrom(inums, handles))
    {
      hide FsSpec.InodeAt, FsView.Used;
    }

    lemma UniqueCopy(r: Inode)
      requires Coherent() && r in icache.cache
      ensures forall e :: e in icache.cache && e.inum == r.inum ==> e == r
    {
    }

    /** `update_dinode`: writes the inode on disk and its copy together. */
    method UpdateDInode(inode: Inode, d: DiskInode)
      requires Ready() && Coherent() && Current(inode)
      modifies cache, cache.dev, cache.issued, inode
      ensures Ready() && Grew() && Coherent() && Current(inode) && inode.d == d
      ensures InodeBlock(sb, inode.inum) < |old(cache.disk)|
      ensures cache.disk == PutInodeAt(old(cache.disk), sb, inode.inum, d)
      ensures OtherInodes(old(cache.disk), cache.disk, sb, inode.inum)
    {
      hide FsSpec.InodeAt, Codec.GetSuper, BlockCacheBuffer.Valid, BlockCacheBuffer.Quiet;
      InodeSlotOnDisk(sb, inode.inum, |cache.disk|);
      var b := ReadBlock(inode.blockId);
      WriteBlock(inode.blockId, PutSlot(b, inode.slot, d));
      inode.d := d;
      forall i: nat | i < MaxInodes(sb)
        ensures InodeAt(cache.disk, sb, i) == if i == inode.inum then d else InodeAt(old(cache.disk), sb, i)
      {
        PutInodeAtGet(old(cache.disk), sb, inode.inum, d, i);
      }
    }

    /** `get_bid` for part `idx` of a file. */
    method GetBid(inode: Inode, idx: nat) returns (bid: nat)
      requires Ready() && Coherent() && Current(inode) && idx < MAX_BLOCKS_PER_INODE
      requires inode.d.indirect < |cache.disk|
      modifies cache, cache.dev, cache.issued
      ensures Ready() && Grew() && Coherent() && Current(inode) && cache.disk == old(cache.disk)
      ensures bid == BlockOf(cache.disk, sb, inode.inum, idx)
    {
      hide FsSpec.InodeAt, Codec.GetSuper, BlockCacheBuffer.Valid, BlockCacheBuffer.Quiet;
      if idx < N_DIRECT {
        bid := inode.d.addresses[idx];
      } else {
        var index := ReadBlock(inode.d.indirect);
        bid := WordAt(index, idx - N_DIRECT);
      }
    }

    /** One round of `write_data`: `piece` goes into one block of the file. */
    method WriteChunk(inode: Inode, start: nat, piece: seq<byte>, ghost own: seq<nat>)
      requires Ready() && Coherent() && Current(inode) && Owns(cache.disk, sb, own)
      requires start + |piece| <= inode.d.size && piece != []
      requires start % BLOCK_SIZE + |piece| <= BLOCK_SIZE
      modifies cache, cache.dev, cache.issued
      ensures Ready() && Grew() && Coherent() && Current(inode) && Owns(cache.disk, sb, own)
      ensures Wrote(old(cache.disk), cache.disk, sb, own, inode.inum, start, piece)
    {
      hide FsSpec.InodeAt, FsSpec.BlockOf, Codec.GetSuper, BlockCacheBuffer.Valid, BlockCacheBuffer.Quiet;
      assert InodeOk(cache.disk, sb, inode.inum, own[inode.inum]);
      WritePiece(cache.disk, sb, own, inode.inum, start, piece);
      var bid := GetBid(inode, start / BLOCK_SIZE);
      var b := ReadBlock(bid);
      WriteBlock(bid, Splice(b, start % BLOCK_SIZE, piece));
    }

    /** `write_data`: replaces the bytes of the file from `offset` on, clipped to its size. The source
        subtracts the offset from the size, which overflows if it is larger. */
    method WriteInode(inode: Inode, offset: nat, buf: seq<byte>) returns (r: IoResult<nat>)
      requires Valid() && Current(inode)
      modifies cache, cache.dev, cache.issued
      ensures Valid() && Grew() && Current(inode) && r != Blocked
      ensures r == Overflow <==> offset > inode.d.size
      ensures r == Overflow ==> cache.disk == old(cache.disk)
      ensures r.Done? ==> r.value == Min(|buf|, inode.d.size - offset)
      ensures r.Done? ==>
        View(cache.disk, sb) == Tree.Written(View(old(cache.disk), sb), inode.inum, offset, buf[..r.value])
      ensures OtherInodes(old(cache.disk), cache.disk, sb, inode.inum)
      ensures FreeBlocks(cache.disk, sb) == FreeBlocks(old(cache.disk), sb)
    {
      hide FsSpec.InodeAt, Codec.GetSuper, BlockCacheBuffer.Valid, BlockCacheBuffer.Quiet, FsView.Wrote, FreeBlocks;
      if offset > inode.d.size {
        return Overflow;
      }
      ghost var d0, own, i := cache.disk, Sizes(cache.disk, sb), inode.inum;
      var start := offset;
      var end := start + Min(|buf|, inode.d.size - offset);
      var startBlock := start / BLOCK_SIZE;
      var completed := 0;
      WroteNothing(d0, sb, own, i, offset);
      while start < end
        invariant offset <= start == offset + completed <= end
        invariant start < end ==> startBlock == start / BLOCK_SIZE
        invariant Ready() && Grew() && Coherent() && Current(inode)
        invariant Owns(cache.disk, sb, own) && Wrote(d0, cache.disk, sb, own, i, offset, buf[..completed])
      {
        var incr := Min(end, (startBlock + 1) * BLOCK_SIZE) - start;
        ChunkFits(start, startBlock, end);
        var piece := buf[completed..completed + incr];
        ghost var d1 := cache.disk;
        WriteChunk(inode, start, piece, own);
        WroteMore(d0, d1, cache.disk, sb, own, i, offset, buf[..completed], piece);
        assert buf[..completed] + piece == buf[..completed + incr];
        completed := completed + incr;
        start := start + incr;
        startBlock := startBlock + 1;
      }
      WrittenView(d0, cache.disk, sb, own, i, offset, buf[..completed]);
      WroteOthers(d0, cache.disk, sb, own, i, offset, buf[..completed]);
      WroteFree(d0, cache.disk, sb, own, i, offset, buf[..completed]);
      r := Done(completed);
    }

    /** `read_data`: the bytes of the file from `offset` on, clipped to its size. The source takes
        the cache lock before it looks up the block, and an indirect block takes it again: it then
        never returns, which `Blocked` stands for. */
    method ReadInode(inode: Inode, offset: nat, len: nat) returns (r: IoResult<seq<byte>>)
      requires Valid() && Current(inode)
      modifies cache, cache.dev, cache.issued
      ensures Valid() && Grew() && Current(inode) && cache.disk == old(cache.disk)
      ensures r == Overflow <==> offset > inode.d.size
      ensures offset <= inode.d.size ==>
        var n := Min(len, inode.d.size - offset);
        && (r == Blocked <==> n > 0 && offset + n > N_DIRECT * BLOCK_SIZE)
        && (r.Done? ==> r.value == Contents(cache.disk, sb, inode.inum)[offset..offset + n])
    {
      hide FsSpec.InodeAt, FsSpec.Contents, FsSpec.WellFormed, Codec.GetSuper, BlockCacheBuffer.Valid,
           BlockCacheBuffer.Quiet;
      if offset > inode.d.size {
        return Overflow;
      }
      ghost var f := Contents(cache.disk, sb, inode.inum);
      var start := offset;
      var end := start + Min(len, inode.d.size - offset);
      var startBlock := start / BLOCK_SIZE;
      var buf := [];
      while start < end
        invariant offset <= start <= end
        invariant start < end ==> startBlock == start / BLOCK_SIZE
        invariant start > offset ==> start <= N_DIRECT * BLOCK_SIZE
        invariant Ready() && Grew() && Coherent() && Current(inode) && cache.disk == old(cache.disk)
        invariant buf == f[offset..start]
      {
        var incr := Min(end, (startBlock + 1) * BLOCK_SIZE) - start;
        ChunkFits(start, startBlock, end);
        if startBlock >= N_DIRECT {
          return Blocked;
        }
        var chunk := ReadChunk(inode, start, incr);
        assert f[offset..start] + f[start..start + incr] == f[offset..start + incr];
        buf := buf + chunk;
        start := start + incr;
        startBlock := startBlock + 1;
      }
      r := Done(buf);
    }

    /** One round of `read_data`, in the direct range. */
    method ReadChunk(inode: Inode, start: nat, incr: nat) returns (chunk: seq<byte>)
      requires Ready() && Coherent() && Current(inode) && WellFormed(cache.disk, sb)
      requires start + incr <= inode.d.size && start % BLOCK_SIZE + incr <= BLOCK_SIZE && 0 < incr
      requires start / BLOCK_SIZE < N_DIRECT
      modifies cache, cache.dev, cache.issued
      ensures Ready() && Grew() && Coherent() && Current(inode) && cache.disk == old(cache.disk)
      ensures chunk == Contents(cache.disk, sb, inode.inum)[start..start + incr]
    {
      hide FsSpec.InodeAt, Codec.GetSuper, BlockCacheBuffer.Valid, BlockCacheBuffer.Quiet;
      assert InodeOk(cache.disk, sb, inode.inum, Sizes(cache.disk, sb)[inode.inum]);
      var bid := inode.d.addresses[start / BLOCK_SIZE];
      assert InData(sb, BlockOf(cache.disk, sb, inode.inum, start / BLOCK_SIZE));
      var b := ReadBlock(bid);
      chunk := b[start % BLOCK_SIZE..start % BLOCK_SIZE + incr];
      forall k: nat | k < incr
        ensures chunk[k] == Contents(cache.disk, sb, inode.inum)[start + k]
      {
        InOnePart(start, incr, start + k);
      }
    }

    /** `allocate_data_block`: the least data block not in use, now marked. When there is none, a
        bit past the data blocks may have been set (`extra`). */
    method AllocateDataBlock() returns (r: Option<nat>, ghost extra: Option<nat>)
      requires Ready()
      modifies cache, cache.dev, cache.issued
      ensures Ready() && Grew()
      ensures r.Some? ==> InData(sb, r.value) && !InUse(old(cache.disk), sb, r.value)
      ensures r.Some? ==> cache.disk == MarkBit(old(cache.disk), sb.dataBmapStart, r.value - sb.dataStart)
      ensures r.Some? ==> forall b: nat :: sb.dataStart <= b < r.value ==> InUse(old(cache.disk), sb, b)
      ensures r == None ==> forall b: nat :: InData(sb, b) ==> InUse(old(cache.disk), sb, b)
      ensures r == None && extra == None ==> cache.disk == old(cache.disk)
      ensures r == None && extra.Some? ==>
        sb.dataBlocks <= extra.value < (sb.dataStart - sb.dataBmapStart) * BITS_PER_BLOCK
      ensures r == None && extra.Some? ==> cache.disk == MarkBit(old(cache.disk), sb.dataBmapStart, extra.value)
    {
      hide Codec.GetSuper, BlockCacheBuffer.Valid, BlockCacheBuffer.Quiet, FsSpec.BitAt;
      var g := AllocateBmap(sb.dataBmapStart, sb.dataStart);
      extra := None;
      if g.Some? {
        if g.value >= sb.dataBlocks {
          extra := g;
          return None, g;
        }
        return Some(sb.dataStart + g.value), extra;
      }
      r := None;
    }

    /** `clear_block`: zeroes the block and writes it to the device at once. */
    method ClearBlock(bid: nat)
      requires Ready() && bid < |cache.disk|
      modifies cache, cache.dev, cache.issued
      ensures Ready() && Joined() && (bid != SUPER_BLOCK_LOC ==> Grew())
      ensures cache.disk == old(cache.disk)[bid := ZeroBlock()]
      ensures |cache.dev.blocks| == |cache.disk| && cache.dev.blocks[bid] == ZeroBlock()
    {
      cache.QuietIsAvailable(bid);
      cache.UpdateNow(bid, ZeroBlock());
    }

    /** `set_bid` inside `update_dinode`. */
    method SetBlock(inode: Inode, idx: nat, bid: u64)
      requires Ready() && Coherent() && Current(inode) && idx < MAX_BLOCKS_PER_INODE && inode.d.indirect == 0
      modifies cache, cache.dev, cache.issued, inode
      ensures Ready() && Grew() && Coherent() && Current(inode)
      ensures InodeBlock(sb, inode.inum) < |old(cache.disk)| && InodeAt(old(cache.disk), sb, inode.inum).indirect == 0
      ensures cache.disk == SetBid(old(cache.disk), sb, inode.inum, idx, bid)
      ensures OtherInodes(old(cache.disk), cache.disk, sb, inode.inum)
    {
      hide FsSpec.InodeAt, Codec.GetSuper, BlockCacheBuffer.Valid, BlockCacheBuffer.Quiet;
      InodeSlotOnDisk(sb, inode.inum, |cache.disk|);
      if idx < N_DIRECT {
        UpdateDInode(inode, inode.d.(addresses := inode.d.addresses[idx := bid]));
      } else {
        var b := ReadBlock(inode.blockId);
        var index := ReadBlock(inode.d.indirect);
        var nb := PutWord(index, idx - N_DIRECT, bid);
        WriteBlock(inode.d.indirect, nb);
        WriteBlock(inode.blockId, b);
        assert cache.disk == old(cache.disk)[0 := nb];
        forall i: nat | i < MaxInodes(sb)
          ensures InodeAt(cache.disk, sb, i) == InodeAt(old(cache.disk), sb, i)
        {
          IndexWriteKeeps(old(cache.disk), sb, nb, i, 0);
        }
      }
    }

    /** Takes a free data block and zeroes it; no inode changes. */
    method GrabBlock() returns (r: Option<nat>, ghost extra: Option<nat>)
      requires Ready() && Coherent()
      modifies cache, cache.dev, cache.issued
      ensures Ready() && Grew() && Coherent()
      ensures forall i: nat :: i < MaxInodes(sb) ==> InodeAt(cache.disk, sb, i) == InodeAt(old(cache.disk), sb, i)
      ensures FreeBlocks(cache.disk, sb) == FreeBlocks(old(cache.disk), sb) - (if r.Some? then {r.value} else {})
      ensures r == None <==> FreeBlocks(old(cache.disk), sb) == {}
      ensures r.Some? ==> r.value in FreeBlocks(old(cache.disk), sb) && r.value < 0x1_0000_0000_0000_0000
      ensures LeastTaken(FreeBlocks(old(cache.disk), sb), FreeBlocks(cache.disk, sb))
      ensures GrabbedDisk(old(cache.disk), cache.disk, sb, r, extra)
    {
      hide FsSpec.InodeAt, FsSpec.BlockOf, Codec.GetSuper, BlockCacheBuffer.Valid, BlockCacheBuffer.Quiet,
           FsSpec.BitAt;
      ghost var d0 := cache.disk;
      r, extra := AllocateDataBlock();
      Grabbed(d0, sb, r, extra);
      if r.Some? {
        ClearBlock(r.value);
      }
    }

    /** One round of the loop of `resize_inode`: the inode gets one more block, zeroed, or there is
        none. When the blocks are in order (`good`) they stay so, and no file changes. */
    method AddBlock(inode: Inode, idx: nat, ghost own: seq<nat>, ghost good: bool) returns (ok: bool)
      requires Ready() && Coherent() && Current(inode) && idx < MAX_BLOCKS_PER_INODE && inode.d.indirect == 0
      requires good ==> Owns(cache.disk, sb, own) && idx == own[inode.inum]
      requires good ==> idx < N_DIRECT || AloneIndirect(own, inode.inum)
      modifies cache, cache.dev, cache.issued, inode
      ensures Ready() && Grew() && Coherent() && Current(inode)
      ensures inode.d.size == old(inode.d.size) && inode.d.indirect == 0
      ensures good && ok ==> SameView(old(cache.disk), cache.disk, sb, own[inode.inum := idx + 1])
      ensures good && !ok ==> SameView(old(cache.disk), cache.disk, sb, own)
      ensures OtherInodes(old(cache.disk), cache.disk, sb, inode.inum)
      ensures ok <==> FreeBlocks(old(cache.disk), sb) != {}
      ensures |FreeBlocks(cache.disk, sb)| == |FreeBlocks(old(cache.disk), sb)| - (if ok then 1 else 0)
      ensures LeastTaken(FreeBlocks(old(cache.disk), sb), FreeBlocks(cache.disk, sb))
    {
      hide FsSpec.InodeAt, FsSpec.BlockOf, FsGrow.SetBid, Codec.GetSuper, BlockCacheBuffer.Valid,
           BlockCacheBuffer.Quiet, FsView.View, FsSpec.BitAt, FreeBlocks, GrabbedDisk, LeastTaken;
      ghost var d0 := cache.disk;
      ghost var extra;
      var r;
      r, extra := GrabBlock();
      if good {
        GrabbedView(d0, cache.disk, sb, own, r, extra);
      }
      if r == None {
        return false;
      }
      ghost var d1 := cache.disk;
      if good {
        AddedView(d0, d1, sb, own, inode.inum, r.value);
      }
      SetBlock(inode, idx, r.value);
      SetBidFree(d1, sb, inode.inum, idx, r.value);
      SetBidInode(d1, sb, inode.inum, idx, r.value);
      ok := true;
    }

    /** `resize_inode`: the file is extended with zeros, or it and every other file stay as they were
        because the size is too large, smaller than before, or takes more blocks than are free. Past
        the direct range this holds for the only file there; a second one gets its size and breaks
        the disk, see `GrowByOneIff`. */
    method ResizeInode(inode: Inode, newSize: nat) returns (r: ResizeResult)
      requires Valid() && Current(inode)
      modifies cache, cache.dev, cache.issued, inode
      ensures Ready() && Coherent() && Grew() && Current(inode)
      ensures r == TooLarge <==> newSize > CAPACITY_PER_INODE
      ensures r == Unimplemented <==> newSize <= CAPACITY_PER_INODE && newSize < old(inode.d.size)
      ensures r == Exhausted <==>
        && old(inode.d.size) <= newSize <= CAPACITY_PER_INODE
        && BlocksFor(newSize) - BlocksFor(old(inode.d.size)) > |FreeBlocks(old(cache.disk), sb)|
      ensures inode.d.size == if r == Ok then newSize else old(inode.d.size)
      ensures r == TooLarge || r == Unimplemented ==> cache.disk == old(cache.disk)
      ensures r == Ok ==>
        |FreeBlocks(cache.disk, sb)| ==
          |FreeBlocks(old(cache.disk), sb)| - (BlocksFor(newSize) - BlocksFor(old(inode.d.size)))
      ensures LeastTaken(FreeBlocks(old(cache.disk), sb), FreeBlocks(cache.disk, sb))
      ensures r == Exhausted ==> FreeBlocks(cache.disk, sb) == {}
      ensures OtherInodes(old(cache.disk), cache.disk, sb, inode.inum)
      ensures MayGrow(old(cache.disk), sb, inode.inum, newSize) ==> Valid()
      ensures MayGrow(old(cache.disk), sb, inode.inum, newSize) && r == Ok ==>
        View(cache.disk, sb) == Tree.Grown(View(old(cache.disk), sb), inode.inum, newSize)
      ensures MayGrow(old(cache.disk), sb, inode.inum, newSize) && r != Ok ==>
        View(cache.disk, sb) == View(old(cache.disk), sb)
      ensures !MayGrow(old(cache.disk), sb, inode.inum, newSize) && r == Ok ==> !WellFormed(cache.disk, sb)
    {
      hide FsSpec.InodeAt, FsSpec.BlockOf, Codec.GetSuper, BlockCacheBuffer.Valid, BlockCacheBuffer.Quiet,
           FsSpec.BitAt, FreeBlocks;
      if newSize > CAPACITY_PER_INODE {
        return TooLarge;
      }
      var oldSize := inode.d.size;
      if newSize < oldSize {
        return Unimplemented;
      }
      ghost var d0, own, i := cache.disk, Sizes(cache.disk, sb), inode.inum;
      if newSize == oldSize {
        GrownToSame(View(cache.disk, sb), i);
        BigIsAlone(d0, sb, i, newSize);
        return Ok;
      }
      var inBlockOffset := oldSize % BLOCK_SIZE;
      var increment := newSize - oldSize;
      ResizeBlocks(oldSize, newSize);
      if inBlockOffset != 0 {
        if increment > BLOCK_SIZE - inBlockOffset {
          increment := increment - (BLOCK_SIZE - inBlockOffset);
        } else {
          BigIsAlone(d0, sb, i, newSize);
          SetSize(inode, newSize, own, true);
          return Ok;
        }
      }
      r := GrowBy(inode, BlocksFor(oldSize), BlocksFor(increment), newSize);
    }

    /** `set_inode_size`, when the blocks are in order within those the file owns. */
    method SetSize(inode: Inode, newSize: nat, ghost own: seq<nat>, ghost good: bool)
      requires Ready() && Coherent() && Current(inode) && newSize < 0x1_0000_0000_0000_0000
      requires good ==>
        Anchored() && Owns(cache.disk, sb, own) && inode.d.size <= newSize <= own[inode.inum] * BLOCK_SIZE
      modifies cache, cache.dev, cache.issued, inode
      ensures Ready() && Coherent() && Grew() && Current(inode) && inode.d.size == newSize
      ensures good ==> Valid() && View(cache.disk, sb) == Tree.Grown(View(old(cache.disk), sb), inode.inum, newSize)
      ensures OtherInodes(old(cache.disk), cache.disk, sb, inode.inum)
      ensures FreeBlocks(cache.disk, sb) == FreeBlocks(old(cache.disk), sb)
    {
      hide FsSpec.InodeAt, FsSpec.BlockOf, Codec.GetSuper, BlockCacheBuffer.Valid, BlockCacheBuffer.Quiet, FreeBlocks;
      if good {
        assert InodeOk(cache.disk, sb, inode.inum, own[inode.inum]);
        SizeView(cache.disk, sb, own, inode.inum, newSize);
      }
      PutInodeFree(cache.disk, sb, inode.inum, inode.d.(size := newSize));
      UpdateDInode(inode, inode.d.(size := newSize));
    }

    /** The loop of `resize_inode`: `needed` blocks from index `base` on, then the new size. */
    method GrowBy(inode: Inode, base: nat, needed: nat, newSize: nat) returns (r: ResizeResult)
      requires Valid() && Current(inode)
      requires base == BlocksFor(inode.d.size) && base + needed == BlocksFor(newSize)
      requires inode.d.size <= newSize <= CAPACITY_PER_INODE
      modifies cache, cache.dev, cache.issued, inode
      ensures Ready() && Coherent() && Grew() && Current(inode) && (r == Ok || r == Exhausted)
      ensures inode.d.size == if r == Ok then newSize else old(inode.d.size)
      ensures r == Exhausted <==> needed > |FreeBlocks(old(cache.disk), sb)|
      ensures r == Ok ==> |FreeBlocks(cache.disk, sb)| == |FreeBlocks(old(cache.disk), sb)| - needed
      ensures LeastTaken(FreeBlocks(old(cache.disk), sb), FreeBlocks(cache.disk, sb))
      ensures r == Exhausted ==> FreeBlocks(cache.disk, sb) == {}
      ensures OtherInodes(old(cache.disk), cache.disk, sb, inode.inum)
      ensures MayGrow(old(cache.disk), sb, inode.inum, newSize) ==> Valid()
      ensures MayGrow(old(cache.disk), sb, inode.inum, newSize) && r == Ok ==>
        View(cache.disk, sb) == Tree.Grown(View(old(cache.disk), sb), inode.inum, newSize)
      ensures MayGrow(old(cache.disk), sb, inode.inum, newSize) && r != Ok ==>
        View(cache.disk, sb) == View(old(cache.disk), sb)
      ensures !MayGrow(old(cache.disk), sb, inode.inum, newSize) && r == Ok ==> !WellFormed(cache.disk, sb)
    {
      hide FsSpec.InodeAt, FsSpec.BlockOf, Codec.GetSuper, BlockCacheBuffer.Valid, BlockCacheBuffer.Quiet,
           FsSpec.BitAt, FsView.View, FreeBlocks, MayGrow, LeastTaken;
      ghost var d0, own, i := cache.disk, Sizes(cache.disk, sb), inode.inum;
      assert LeastTaken(FreeBlocks(d0, sb), FreeBlocks(d0, sb)) by { NothingTaken(FreeBlocks(d0, sb)); }
      ghost var good := MayGrow(d0, sb, i, newSize);
      GrowStart(d0, sb, i, newSize);
      var k := 0;
      assert own[i] == base && own[i := base + k] == own;
      while k < needed
        invariant k <= needed
        invariant Ready() && Grew() && Coherent() && Current(inode)
        invariant inode.d.size == old(inode.d.size) && inode.d.indirect == 0
        invariant good ==> SameView(d0, cache.disk, sb, own[i := base + k])
        invariant OtherInodes(d0, cache.disk, sb, i)
        invariant |FreeBlocks(cache.disk, sb)| + k == |FreeBlocks(d0, sb)|
        invariant LeastTaken(FreeBlocks(d0, sb), FreeBlocks(cache.disk, sb))
      {
        GrowMore(d0, sb, i, newSize, base + k);
        ghost var d1 := cache.disk;
        var ok := AddBlock(inode, base + k, own[i := base + k], good);
        TakenMore(FreeBlocks(d0, sb), FreeBlocks(d1, sb), FreeBlocks(cache.disk, sb));
        if !ok {
          if good {
            OwnsIsWellFormed(cache.disk, sb, own[i := base + k]);
          }
          return Exhausted;
        }
        assert own[i := base + k][i := base + k + 1] == own[i := base + (k + 1)];
        k := k + 1;
      }
      SetSize(inode, newSize, own[i := base + needed], good);
      if !good {
        BrokenBySize(d0, cache.disk, sb, i, newSize);
      }
      r := Ok;
    }

    /** Takes the least inode number not in use. A bit past the inode table may be set instead. */
    method TakeInode() returns (r: Option<nat>)
      requires Valid()
      modifies cache, cache.dev, cache.issued
      ensures Valid() && Grew() && Nodes(cache.disk, sb) == Nodes(old(cache.disk), sb)
      ensures forall i: nat :: i < MaxInodes(sb) ==> InodeAt(cache.disk, sb, i) == InodeAt(old(cache.disk), sb, i)
      ensures OnlyBlocks(old(cache.disk), cache.disk, sb.inodeBmapStart, sb.inodeStart)
      ensures r == None ==> Used(cache.disk, sb) == Used(old(cache.disk), sb)
      ensures r == None && cache.disk != old(cache.disk) ==>
        exists g: nat :: MaxInodes(sb) <= g < InodeBits(sb) && BitSet(old(cache.disk), cache.disk, sb.inodeBmapStart, g)
      ensures r == None ==> forall i: nat :: i < MaxInodes(sb) && i < InodeBits(sb) ==> i in Used(cache.disk, sb)
      ensures r.Some? ==> r.value < MaxInodes(sb) && r.value < InodeBits(sb)
      ensures r.Some? ==> Used(cache.disk, sb) == Used(old(cache.disk), sb) + {r.value}
      ensures r.Some? ==> r.value !in Used(old(cache.disk), sb)
      ensures r.Some? ==> forall i: nat :: i < r.value ==> i in Used(old(cache.disk), sb)
    {
      hide FsSpec.InodeAt, FsSpec.BlockOf, Codec.GetSuper, BlockCacheBuffer.Valid, BlockCacheBuffer.Quiet,
           FsSpec.BitAt, FsView.Nodes;
      ghost var d0, own := cache.disk, Sizes(cache.disk, sb);
      var g := AllocateBmap(sb.inodeBmapStart, sb.inodeStart);
      if g == None {
        return None;
      }
      MarkInodeBit(d0, sb, own, g.value);
      OwnsIsWellFormed(cache.disk, sb, own);
      if g.value >= MaxInodes(sb) {
        assert BitSet(d0, cache.disk, sb.inodeBmapStart, g.value);
        return None;
      }
      r := g;
    }

    /** `allocate_inode`: takes the least inode not in use and empties it. `keep` are handles the
        caller goes on using. */
    method AllocateInode(kind: InodeType, ghost keep: set<Inode>) returns (r: Inode?)
      requires Valid() && Held(keep)
      modifies cache, cache.dev, cache.issued, icache, Copies()
      ensures Valid() && Grew() && StillHeld(keep)
      ensures fresh(Copies() - old(Copies())) && (r != null ==> r in old(Copies()) || fresh(r))
      ensures OnlyBlocks(old(cache.disk), cache.disk, sb.inodeBmapStart, sb.dataBmapStart)
      ensures r == null <==> InodesExhausted(old(cache.disk), sb)
      ensures r == null ==> View(cache.disk, sb) == View(old(cache.disk), sb)
      ensures r == null && cache.disk != old(cache.disk) ==>
        exists g: nat :: MaxInodes(sb) <= g < InodeBits(sb) && BitSet(old(cache.disk), cache.disk, sb.inodeBmapStart, g)
      ensures r != null ==> Current(r) && r.d == FreshInode(kind) && r.inum !in Used(old(cache.disk), sb)
      ensures r != null ==> forall i: nat :: i < r.inum ==> i in Used(old(cache.disk), sb)
      ensures r != null ==> View(cache.disk, sb) == Tree.Allocated(View(old(cache.disk), sb), r.inum, kind)
    {
      hide FsSpec.InodeAt, FsSpec.WellFormed, Codec.GetSuper, BlockCacheBuffer.Valid, BlockCacheBuffer.Quiet,
           FsView.Nodes, FsView.Used, FsView.View, InFront, Kept, FsMeta.PutInodeAt;
      ghost var d0 := cache.disk;
      var g := TakeInode();
      if g == None {
        TookNone(d0, cache.disk, sb);
        HandlesStay(keep, MaxInodes(sb), MaxInodes(sb));
        return null;
      }
      TookInode(d0, cache.disk, sb, g.value, kind);
      r := GetInode(g.value);
      UpdateDInode(r, FreshInode(kind));
      ViewUsed(d0, sb);
      ViewUsed(cache.disk, sb);
      HandlesStay(keep, r.inum, r.inum);
    }

    /** The directory a handle stands for. */
    ghost predicate OpenDir(inode: Inode)
      reads cache, cache.dev, cache.issued, icache, icache.cache, inode
    {
      && Valid() && Current(inode) && inode.d.kind == Directory
      && Tree.TreeOk(View(cache.disk, sb))
    }

    lemma DirFacts(inode: Inode)
      requires OpenDir(inode)
      ensures inode.inum < MaxInodes(sb) == |View(cache.disk, sb).nodes| < 0x1_0000_0000_0000_0000
      ensures inode.d == InodeAt(cache.disk, sb, inode.inum) && inode.d.kind == Directory
      ensures LayoutOk(sb, |cache.disk|)
    {
    }

    /** Reads entry `k` of a directory. */
    method ReadEntry(inode: Inode, k: nat) returns (r: IoResult<DirEntry>)
      requires OpenDir(inode) && k < inode.d.size / DIR_ENTRY_SIZE
      modifies cache, cache.dev, cache.issued
      ensures OpenDir(inode) && Grew() && cache.disk == old(cache.disk) && r != Overflow
      ensures r == Blocked <==> k >= Tree.DIRECT_ENTRIES
      ensures r.Done? ==> r.value == Tree.Dir(View(cache.disk, sb), inode.inum)[k]
    {
      hide FsSpec.InodeAt, FsSpec.WellFormed, Codec.GetSuper, BlockCacheBuffer.Valid, BlockCacheBuffer.Quiet,
           Tree.TreeOk;
      assert Tree.Dir(View(cache.disk, sb), inode.inum)[k] == Tree.EntryAt(Contents(cache.disk, sb, inode.inum), k);
      var buf := ReadInode(inode, DIR_ENTRY_SIZE * k, DIR_ENTRY_SIZE);
      r := if buf.Done? then Done(DecodeEntry(buf.value)) else Blocked;
    }

    /** The loop of `look_up`: position and inode number of the first entry with the name. */
    method ScanDir(inode: Inode, name: seq<byte>) returns (blocked: bool, k: Option<nat>, inum: nat)
      requires OpenDir(inode)
      modifies cache, cache.dev, cache.issued
      ensures OpenDir(inode) && Grew() && cache.disk == old(cache.disk)
      ensures var es := Tree.Dir(View(cache.disk, sb), inode.inum);
        && (blocked <==> Tree.Blocks(es, name))
        && (!blocked ==>
              match Tree.Find(es, name)
              case None => k == None
              case Some(j) => k == Some(j) && inum == es[j].inum)
    {
      hide FsSpec.InodeAt, FsSpec.WellFormed, Codec.GetSuper, BlockCacheBuffer.Valid, BlockCacheBuffer.Quiet,
           FsView.View, Tree.TreeOk, Tree.Dir, Coherent;
      ghost var es := Tree.Dir(View(cache.disk, sb), inode.inum);
      DirSize(cache.disk, sb, inode.inum);
      var n := inode.d.size / DIR_ENTRY_SIZE;
      blocked, k, inum := false, None, 0;
      var i := 0;
      while i < n
        invariant i <= n && i <= Tree.DIRECT_ENTRIES
        invariant OpenDir(inode) && Grew() && cache.disk == old(cache.disk)
        invariant Tree.Find(es, name) == Tree.FindFrom(es, name, i)
      {
        var e := ReadEntry(inode, i);
        if e == Blocked {
          return true, None, 0;
        }
        if e.value.name == name {
          return false, Some(i), e.value.inum;
        }
        i := i + 1;
      }
    }

    /** `look_up`: the inode the directory holds under the name, unless the scan blocks. The handles
        `keep` stay usable, except those of that inode. */
    method LookUp(inode: Inode, name: seq<byte>, ghost keep: set<Inode>) returns (blocked: bool, r: Inode?)
      requires OpenDir(inode) && Held(keep)
      modifies cache, cache.dev, cache.issued, icache
      ensures OpenDir(inode) && Grew() && cache.disk == old(cache.disk)
      ensures fresh(Copies() - old(Copies())) && (r != null ==> r in old(Copies()) || fresh(r))
      ensures var es := Tree.Dir(View(cache.disk, sb), inode.inum);
        var f := Tree.Find(es, name);
        && (blocked <==> Tree.Blocks(es, name))
        && (r == null <==> blocked || f == None)
        && (r != null ==> r.inum == es[f.value].inum && Current(r))
      ensures Held(AsideFrom(Named(Tree.Dir(View(cache.disk, sb), inode.inum), name), keep))
      ensures r == null ==> icache.cache == old(icache.cache)
      ensures r != null ==> Fetched(r)
    {
      hide FsSpec.InodeAt, FsSpec.WellFormed, Codec.GetSuper, BlockCacheBuffer.Valid, BlockCacheBuffer.Quiet,
           FsView.View, Tree.TreeOk, InFront, Kept, Held, AsideFrom, Ready, Coherent;
      var k, inum;
      blocked, k, inum := ScanDir(inode, name);
      ghost var named := Named(Tree.Dir(View(cache.disk, sb), inode.inum), name);
      if blocked || k == None {
        r := null;
        NothingFetched(named, keep);
        return;
      }
      DirSize(cache.disk, sb, inode.inum);
      EntryInRange(View(cache.disk, sb), inode.inum, k.value);
      var got := GetInode(inum);
      FetchedAside(got, keep);
      r := got;
    }

    /** `list_children`: the names in creation order, unless reading them blocks. */
    method ListChildren(inode: Inode) returns (blocked: bool, names: seq<seq<byte>>)
      requires OpenDir(inode)
      modifies cache, cache.dev, cache.issued
      ensures OpenDir(inode) && Grew() && cache.disk == old(cache.disk)
      ensures var es := Tree.Dir(View(cache.disk, sb), inode.inum);
        && (blocked <==> |es| > Tree.DIRECT_ENTRIES)
        && (!blocked ==> names == Tree.Names(es))
    {
      hide FsSpec.InodeAt, FsSpec.WellFormed, Codec.GetSuper, BlockCacheBuffer.Valid, BlockCacheBuffer.Quiet,
           FsView.View, Tree.TreeOk, Tree.Dir, Coherent;
      ghost var es := Tree.Dir(View(cache.disk, sb), inode.inum);
      DirSize(cache.disk, sb, inode.inum);
      blocked, names := false, [];
      var n := inode.d.size / DIR_ENTRY_SIZE;
      var k := 0;
      while k < n
        invariant k <= n && k <= Tree.DIRECT_ENTRIES
        invariant OpenDir(inode) && Grew() && cache.disk == old(cache.disk)
        invariant names == Tree.Names(es)[..k]
      {
        var e := ReadEntry(inode, k);
        if e == Blocked {
          return true, names;
        }
        names := names + [e.value.name];
        k := k + 1;
      }
    }

    /** The second half of `create_inode`: grows the directory by one entry, writes the entry and
        counts the link of the new node `n`. A name too long for an entry panics in between. */
    method EnterName(inode: Inode, name: seq<byte>, n: Inode, ghost others: set<Inode>) returns (r: CreateResult)
      requires Valid() && Current(inode) && Current(n) && inode.inum != n.inum && n.d.links == 0
      requires inode.d.size + DIR_ENTRY_SIZE <= CAPACITY_PER_INODE
      requires MayGrow(cache.disk, sb, inode.inum, inode.d.size + DIR_ENTRY_SIZE)
      requires Held(others) && forall h :: h in others ==> h.inum != inode.inum && h.inum != n.inum
      modifies cache, cache.dev, cache.issued, inode, n
      ensures Valid() && Grew() && Current(inode) && Current(n) && StillHeld(others)
      ensures r == Created || r == Panicked || r == DataExhausted
      ensures r == DataExhausted <==> NoRoomForEntry(old(cache.disk), sb, old(inode.d.size))
      ensures r == Panicked <==> r != DataExhausted && |name| > DIR_NAME_SIZE
      ensures var v := View(old(cache.disk), sb);
        r == Panicked ==>
          View(cache.disk, sb) == Tree.Grown(v, inode.inum, |v.nodes[inode.inum].bytes| + DIR_ENTRY_SIZE)
      ensures r == Created ==> View(cache.disk, sb) == Tree.Linked(View(old(cache.disk), sb), inode.inum, name, n.inum)
      ensures r == DataExhausted ==> View(cache.disk, sb) == View(old(cache.disk), sb)
      ensures r == Created ==>
        |FreeBlocks(cache.disk, sb)| == |FreeBlocks(old(cache.disk), sb)| - EntryBlocks(old(inode.d.size))
    {
      hide FsSpec.InodeAt, FsSpec.WellFormed, Codec.GetSuper, BlockCacheBuffer.Valid, BlockCacheBuffer.Quiet,
           FsSpec.BitAt, FsView.Nodes, FsView.Used, FsData.SameOthers, FreeBlocks, MayGrow, Held, StillHeld;
      ghost var v := View(cache.disk, sb);
      NodeIsInode(cache.disk, sb, inode.inum);
      NodeIsInode(cache.disk, sb, n.inum);
      var base := inode.d.size;
      var grown := ResizeInode(inode, base + DIR_ENTRY_SIZE);
      HandlesStay(others, inode.inum, n.inum);
      if grown != Ok {
        return DataExhausted;
      }
      if |name| > DIR_NAME_SIZE {
        return Panicked;
      }
      WriteEntry(inode, name, n, v);
      HandlesStay(others, inode.inum, n.inum);
      r := Created;
    }

    /** Writes the entry for `n` at the end of a directory that has grown for it since the tree was `v`,
        and counts the link. */
    method WriteEntry(inode: Inode, name: seq<byte>, n: Inode, ghost v: Tree.Fs)
      requires Valid() && Current(inode) && Current(n) && inode.inum != n.inum && n.d.links == 0
      requires |name| <= DIR_NAME_SIZE && |v.nodes| == MaxInodes(sb) && v.nodes[n.inum].links == 0
      requires inode.d.size == |v.nodes[inode.inum].bytes| + DIR_ENTRY_SIZE
      requires View(cache.disk, sb) == Tree.Grown(v, inode.inum, inode.d.size)
      modifies cache, cache.dev, cache.issued, n
      ensures Valid() && Grew() && Current(inode) && Current(n) && |v.nodes| < 0x1_0000_0000_0000_0000
      ensures forall i: nat :: i < MaxInodes(sb) && i != inode.inum && i != n.inum ==>
        InodeAt(cache.disk, sb, i) == InodeAt(old(cache.disk), sb, i)
      ensures View(cache.disk, sb) == Tree.Linked(v, inode.inum, name, n.inum)
      ensures FreeBlocks(cache.disk, sb) == FreeBlocks(old(cache.disk), sb)
    {
      hide FsSpec.InodeAt, FsSpec.WellFormed, Codec.GetSuper, BlockCacheBuffer.Valid, BlockCacheBuffer.Quiet,
           FsSpec.BitAt, FsView.Nodes, FsView.Used, FsData.SameOthers, Codec.EncodeEntry, FreeBlocks;
      NodeIsInode(cache.disk, sb, inode.inum);
      NodeIsInode(cache.disk, sb, n.inum);
      var e := EncodeEntry(DirEntry(n.inum, name));
      var written := WriteInode(inode, inode.d.size - DIR_ENTRY_SIZE, e);
      assert e[..written.value] == e;
      NodeIsInode(cache.disk, sb, n.inum);
      LinkView(cache.disk, sb, n.inum, 1);
      PutInodeFree(cache.disk, sb, n.inum, n.d.(links := n.d.links + 1));
      LinkedInSteps(v, inode.inum, name, n.inum);
      UpdateDInode(n, n.d.(links := n.d.links + 1));
    }

    /** `create_inode` once the name is known to be new. A name too long for an entry panics after
        the inode has been taken and the directory has grown. */
    method CreateUnder(inode: Inode, name: seq<byte>, kind: InodeType, ghost keep: set<Inode>)
        returns (r: CreateResult, n: Inode?)
      requires OpenDir(inode) && MayGrow(cache.disk, sb, inode.inum, inode.d.size + DIR_ENTRY_SIZE)
      requires inode.d.size + DIR_ENTRY_SIZE <= CAPACITY_PER_INODE && Held(keep)
      modifies cache, cache.dev, cache.issued, icache, Copies(), inode
      ensures Valid() && Grew() && Current(inode) && StillHeld(AsideFrom({inode.inum}, keep))
      ensures fresh(Copies() - old(Copies())) && (n != null ==> n in old(Copies()) || fresh(n))
      ensures r == InodeExhausted <==> InodesExhausted(old(cache.disk), sb)
      ensures r == DataExhausted <==> r != InodeExhausted && NoRoomForEntry(old(cache.disk), sb, old(inode.d.size))
      ensures r == Panicked <==> r != InodeExhausted && r != DataExhausted && |name| > DIR_NAME_SIZE
      ensures r == Created <==> r != InodeExhausted && r != DataExhausted && |name| <= DIR_NAME_SIZE
      ensures r == Created ==>
        |FreeBlocks(cache.disk, sb)| == |FreeBlocks(old(cache.disk), sb)| - EntryBlocks(old(inode.d.size))
      ensures Outcome(View(old(cache.disk), sb), View(cache.disk, sb), inode.inum, name, kind, r, n)
      ensures n != null ==> Current(n) && n.inum !in Used(old(cache.disk), sb)
      ensures n != null ==> forall i: nat :: i < n.inum ==> i in Used(old(cache.disk), sb)
    {
      hide FsSpec.InodeAt, FsSpec.WellFormed, Codec.GetSuper, BlockCacheBuffer.Valid, BlockCacheBuffer.Quiet,
           FsSpec.BitAt, FsView.Nodes, FsView.Used, Tree.TreeOk, FreeBlocks, MayGrow, InodesExhausted, NoRoomForEntry,
           Outcome, EntryBlocks, Coherent, Tree.Linked, Tree.Grown, Tree.Dir, Ready;
      ghost var d0, v := cache.disk, View(cache.disk, sb);
      DirFacts(inode);
      DirIsUsed(cache.disk, sb, inode.inum);
      NodeIsInode(cache.disk, sb, inode.inum);
      var node := AllocateInode(kind, keep + {inode});
      if node == null {
        NothingCreated(v, inode.inum, name, kind, InodeExhausted);
        return InodeExhausted, null;
      }
      AllocatedTree(v, inode.inum, name, node.inum, kind);
      AllocatedRoom(d0, cache.disk, sb, inode.inum, node.inum, kind, inode.d.size);
      r := EnterName(inode, name, node, AsideFrom({inode.inum}, keep));
      n := if r == Created then node else null;
      EnteredOutcome(v, View(cache.disk, sb), inode.inum, name, kind, r, node, n);
    }

    /** `create_inode`: a new empty node under a name the directory does not have yet. The handles
        `keep` stay usable, except one of the node that has the name already. */
    method CreateInode(inode: Inode, name: seq<byte>, kind: InodeType, ghost keep: set<Inode>)
        returns (r: CreateResult, n: Inode?)
      requires OpenDir(inode) && Held(keep)
      requires inode.d.size == N_DIRECT * BLOCK_SIZE ==> AloneIndirect(Sizes(cache.disk, sb), inode.inum)
      modifies cache, cache.dev, cache.issued, icache, Copies(), inode
      ensures Valid() && Grew() && Current(inode)
      ensures fresh(Copies() - old(Copies())) && (n != null ==> n in old(Copies()) || fresh(n))
      ensures Chosen(old(cache.disk), sb, old(Tree.Dir(View(cache.disk, sb), inode.inum)), old(inode.d.size), name, r)
      ensures r == InvalidName || r == LookUpBlocked || r == AlreadyExists ==>
        cache.disk == old(cache.disk) && n == null
      ensures StillHeld(AsideFrom(Named(old(Tree.Dir(View(cache.disk, sb), inode.inum)), name) + {inode.inum}, keep))
      ensures Outcome(View(old(cache.disk), sb), View(cache.disk, sb), inode.inum, name, kind, r, n)
      ensures n != null ==> Current(n) && n.inum !in Used(old(cache.disk), sb)
      ensures n != null ==> forall i: nat :: i < n.inum ==> i in Used(old(cache.disk), sb)
      ensures r == Created ==>
        |FreeBlocks(cache.disk, sb)| == |FreeBlocks(old(cache.disk), sb)| - EntryBlocks(old(inode.d.size))
    {
      hide FsSpec.InodeAt, FsSpec.WellFormed, Codec.GetSuper, BlockCacheBuffer.Valid, BlockCacheBuffer.Quiet,
           FsSpec.BitAt, FsView.View, Tree.TreeOk, Tree.Dir, FreeBlocks, InodesExhausted, NoRoomForEntry, Outcome,
           MayGrow, Ready, Coherent, AsideFrom, Named, Held;
      ghost var v, named := View(cache.disk, sb), Named(Tree.Dir(View(cache.disk, sb), inode.inum), name);
      ghost var aside := AsideFrom(named, keep);
      DirFacts(inode);
      AsideTwice(named, {inode.inum}, keep);
      var refused := CheckName(inode, name, keep);
      if refused.Some? {
        NothingCreated(v, inode.inum, name, kind, refused.value);
        FewerHeld(aside, {inode.inum});
        return refused.value, null;
      }
      r, n := CreateUnder(inode, name, kind, aside);
    }

    /** The checks at the start of `create_inode`. A directory that passes has room for an entry in the
        direct range, or ends there. */
    method CheckName(inode: Inode, name: seq<byte>, ghost keep: set<Inode>) returns (r: Option<CreateResult>)
      requires OpenDir(inode) && Held(keep)
      requires inode.d.size == N_DIRECT * BLOCK_SIZE ==> AloneIndirect(Sizes(cache.disk, sb), inode.inum)
      modifies cache, cache.dev, cache.issued, icache
      ensures OpenDir(inode) && Grew() && cache.disk == old(cache.disk) && fresh(Copies() - old(Copies()))
      ensures var es := Tree.Dir(View(cache.disk, sb), inode.inum);
        && (r == Some(InvalidName) <==> name != [] && name[0] == Path.SLASH)
        && (r == Some(LookUpBlocked) <==> r != Some(InvalidName) && Tree.Blocks(es, name))
        && (r == Some(AlreadyExists) <==>
              r != Some(InvalidName) && r != Some(LookUpBlocked) && Tree.Find(es, name).Some?)
        && (r.Some? ==> r.value == InvalidName || r.value == LookUpBlocked || r.value == AlreadyExists)
      ensures Held(AsideFrom(Named(Tree.Dir(View(cache.disk, sb), inode.inum), name), keep))
      ensures r == None ==> inode.d.size + DIR_ENTRY_SIZE <= CAPACITY_PER_INODE
      ensures r == None ==> MayGrow(cache.disk, sb, inode.inum, inode.d.size + DIR_ENTRY_SIZE)
    {
      hide FsSpec.InodeAt, FsSpec.WellFormed, Codec.GetSuper, BlockCacheBuffer.Valid, BlockCacheBuffer.Quiet,
           FsView.View, Tree.TreeOk, Tree.Blocks, Ready, Coherent, Current, Held, AsideFrom, Named, Fetched;
      DirFacts(inode);
      if name != [] && name[0] == Path.SLASH {
        NothingFetched(Named(Tree.Dir(View(cache.disk, sb), inode.inum), name), keep);
        return Some(InvalidName);
      }
      var blocked, found := LookUp(inode, name, keep);
      if blocked {
        return Some(LookUpBlocked);
      }
      if found != null {
        return Some(AlreadyExists);
      }
      RoomInDir(cache.disk, sb, inode.inum, name);
      r := None;
    }

    /** `get_inode_from_path`: looks up the components of the path one after the other, unless one of
        the look-ups blocks. The handles `keep` stay usable, except those of nodes on the way. */
    method GetInodeFromPath(path: seq<byte>, start: Inode, ghost keep: set<Inode>) returns (blocked: bool, r: Inode?)
      requires Valid() && Current(start) && Tree.TreeOk(View(cache.disk, sb)) && Held(keep)
      modifies cache, cache.dev, cache.issued, icache
      ensures Valid() && Grew() && cache.disk == old(cache.disk)
      ensures fresh(Copies() - old(Copies())) && (r != null ==> r == start || r in old(Copies()) || fresh(r))
      ensures blocked <==> Path.PathBlocks(View(cache.disk, sb), start.inum, path)
      ensures !blocked ==>
        match Path.PathTarget(View(cache.disk, sb), start.inum, path)
        case None => r == null
        case Some(i) => r != null && r.inum == i && Current(r)
      ensures Held(AsideFrom(Path.Visited(View(cache.disk, sb), start.inum, path), keep))
      decreases |path|
    {
      hide FsSpec.InodeAt, FsSpec.WellFormed, Codec.GetSuper, BlockCacheBuffer.Valid, BlockCacheBuffer.Quiet,
           FsView.View, Tree.TreeOk, Tree.Dir, Tree.Blocks, Path.PathTarget, Path.PathBlocks, Path.Visited,
           Path.Components, Coherent, Held, AsideFrom, Fetched, Ready;
      ghost var v := View(cache.disk, sb);
      ghost var visited := Path.Visited(v, start.inum, path);
      if path == [] {
        Path.EmptyPathTarget(v, start.inum);
        NothingFetched(visited, keep);
        return false, start;
      }
      var next := Path.Skip(path);
      NothingFetched(visited, keep);
      if next == None {
        Path.NoComponentTarget(v, start.inum, path);
        return false, null;
      }
      var (name, rest) := next.value;
      Path.TargetStep(v, start.inum, path, name, rest);
      DirSize(cache.disk, sb, start.inum);
      if start.d.kind != Directory {
        return false, null;
      }
      var ip;
      blocked, ip := LookUp(start, name, keep);
      if ip == null {
        NothingFetched(visited, keep);
        return blocked, null;
      }
      AsideTwice({ip.inum}, Path.Visited(v, ip.inum, rest), keep);
      blocked, r := GetInodeFromPath(rest, ip, AsideFrom({ip.inum}, keep));
    }
  }

  /** Every inode that has a bit in the inode bitmap is in use. */
  ghost predicate InodesExhausted(disk: Disk, sb: SuperBlock) {
    forall i: nat :: i < MaxInodes(sb) && i < InodeBits(sb) ==> i in Used(disk, sb)
  }

  /** A directory of this size needs one more block for the next entry, and none is free. */
  ghost predicate NoRoomForEntry(disk: Disk, sb: SuperBlock, size: nat) {
    EntryBlocks(size) > |FreeBlocks(disk, sb)|
  }

  /** The blocks a directory of this size needs more for the next entry: one or none. */
  function EntryBlocks(size: nat): (n: nat)
    ensures n <= 1 && (n == 1 <==> size % BLOCK_SIZE == 0 || size % BLOCK_SIZE > BLOCK_SIZE - DIR_ENTRY_SIZE)
  {
    BlocksFor(size + DIR_ENTRY_SIZE) - BlocksFor(size)
  }

  /** The handles of other inodes than these. */
  ghost function AsideFrom(inums: set<nat>, handles: set<Inode>): set<Inode> {
    set h | h in handles && h.inum !in inums
  }

  lemma AsideTwice(some: set<nat>, more: set<nat>, handles: set<Inode>)
    ensures AsideFrom(more, AsideFrom(some, handles)) == AsideFrom(some + more, handles)
    ensures AsideFrom(some + more, handles) <= AsideFrom(some, handles) <= handles
  {
  }

  /** The node the directory has under the name. */
  function Named(es: seq<DirEntry>, name: seq<byte>): set<nat> {
    match Tree.Find(es, name)
    case None => {}
    case Some(k) => {es[k].inum}
  }

  /** Which result `create_inode` has, for a directory with entries `es`. */
  ghost predicate Chosen(disk: Disk, sb: SuperBlock, es: seq<DirEntry>, size: nat, name: seq<byte>, r: CreateResult) {
    var looked := r != InvalidName && r != LookUpBlocked && r != AlreadyExists;
    && (r == InvalidName <==> name != [] && name[0] == Path.SLASH)
    && (r == LookUpBlocked <==> r != InvalidName && Tree.Blocks(es, name))
    && (r == AlreadyExists <==> r != InvalidName && r != LookUpBlocked && Tree.Find(es, name).Some?)
    && (r == InodeExhausted <==> looked && InodesExhausted(disk, sb))
    && (r == DataExhausted <==> looked && r != InodeExhausted && NoRoomForEntry(disk, sb, size))
    && (r == Panicked <==> looked && r != InodeExhausted && r != DataExhausted && |name| > DIR_NAME_SIZE)
  }

  /** What `create_inode` leaves, by its result: on success the new node is entered at the end of the
      directory, and the tree is in order exactly when the directory lacked the name as the entry
      keeps it; a failure changes nothing or leaks an inode. */
  ghost predicate Outcome(v: Tree.Fs, w: Tree.Fs, d: nat, name: seq<byte>, kind: InodeType, r: CreateResult, n: Inode?)
    requires d < |v.nodes| < 0x1_0000_0000_0000_0000
  {
    && (r == Created <==> n != null)
    && (r == Created ==>
          && |name| <= DIR_NAME_SIZE && n.inum < |v.nodes| && d != n.inum
          && w == Tree.Linked(Tree.Allocated(v, n.inum, kind), d, name, n.inum)
          && w.nodes[n.inum] == Tree.Node(kind, 1, []) && w.used == v.used + {n.inum}
          && (forall j: nat :: j < |v.nodes| && j != d && j != n.inum ==> w.nodes[j] == v.nodes[j])
          && (Tree.TreeOk(w) <==> Tree.Find(Tree.Dir(v, d), CutName(name)) == None))
    && (r == DataExhausted ==> Leaked(v, w, kind))
    && (r == Panicked ==> Stranded(v, w, d, kind))
    && (r != Created && r != Panicked && r != DataExhausted ==> w == v)
    && (r != Created && r != Panicked ==> Tree.TreeOk(w))
  }

  lemma NothingCreated(v: Tree.Fs, d: nat, name: seq<byte>, kind: InodeType, r: CreateResult)
    requires d < |v.nodes| < 0x1_0000_0000_0000_0000 && Tree.TreeOk(v)
    requires r != Created && r != Panicked && r != DataExhausted
    ensures Outcome(v, v, d, name, kind, r, null)
  {
  }

  /** From the new inode on, entering it decides. */
  lemma EnteredOutcome(v: Tree.Fs, w: Tree.Fs, d: nat, name: seq<byte>, kind: InodeType, r: CreateResult,
      i: Inode, n: Inode?)
    requires d < |v.nodes| < 0x1_0000_0000_0000_0000 && i.inum < |v.nodes| && i.inum !in v.used && i.inum != d
    requires Tree.TreeOk(Tree.Allocated(v, i.inum, kind)) && n == if r == Created then i else null
    requires r == Created || r == Panicked || r == DataExhausted
    requires r == Created ==>
      |name| <= DIR_NAME_SIZE && w == Tree.Linked(Tree.Allocated(v, i.inum, kind), d, name, i.inum)
    requires |name| <= DIR_NAME_SIZE ==>
      (Tree.TreeOk(Tree.Linked(Tree.Allocated(v, i.inum, kind), d, name, i.inum))
       <==> Tree.Find(Tree.Dir(v, d), CutName(name)) == None)
    requires r == DataExhausted ==> w == Tree.Allocated(v, i.inum, kind)
    requires r == Panicked ==> w == Tree.Grown(Tree.Allocated(v, i.inum, kind), d, |v.nodes[d].bytes| + DIR_ENTRY_SIZE)
    ensures Outcome(v, w, d, name, kind, r, n)
  {
    hide Tree.TreeOk, Tree.Linked, Tree.Grown;
    if r == Created {
      EnteredNodes(v, d, name, i.inum, kind);
    }
  }

  /** The new node is empty with one link; of the others only the directory is different. */
  lemma EnteredNodes(v: Tree.Fs, d: nat, name: seq<byte>, i: nat, kind: InodeType)
    requires d < |v.nodes| < 0x1_0000_0000_0000_0000 && i < |v.nodes| && i != d && |name| <= DIR_NAME_SIZE
    ensures var w := Tree.Linked(Tree.Allocated(v, i, kind), d, name, i);
      && |w.nodes| == |v.nodes| && w.nodes[i] == Tree.Node(kind, 1, []) && w.used == v.used + {i}
      && forall j: nat :: j < |v.nodes| && j != d && j != i ==> w.nodes[j] == v.nodes[j]
  {
    hide Codec.EncodeEntry;
  }

  /** A new inode was taken but not entered anywhere. */
  ghost predicate Leaked(v: Tree.Fs, w: Tree.Fs, kind: InodeType) {
    exists i: nat :: i < |v.nodes| && i !in v.used && w == Tree.Allocated(v, i, kind)
  }

  /** A new inode was taken and directory `d` has room for its entry, but the entry is all zeros. */
  ghost predicate Stranded(v: Tree.Fs, w: Tree.Fs, d: nat, kind: InodeType) {
    exists i: nat :: i < |v.nodes| && i !in v.used && i != d && d < |v.nodes|
      && w == Tree.Grown(Tree.Allocated(v, i, kind), d, |v.nodes[d].bytes| + DIR_ENTRY_SIZE)
  }

  datatype CreateResult =
    Created | InvalidName | AlreadyExists | InodeExhausted | DataExhausted | Panicked | LookUpBlocked

  lemma NodeIsInode(disk: Disk, sb: SuperBlock, i: nat)
    requires i < MaxInodes(sb)
    ensures |View(disk, sb).nodes| == MaxInodes(sb) && View(disk, sb).nodes[i] == NodeAt(disk, sb, i)
    ensures |View(disk, sb).nodes[i].bytes| == InodeAt(disk, sb, i).size
    ensures View(disk, sb).nodes[i].links == InodeAt(disk, sb, i).links
  {
    hide FsSpec.InodeAt;
  }

  /** Growing a directory by an entry, writing the entry and counting the link enters the name. */
  lemma LinkedInSteps(fs: Tree.Fs, d: nat, name: seq<byte>, i: nat)
    requires d < |fs.nodes| && i < |fs.nodes| < 0x1_0000_0000_0000_0000 && d != i && |name| <= DIR_NAME_SIZE
    requires fs.nodes[i].links == 0
    ensures var n := |fs.nodes[d].bytes|;
      var f2 := Tree.Written(Tree.Grown(fs, d, n + DIR_ENTRY_SIZE), d, n, EncodeEntry(DirEntry(i, name)));
      Tree.Fs(f2.nodes[i := f2.nodes[i].(links := 1)], f2.used) == Tree.Linked(fs, d, name, i)
  {
    var bytes, e := fs.nodes[d].bytes, EncodeEntry(DirEntry(i, name));
    assert Splice(bytes + Zeros(DIR_ENTRY_SIZE), |bytes|, e) == bytes + e;
  }

  lemma DirIsUsed(disk: Disk, sb: SuperBlock, d: nat)
    requires Tree.TreeOk(View(disk, sb)) && d < MaxInodes(sb) && InodeAt(disk, sb, d).kind == Directory
    ensures d in Used(disk, sb) && Tree.IsDir(View(disk, sb), d)
  {
    NodeIsInode(disk, sb, d);
  }

  lemma TookNone(d0: Disk, d1: Disk, sb: SuperBlock)
    requires LayoutOk(sb, |d0|) && Nodes(d1, sb) == Nodes(d0, sb) && Used(d1, sb) == Used(d0, sb)
    requires OnlyBlocks(d0, d1, sb.inodeBmapStart, sb.inodeStart)
    ensures View(d1, sb) == View(d0, sb) && OnlyBlocks(d0, d1, sb.inodeBmapStart, sb.dataBmapStart)
  {
  }

  /** Marking inode `i` used and then emptying it is allocating it. */
  lemma WroteFree(d0: Disk, d1: Disk, sb: SuperBlock, own: seq<nat>, i: nat, off: nat, buf: seq<byte>)
    requires Wrote(d0, d1, sb, own, i, off, buf)
    ensures FreeBlocks(d1, sb) == FreeBlocks(d0, sb)
  {
    assert forall m: nat :: m < sb.dataStart ==> d1[m] == d1[..sb.dataStart][m] == d0[m];
    SameFree(d0, d1, sb);
  }

  lemma ViewUsed(disk: Disk, sb: SuperBlock)
    ensures View(disk, sb).used == Used(disk, sb)
  {
  }

  lemma TookInode(d0: Disk, d1: Disk, sb: SuperBlock, i: nat, kind: InodeType)
    requires WellFormed(d1, sb) && i < MaxInodes(sb) && OnlyBlocks(d0, d1, sb.inodeBmapStart, sb.inodeStart)
    requires Nodes(d1, sb) == Nodes(d0, sb) && Used(d1, sb) == Used(d0, sb) + {i}
    ensures InodeBlock(sb, i) < |d1|
    ensures var d2 := PutInodeAt(d1, sb, i, FreshInode(kind));
      && WellFormed(d2, sb) && View(d2, sb) == Tree.Allocated(View(d0, sb), i, kind)
      && OnlyBlocks(d0, d2, sb.inodeBmapStart, sb.dataBmapStart)
  {
    InodeBlockInArea(sb, i, |d1|);
    FreshView(d1, sb, i, kind);
    hide FsSpec.InodeAt, FsView.Nodes, FsView.Used, FsSpec.NoSharing, FsSpec.InodeOk;
  }

  /** A new inode that is entered nowhere keeps the tree; one that is entered does so exactly when
      the directory lacked the name as the entry keeps it. */
  lemma AllocatedTree(fs: Tree.Fs, d: nat, name: seq<byte>, i: nat, kind: InodeType)
    requires Tree.TreeOk(fs) && Tree.IsDir(fs, d) && d in fs.used
    requires i < |fs.nodes| < 0x1_0000_0000_0000_0000 && i !in fs.used && forall j: nat :: j < i ==> j in fs.used
    ensures Tree.TreeOk(Tree.Allocated(fs, i, kind))
    ensures |name| <= DIR_NAME_SIZE ==>
      (Tree.TreeOk(Tree.Linked(Tree.Allocated(fs, i, kind), d, name, i)) <==>
         Tree.Find(Tree.Dir(fs, d), CutName(name)) == None)
  {
    var gs := Tree.Allocated(fs, i, kind);
    Tree.AllocKeeps(fs, Tree.Alloc(i, kind));
    assert Tree.Dir(gs, d) == Tree.Dir(fs, d);
    if |name| <= DIR_NAME_SIZE {
      Tree.LinkKeepsIff(gs, d, name, i);
    }
  }

  /** Taking an inode keeps the free blocks and who is past the direct range. */
  lemma AllocatedRoom(d0: Disk, d1: Disk, sb: SuperBlock, d: nat, i: nat, kind: InodeType, size: nat)
    requires LayoutOk(sb, |d0|) && OnlyBlocks(d0, d1, sb.inodeBmapStart, sb.dataBmapStart)
    requires d < MaxInodes(sb) && i < MaxInodes(sb) && View(d1, sb) == Tree.Allocated(View(d0, sb), i, kind)
    ensures FreeBlocks(d1, sb) == FreeBlocks(d0, sb) && NoRoomForEntry(d1, sb, size) == NoRoomForEntry(d0, sb, size)
    ensures MayGrow(d0, sb, d, size + DIR_ENTRY_SIZE) ==> MayGrow(d1, sb, d, size + DIR_ENTRY_SIZE)
  {
    hide FsSpec.InodeAt, FsSpec.BitAt, FreeBlocks;
    SameFree(d0, d1, sb);
    forall j: nat | j < MaxInodes(sb)
      ensures Sizes(d1, sb)[j] <= Sizes(d0, sb)[j]
    {
      NodeIsInode(d0, sb, j);
      NodeIsInode(d1, sb, j);
    }
  }

  /** A directory in which a look-up neither blocks nor finds the name has room in the direct range,
      or ends there. */
  lemma RoomInDir(disk: Disk, sb: SuperBlock, d: nat, name: seq<byte>)
    requires Tree.TreeOk(View(disk, sb)) && d < MaxInodes(sb) && InodeAt(disk, sb, d).kind == Directory
    requires !Tree.Blocks(Tree.Dir(View(disk, sb), d), name) && Tree.Find(Tree.Dir(View(disk, sb), d), name) == None
    ensures InodeAt(disk, sb, d).size <= N_DIRECT * BLOCK_SIZE
    ensures InodeAt(disk, sb, d).size < N_DIRECT * BLOCK_SIZE ==>
      InodeAt(disk, sb, d).size + DIR_ENTRY_SIZE <= N_DIRECT * BLOCK_SIZE
  {
    hide FsSpec.InodeAt, FsView.View, Tree.Dir, Tree.TreeOk;
    DirSize(disk, sb, d);
    NodeIsInode(disk, sb, d);
    WholeEntries(View(disk, sb), d);
  }

  lemma WholeEntries(fs: Tree.Fs, d: nat)
    requires Tree.TreeOk(fs) && Tree.IsDir(fs, d)
    ensures |fs.nodes[d].bytes| % DIR_ENTRY_SIZE == 0
  {
    assert Tree.DirOk(fs, d);
  }

  lemma DirSize(disk: Disk, sb: SuperBlock, i: nat)
    requires i < MaxInodes(sb)
    ensures |Tree.Dir(View(disk, sb), i)| == InodeAt(disk, sb, i).size / DIR_ENTRY_SIZE
    ensures Tree.IsDir(View(disk, sb), i) <==> InodeAt(disk, sb, i).kind == Directory
  {
    hide FsSpec.InodeAt;
  }

  /** In a well-kept tree an entry names another inode of the table. */
  lemma EntryInRange(fs: Tree.Fs, d: nat, k: nat)
    requires Tree.TreeOk(fs) && Tree.IsDir(fs, d) && k < |Tree.Dir(fs, d)|
    ensures d < Tree.Dir(fs, d)[k].inum < |fs.nodes|
  {
    assert Tree.DirOk(fs, d);
  }

  function InodeBits(sb: SuperBlock): int {
    (sb.inodeStart - sb.inodeBmapStart) * BITS_PER_BLOCK
  }

  /** `Blocked` waits for a lock the caller holds; `Overflow` is a failed subtraction. */
  datatype IoResult<T> = Done(value: T) | Blocked | Overflow

  datatype ResizeResult = Ok | TooLarge | Exhausted | Unimplemented

  /** File `i` can get this size without sharing blocks: it stays in the direct range or is the only
      file past it. */
  ghost predicate MayGrow(disk: Disk, sb: SuperBlock, i: nat, newSize: nat) {
    newSize <= N_DIRECT * BLOCK_SIZE || AloneIndirect(Sizes(disk, sb), i)
  }

  /** A file past the direct range is alone there. */
  lemma BigIsAlone(disk: Disk, sb: SuperBlock, i: nat, newSize: nat)
    requires WellFormed(disk, sb) && i < MaxInodes(sb) && BlocksFor(newSize) == BlocksFor(InodeAt(disk, sb, i).size)
    ensures MayGrow(disk, sb, i, newSize)
  {
    hide FsSpec.InodeAt, FsSpec.BlockOf, FsSpec.BitAt;
    if newSize > N_DIRECT * BLOCK_SIZE {
      OneIndirectOwner(disk, sb, Sizes(disk, sb), i);
    }
  }

  lemma GrowStart(disk: Disk, sb: SuperBlock, i: nat, newSize: nat)
    requires WellFormed(disk, sb) && i < MaxInodes(sb)
    ensures InodeAt(disk, sb, i).indirect == 0 && SameView(disk, disk, sb, Sizes(disk, sb))
  {
    hide FsSpec.BlockOf, FsSpec.BitAt, FsView.View;
    assert InodeOk(disk, sb, i, Sizes(disk, sb)[i]);
  }

  lemma GrowMore(disk: Disk, sb: SuperBlock, i: nat, newSize: nat, idx: nat)
    requires i < MaxInodes(sb) && idx < BlocksFor(newSize) && newSize <= CAPACITY_PER_INODE
    ensures idx < MAX_BLOCKS_PER_INODE
    ensures MayGrow(disk, sb, i, newSize) ==> idx < N_DIRECT || AloneIndirect(Sizes(disk, sb)[i := idx], i)
  {
    hide FsSpec.InodeAt;
  }

  /** A second file past the direct range breaks the disk. */
  lemma BrokenBySize(d0: Disk, d1: Disk, sb: SuperBlock, i: nat, newSize: nat)
    requires i < MaxInodes(sb) && !MayGrow(d0, sb, i, newSize) && InodeAt(d1, sb, i).size == newSize
    requires OtherInodes(d0, d1, sb, i)
    ensures !WellFormed(d1, sb)
  {
    hide FsSpec.InodeAt, FsSpec.WellFormed;
    var i2 := OtherBigFile(d0, sb, i);
    TwoBigFilesShare(d1, sb, i, i2);
  }

  /** Bit `g` of the bitmap from block `start` on is set, and nothing else is different. */
  ghost predicate BitSet(d0: Disk, d1: Disk, start: nat, g: nat) {
    start + g / BITS_PER_BLOCK < |d0| && d1 == MarkBit(d0, start, g)
  }

  /** What `allocate_data_block` and `clear_block` leave: a block marked and zeroed, or at most a bit
      set past the data blocks. */
  ghost predicate GrabbedDisk(d0: Disk, d1: Disk, sb: SuperBlock, r: Option<nat>, extra: Option<nat>) {
    LayoutOk(sb, |d0|) &&
    match r
    case Some(b) =>
      && InData(sb, b) && !InUse(d0, sb, b) && sb.dataBmapStart + (b - sb.dataStart) / BITS_PER_BLOCK < |d0|
      && d1 == MarkBit(d0, sb.dataBmapStart, b - sb.dataStart)[b := ZeroBlock()]
    case None =>
      match extra
      case None => d1 == d0
      case Some(g) =>
        && g < (sb.dataStart - sb.dataBmapStart) * BITS_PER_BLOCK && sb.dataBmapStart + g / BITS_PER_BLOCK < |d0|
        && d1 == MarkBit(d0, sb.dataBmapStart, g)
  }

  /** The blocks taken from `was` to leave `left` were the least ones. */
  ghost predicate LeastTaken(was: set<nat>, left: set<nat>) {
    left <= was && forall a, b :: a in was - left && b in left ==> a < b
  }

  lemma NothingTaken(free: set<nat>)
    ensures LeastTaken(free, free)
  {
  }

  lemma TakenMore(was: set<nat>, now: set<nat>, left: set<nat>)
    requires LeastTaken(was, now) && LeastTaken(now, left)
    ensures LeastTaken(was, left)
  {
    forall a, b | a in was - left && b in left
      ensures a < b
    {
      assert a in was - now || a in now - left;
    }
  }

  /** How many blocks `resize_inode` adds, by the case it takes. */
  lemma ResizeBlocks(oldSize: nat, newSize: nat)
    requires oldSize < newSize
    ensures var off, incr := oldSize % BLOCK_SIZE, newSize - oldSize;
      && (off == 0 ==> BlocksFor(oldSize) + BlocksFor(incr) == BlocksFor(newSize))
      && (off != 0 && incr > BLOCK_SIZE - off ==>
            BlocksFor(oldSize) + BlocksFor(incr - (BLOCK_SIZE - off)) == BlocksFor(newSize))
      && (off != 0 && incr <= BLOCK_SIZE - off ==> BlocksFor(oldSize) == BlocksFor(newSize))
  {
  }

  lemma GrownToSame(fs: Tree.Fs, i: nat)
    requires i < |fs.nodes|
    ensures Tree.Grown(fs, i, |fs.nodes[i].bytes|) == fs
  {
    assert fs.nodes[i].bytes + Zeros(0) == fs.nodes[i].bytes;
  }

  /** Taking a free data block and clearing it leaves every file alone and makes it spare. */
  lemma TakenBlock(d0: Disk, sb: SuperBlock, own: seq<nat>, b: nat)
    requires Owns(d0, sb, own) && InData(sb, b) && !InUse(d0, sb, b)
    ensures sb.dataBmapStart + (b - sb.dataStart) / BITS_PER_BLOCK < |d0|
    ensures var d1 := MarkBit(d0, sb.dataBmapStart, b - sb.dataStart);
      var d2 := d1[b := ZeroBlock()];
      && SameView(d0, d2, sb, own) && Spare(d2, sb, own, b)
      && (forall i: nat :: i < |own| ==>
            InodeAt(d1, sb, i) == InodeAt(d0, sb, i) && InodeAt(d2, sb, i) == InodeAt(d0, sb, i))
  {
    hide FsSpec.InodeAt, FsSpec.BlockOf, FsView.View, FsSpec.BitAt, FsSpec.InodeOk, FsSpec.NoSharing, FsMeta.MarkBit;
    MarkDataBit(d0, sb, own, b - sb.dataStart);
    MarkSameView(d0, sb, own, b - sb.dataStart);
    var d1 := MarkBit(d0, sb.dataBmapStart, b - sb.dataStart);
    assert Unowned(d1, sb, own, b) by {
      FreeIsUnowned(d0, sb, own, b);
      StillUnowned(d0, sb, own, b - sb.dataStart, b);
    }
    ClearUnowned(d1, sb, own, b);
    ClearSameView(d1, sb, own, b);
    SameMetaInUse(d1, d1[b := ZeroBlock()], sb, b);
  }

  /** The free blocks and the inodes after a block was taken, or none could be. */
  lemma Grabbed(d0: Disk, sb: SuperBlock, r: Option<nat>, extra: Option<nat>)
    requires LayoutOk(sb, |d0|)
    requires r.Some? ==> InData(sb, r.value) && !InUse(d0, sb, r.value)
    requires r == None ==> forall b: nat :: InData(sb, b) ==> InUse(d0, sb, b)
    requires r == None && extra.Some? ==>
      sb.dataBlocks <= extra.value < (sb.dataStart - sb.dataBmapStart) * BITS_PER_BLOCK
    ensures r == None <==> FreeBlocks(d0, sb) == {}
    ensures r.Some? ==>
      && r.value in FreeBlocks(d0, sb) && sb.dataBmapStart + (r.value - sb.dataStart) / BITS_PER_BLOCK < sb.dataStart
      && var d2 := MarkBit(d0, sb.dataBmapStart, r.value - sb.dataStart)[r.value := ZeroBlock()];
         && FreeBlocks(d2, sb) == FreeBlocks(d0, sb) - {r.value}
         && forall i: nat :: i < MaxInodes(sb) ==> InodeAt(d2, sb, i) == InodeAt(d0, sb, i)
    ensures r == None && extra.Some? ==>
      && sb.dataBmapStart + extra.value / BITS_PER_BLOCK < sb.dataStart
      && var d1 := MarkBit(d0, sb.dataBmapStart, extra.value);
         && FreeBlocks(d1, sb) == {}
         && forall i: nat :: i < MaxInodes(sb) ==> InodeAt(d1, sb, i) == InodeAt(d0, sb, i)
  {
    hide FsSpec.InodeAt, FsSpec.BitAt;
    if r.Some? {
      var g := r.value - sb.dataStart;
      assert r.value in FreeBlocks(d0, sb);
      MarkFree(d0, sb, g);
      MarkInodes(d0, sb, g);
      var d1 := MarkBit(d0, sb.dataBmapStart, g);
      SameFree(d1, d1[r.value := ZeroBlock()], sb);
      forall i: nat | i < MaxInodes(sb)
        ensures InodeAt(d1[r.value := ZeroBlock()], sb, i) == InodeAt(d0, sb, i)
      {
        InodesElsewhere(d1, sb, r.value, ZeroBlock(), i);
      }
    } else if extra.Some? {
      MarkFree(d0, sb, extra.value);
      MarkInodes(d0, sb, extra.value);
    }
  }

  lemma MarkInodes(disk: Disk, sb: SuperBlock, g: nat)
    requires LayoutOk(sb, |disk|) && g < (sb.dataStart - sb.dataBmapStart) * BITS_PER_BLOCK
    ensures sb.dataBmapStart + g / BITS_PER_BLOCK < |disk|
    ensures forall i: nat ::
      i < MaxInodes(sb) ==> InodeAt(MarkBit(disk, sb.dataBmapStart, g), sb, i) == InodeAt(disk, sb, i)
  {
    hide FsSpec.InodeAt;
    BitmapBlockInArea(sb, g, |disk|);
    var m := sb.dataBmapStart + g / BITS_PER_BLOCK;
    forall i: nat | i < MaxInodes(sb)
      ensures InodeAt(MarkBit(disk, sb.dataBmapStart, g), sb, i) == InodeAt(disk, sb, i)
    {
      InodesElsewhere(disk, sb, m, SetBit(disk[m], g % BITS_PER_BLOCK), i);
    }
  }

  /** When the blocks are in order, taking one changes no file and leaves it spare. */
  lemma GrabbedView(d0: Disk, d1: Disk, sb: SuperBlock, own: seq<nat>, r: Option<nat>, extra: Option<nat>)
    requires Owns(d0, sb, own) && GrabbedDisk(d0, d1, sb, r, extra)
    ensures SameView(d0, d1, sb, own) && (r.Some? ==> Spare(d1, sb, own, r.value))
  {
    hide FsSpec.InodeAt, FsSpec.BlockOf, FsView.View, FsSpec.BitAt, FsSpec.InodeOk, FsSpec.NoSharing, FsMeta.MarkBit;
    if r.Some? {
      TakenBlock(d0, sb, own, r.value);
    } else if extra.Some? {
      MarkSameView(d0, sb, own, extra.value);
    }
  }

  /** A spare block entered in the inode keeps every file. */
  lemma AddedView(d0: Disk, d1: Disk, sb: SuperBlock, own: seq<nat>, i: nat, b: u64)
    requires SameView(d0, d1, sb, own) && i < |own| && own[i] < MAX_BLOCKS_PER_INODE && Spare(d1, sb, own, b)
    requires own[i] < N_DIRECT || AloneIndirect(own, i)
    ensures InodeBlock(sb, i) < |d1| && InodeAt(d1, sb, i).indirect < |d1|
    ensures SameView(d0, SetBid(d1, sb, i, own[i], b), sb, own[i := own[i] + 1])
  {
    hide FsSpec.InodeAt, FsSpec.BlockOf, FsView.View, FsSpec.BitAt, SetBid, FsSpec.InodeOk, FsSpec.NoSharing;
    GrowSameView(d1, sb, own, i, b);
  }

  lemma StillUnowned(d0: Disk, sb: SuperBlock, own: seq<nat>, g: nat, b: nat)
    requires Owns(d0, sb, own) && Unowned(d0, sb, own, b)
    requires g < (sb.dataStart - sb.dataBmapStart) * BITS_PER_BLOCK
    ensures sb.dataBmapStart + g / BITS_PER_BLOCK < |d0|
    ensures Unowned(MarkBit(d0, sb.dataBmapStart, g), sb, own, b)
  {
    hide FsSpec.InodeAt, FsSpec.BitAt, SetBit;
    BitmapBlockInArea(sb, g, |d0|);
    var d1 := MarkBit(d0, sb.dataBmapStart, g);
    MarkDataBit(d0, sb, own, g);
    assert BlockAt(d1, 0) == BlockAt(d0, 0);
    forall i: nat, j: nat | i < |own| && j < own[i]
      ensures BlockOf(d1, sb, i, j) != b
    {
      assert InodeOk(d0, sb, i, own[i]) && BlockOf(d0, sb, i, j) != b;
      assert BlockOf(d1, sb, i, j) == BlockOf(d0, sb, i, j);
    }
  }

  function Min(a: nat, b: nat): nat {
    if a <= b then a else b
  }

  /** The part of a range up to the next block boundary. */
  lemma ChunkFits(start: nat, block: nat, end: nat)
    requires start < end && block == start / BLOCK_SIZE
    ensures var stop := Min(end, (block + 1) * BLOCK_SIZE);
      && start < stop <= end && start % BLOCK_SIZE + (stop - start) <= BLOCK_SIZE
      && (stop < end ==> stop / BLOCK_SIZE == block + 1)
      && (block < N_DIRECT <==> start < N_DIRECT * BLOCK_SIZE)
      && (block < N_DIRECT ==> stop <= N_DIRECT * BLOCK_SIZE)
  {
  }

  lemma InodeSlotOnDisk(sb: SuperBlock, i: nat, n: nat)
    requires LayoutOk(sb, n) && i <= MaxInodes(sb)
    ensures InodeBlock(sb, i) < n
  {
  }

  /** `get` accepts one number too many: the slot it then reads is in the data bitmap. */
  lemma LastSlotIsBitmap(sb: SuperBlock, n: nat)
    requires LayoutOk(sb, n)
    ensures InodeBlock(sb, MaxInodes(sb)) == sb.dataBmapStart
    ensures forall i: nat :: i < MaxInodes(sb) <==> sb.inodeStart <= InodeBlock(sb, i) < sb.dataBmapStart
  {
  }
}
