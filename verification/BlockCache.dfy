/** The write-back block cache: a bounded buffer of cached copies over a block device. The ghost
    field `disk` is the plain array of blocks the cache stands for; every operation is specified
    on it. */
module BlockCache {
  import opened Codec

  const BLOCK_BUFFER_SIZE: nat := 64

  class BlockDevice {
    var blocks: Disk

    constructor (blocks: Disk)
      ensures this.blocks == blocks
    {
      this.blocks := blocks;
    }
  }

  /** A cached copy of one block. `handles` counts the clones of its `Arc` outside the buffer, so
      the source's `strong_count` is one more while the copy is in the buffer. */
  class BlockCache {
    const id: nat
    const dev: BlockDevice
    var data: Block
    var modified: bool
    var handles: nat

    /** Loads the block from the device. */
    constructor (id: nat, dev: BlockDevice)
      requires id < |dev.blocks|
      ensures this.id == id && this.dev == dev && data == dev.blocks[id] && !modified && handles == 1
    {
      this.id, this.dev := id, dev;
      data, modified, handles := dev.blocks[id], false, 1;
    }

    method Write(b: Block)
      modifies this`data, this`modified
      ensures data == b && modified
    {
      modified := true;
      data := b;
    }

    /** Writes the copy back if it was modified; `drop` does the same. */
    method Sync()
      requires id < |dev.blocks|
      modifies this`modified, dev
      ensures !modified
      ensures dev.blocks == if old(modified) then old(dev.blocks)[id := data] else old(dev.blocks)
    {
      if !modified {
        return;
      }
      modified := false;
      dev.blocks := dev.blocks[id := data];
    }
  }

  class BlockCacheBuffer {
    const dev: BlockDevice
    const capacity: nat
    var buffer: seq<BlockCache>
    /** Every copy this buffer has made. */
    ghost var issued: set<BlockCache>
    /** The array of blocks the cache and the device stand for. */
    ghost var disk: Disk

    ghost predicate Cached(id: nat)
      reads this, issued
    {
      exists c :: c in buffer && c.id == id
    }

    /** At most one copy per block and no more than `capacity`; a clean copy equals the device; a
        copy with a live handle is in the buffer; `disk` is the cached copy where there is one and
        the device elsewhere. */
    ghost predicate Valid()
      reads this, dev, issued
    {
      && |buffer| <= capacity
      && (forall i, j :: 0 <= i < j < |buffer| ==> buffer[i].id != buffer[j].id)
      && (forall c :: c in buffer ==> c in issued)
      && (forall c :: c in issued ==> c.dev == dev && c.id < |disk|)
      && (forall c :: c in issued && c.handles > 0 ==> c in buffer)
      && |disk| == |dev.blocks|
      && (forall c :: c in buffer ==> disk[c.id] == c.data)
      && (forall c :: c in buffer && !c.modified ==> dev.blocks[c.id] == c.data)
      && (forall id: nat :: id < |disk| && !Cached(id) ==> disk[id] == dev.blocks[id])
    }

    ghost predicate Quiet()
      reads this, issued
    {
      forall c :: c in issued ==> c.handles == 0
    }

    /** No copy in the buffer has to be written back. */
    ghost predicate Clean()
      reads this, issued
    {
      forall c :: c in buffer && c in issued ==> !c.modified
    }

    constructor (dev: BlockDevice, capacity: nat)
      ensures Valid() && Quiet() && this.dev == dev && this.capacity == capacity
      ensures buffer == [] && issued == {} && disk == dev.blocks
    {
      this.dev, this.capacity, buffer, issued, disk := dev, capacity, [], {}, dev.blocks;
    }

    /** Position of the copy of block `id`, or the buffer's length. */
    method Find(id: nat) returns (i: nat)
      requires Valid()
      ensures i <= |buffer|
      ensures i < |buffer| ==> buffer[i].id == id
      ensures i == |buffer| <==> !Cached(id)
    {
      i := 0;
      while i < |buffer| && buffer[i].id != id
        invariant i <= |buffer|
        invariant forall j :: 0 <= j < i ==> buffer[j].id != id
      {
        i := i + 1;
      }
    }

    /** First position, from the front, of a copy without live handles. */
    method FindUnpinned() returns (i: nat)
      requires Valid()
      ensures i <= |buffer|
      ensures forall j :: 0 <= j < i ==> buffer[j].handles > 0
      ensures i < |buffer| ==> buffer[i].handles == 0
    {
      i := 0;
      while i < |buffer| && buffer[i].handles != 0
        invariant i <= |buffer|
        invariant forall j :: 0 <= j < i ==> buffer[j].handles > 0
      {
        i := i + 1;
      }
    }

    /** Drops the copy at position `i`, writing it back if it was modified. */
    method Evict(i: nat)
      requires Valid() && i < |buffer| && buffer[i].handles == 0
      modifies this`buffer, dev, issued`modified
      ensures Valid() && buffer == old(buffer)[..i] + old(buffer)[i + 1..]
      ensures forall id :: Cached(id) ==> old(Cached(id))
      ensures dev.blocks == old(dev.blocks)[old(buffer)[i].id := old(buffer)[i].data]
      ensures forall d :: d in issued && d != old(buffer)[i] ==> d.modified == old(d.modified)
      ensures old(Clean()) ==> Clean() && dev.blocks == old(dev.blocks)
    {
      var c := buffer[i];
      buffer := buffer[..i] + buffer[i + 1..];
      c.Sync();
      assert forall d :: d in old(buffer) && d != c ==> d in buffer;
      forall id: nat | id < |disk| && !Cached(id)
        ensures disk[id] == dev.blocks[id]
      {
        if id != c.id {
          assert forall d :: d in old(buffer) && d.id == id ==> d in buffer;
          assert !old(Cached(id));
        }
      }
    }

    /** Loads a block that is not cached at the back of a buffer with room. */
    method Load(id: nat) returns (c: BlockCache)
      requires Valid() && id < |disk| && !Cached(id) && |buffer| < capacity
      modifies this`buffer, this`issued
      ensures Valid() && fresh(c) && buffer == old(buffer) + [c] && issued == old(issued) + {c}
      ensures c.id == id && c.data == disk[id] && c.handles == 1 && !c.modified
      ensures old(Clean()) ==> Clean()
    {
      c := new BlockCache(id, dev);
      buffer := buffer + [c];
      issued := issued + {c};
      forall k: nat | k < |disk| && !Cached(k)
        ensures disk[k] == dev.blocks[k]
      {
        assert forall d :: d in old(buffer) ==> d in buffer;
        assert !old(Cached(k));
      }
    }

    /** A handle can be had for block `id`. */
    ghost predicate Available(id: nat)
      reads this, issued
    {
      Cached(id) || HasRoom()
    }

    ghost predicate HasRoom()
      reads this, issued
    {
      |buffer| < capacity || exists c :: c in buffer && c in issued && c.handles == 0
    }

    /** Position `j` is the first one without live handles. */
    ghost predicate FirstFree(copies: seq<BlockCache>, j: nat)
      reads copies
    {
      j < |copies| && copies[j].handles == 0 && forall i :: 0 <= i < j ==> copies[i].handles > 0
    }

    /** Copy `c` is on the device, and no other block of it and no other copy's flag has changed. */
    twostate predicate WroteBack(c: BlockCache)
      reads dev, issued, this
    {
      && c.id < |old(dev.blocks)| && dev.blocks == old(dev.blocks)[c.id := old(c.data)]
      && forall d :: d in old(issued) && d in issued && d != c ==> d.modified == old(d.modified)
    }

    /** Nothing has been written to the device. */
    twostate predicate Unwritten()
      reads dev, issued, this
    {
      dev.blocks == old(dev.blocks) && forall d :: d in old(issued) && d in issued ==> d.modified == old(d.modified)
    }

    /** Makes room for one more copy: in a full buffer, drops the first copy from the front without
        live handles. */
    method MakeRoom() returns (ok: bool, ghost j: nat)
      requires Valid()
      modifies this`buffer, dev, issued`modified
      ensures Valid() && forall id :: Cached(id) ==> old(Cached(id))
      ensures ok <==> |buffer| < capacity
      ensures ok == old(HasRoom())
      ensures !ok || |old(buffer)| < capacity ==> buffer == old(buffer)
      ensures ok && |old(buffer)| == capacity ==>
        FirstFree(old(buffer), j) && buffer == old(buffer)[..j] + old(buffer)[j + 1..] && WroteBack(old(buffer)[j])
      ensures !ok || |old(buffer)| < capacity ==> Unwritten()
      ensures old(Clean()) ==> Clean() && dev.blocks == old(dev.blocks)
    {
      if |buffer| < capacity {
        return true, 0;
      }
      var i := FindUnpinned();
      if i == |buffer| {
        return false, 0;
      }
      Evict(i);
      ok, j := true, i;
    }

    /** Clones the handle of the copy at position `i`. */
    method Pin(i: nat) returns (c: BlockCache)
      requires Valid() && i < |buffer|
      modifies issued`handles
      ensures Unwritten() && (old(Clean()) ==> Clean())
      ensures Valid() && c == buffer[i] && c in issued && c.data == disk[c.id] && c.handles == old(c.handles) + 1
      ensures forall d :: d in issued && d != c ==> d.handles == old(d.handles)
    {
      c := buffer[i];
      c.handles := c.handles + 1;
    }

    /** Returns a handle on the copy of block `id`, loading it if needed, or null where the source
        panics: every copy in a full buffer has a live handle. A hit does not reorder the buffer;
        a miss puts the copy at the back, and in a full buffer drops the first one without handles. */
    method Get(id: nat) returns (c: BlockCache?)
      requires Valid() && id < |disk|
      modifies this`buffer, this`issued, dev, issued`modified, issued`handles
      ensures Valid() && disk == old(disk) && issued == old(issued) + (if c == null then {} else {c})
      ensures c == null <==> !old(Available(id))
      ensures c == null ==> buffer == old(buffer)
      ensures c != null ==> c in buffer && c.id == id && c.data == disk[id] && c.handles > 0
      ensures c != null && old(Cached(id)) ==>
        buffer == old(buffer) && c in old(issued) && c.handles == old(c.handles) + 1
      ensures c != null && !old(Cached(id)) ==> fresh(c) && c.handles == 1 && !c.modified
      ensures c != null && !old(Cached(id)) && |old(buffer)| < capacity ==> buffer == old(buffer) + [c]
      ensures c != null && !old(Cached(id)) && |old(buffer)| == capacity ==>
        exists j: nat ::
          && old(FirstFree(buffer, j)) && buffer == old(buffer)[..j] + old(buffer)[j + 1..] + [c]
          && WroteBack(old(buffer)[j])
      ensures c == null || old(Cached(id)) || |old(buffer)| < capacity ==> Unwritten()
      ensures forall d :: d in old(issued) && d != c ==> d.handles == old(d.handles)
      ensures old(Clean()) ==> Clean() && dev.blocks == old(dev.blocks)
    {
      hide Valid, Clean, HasRoom;
      var i := Find(id);
      if i < |buffer| {
        c := Pin(i);
        return;
      }
      ghost var victim;
      var ok;
      ok, victim := MakeRoom();
      if !ok {
        return null;
      }
      c := Load(id);
    }

    /** A handle goes out of scope. */
    method Release(c: BlockCache)
      requires Valid() && c in issued && c.handles > 0
      modifies c`handles
      ensures Valid() && c.handles == old(c.handles) - 1
    {
      c.handles := c.handles - 1;
    }

    /** Writes through a live handle. */
    method Store(c: BlockCache, b: Block)
      requires Valid() && c in issued && c.handles > 0
      modifies this`disk, c`data, c`modified
      ensures Valid() && disk == old(disk)[c.id := b] && c.data == b && c.modified
    {
      assert c in buffer;
      c.Write(b);
      disk := disk[c.id := b];
    }

    /** Syncs one copy through a live handle: the device catches up, the disk stays the same. */
    method SyncOne(c: BlockCache)
      requires Valid() && c in issued && c.handles > 0
      modifies c`modified, dev
      ensures Valid() && c.id < |dev.blocks| && dev.blocks == old(dev.blocks)[c.id := disk[c.id]] && !c.modified
    {
      c.Sync();
    }

    /** The copies are of blocks of this cache's device, which has `n` blocks. */
    ghost predicate Attached(n: nat)
      reads this, issued
    {
      forall c :: c in buffer ==> c in issued && c.dev == dev && c.id < n
    }

    lemma ValidIsAttached()
      requires Valid()
      ensures Attached(|dev.blocks|)
    {
    }

    /** Syncs every copy. Afterwards the device is the disk; and when no copy was modified, even
        one whose device was changed by others, the device is left alone. */
    method Flush()
      requires Attached(|dev.blocks|)
      modifies issued`modified, dev
      ensures Clean()
      ensures old(Valid()) ==> Valid() && dev.blocks == disk
      ensures old(Clean()) ==> dev.blocks == old(dev.blocks)
      ensures |dev.blocks| == |old(dev.blocks)|
    {
      var i := 0;
      while i < |buffer|
        modifies issued`modified, dev
        invariant i <= |buffer| && |dev.blocks| == |old(dev.blocks)|
        invariant forall j :: 0 <= j < i ==> !buffer[j].modified
        invariant old(Valid()) ==> Valid()
        invariant old(Clean()) ==> dev.blocks == old(dev.blocks) && Clean()
      {
        buffer[i].Sync();
        i := i + 1;
      }
      if old(Valid()) {
        forall k: nat | k < |disk|
          ensures disk[k] == dev.blocks[k]
        {
          if Cached(k) {
            var c :| c in buffer && c.id == k;
          }
        }
      }
    }

    /** Without live handles there is always room. */
    lemma QuietIsAvailable(id: nat)
      requires Valid() && Quiet() && capacity > 0
      ensures Available(id)
    {
      if |buffer| == capacity {
        assert buffer[0] in buffer && buffer[0].handles == 0;
      }
    }

    /** `get(id).lock().read(..)`, the handle dropped at once. */
    method Read(id: nat) returns (b: Block)
      requires Valid() && id < |disk| && Available(id)
      modifies this`buffer, this`issued, dev, issued`modified, issued`handles
      ensures Valid() && disk == old(disk) && b == disk[id]
      ensures old(Clean()) ==> Clean() && dev.blocks == old(dev.blocks)
      ensures fresh(issued - old(issued)) && old(issued) <= issued
      ensures forall c :: c in old(issued) ==> c.handles == old(c.handles)
      ensures forall c :: c in issued - old(issued) ==> c.handles == 0
    {
      var c := Get(id);
      b := c.data;
      Release(c);
    }

    /** `get(id).lock().write(..)` with `b` the block after the write. */
    method Update(id: nat, b: Block)
      requires Valid() && id < |disk| && Available(id)
      modifies this`buffer, this`issued, this`disk, dev, issued
      ensures Valid() && disk == old(disk)[id := b]
      ensures fresh(issued - old(issued)) && old(issued) <= issued
      ensures forall c :: c in old(issued) ==> c.handles == old(c.handles)
      ensures forall c :: c in issued - old(issued) ==> c.handles == 0
    {
      var c := Get(id);
      Store(c, b);
      Release(c);
    }

    /** The same with a `sync` before the handle is dropped. */
    method UpdateNow(id: nat, b: Block)
      requires Valid() && id < |disk| && Available(id)
      modifies this`buffer, this`issued, this`disk, dev, issued
      ensures Valid() && disk == old(disk)[id := b] && dev.blocks[id] == b
      ensures fresh(issued - old(issued)) && old(issued) <= issued
      ensures forall c :: c in old(issued) ==> c.handles == old(c.handles)
      ensures forall c :: c in issued - old(issued) ==> c.handles == 0
    {
      assert |disk| == |dev.blocks|;
      var c := Get(id);
      Store(c, b);
      SyncOne(c);
      Release(c);
    }
  }
}
