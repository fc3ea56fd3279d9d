/** Writing the data blocks of a file. */
module FsData {
  import opened Codec
  import opened FsSpec

  /** After writing block `b` of the data area, every byte of every file is as before, except in
      the part stored in `b`. */
  lemma DataWriteBytes(disk: Disk, sb: SuperBlock, own: seq<nat>, i: nat, j: nat, nb: Block, i2: nat, k: nat)
    requires Owns(disk, sb, own) && i < |own| && j < own[i]
    requires i2 < |own| && k < own[i2] * BLOCK_SIZE
    ensures var b := BlockOf(disk, sb, i, j);
      && b < |disk|
      && SameMeta(disk, disk[b := nb], sb)
      && FileByte(disk[b := nb], sb, i2, k)
         == if i2 == i && k / BLOCK_SIZE == j then nb[k % BLOCK_SIZE] else FileByte(disk, sb, i2, k)
  {
    var b := BlockOf(disk, sb, i, j);
    assert InodeOk(disk, sb, i, own[i]) && InodeOk(disk, sb, i2, own[i2]);
    assert InData(sb, b);
    var d1 := disk[b := nb];
    var j2 := k / BLOCK_SIZE;
    SameMetaKeeps(disk, d1, sb, i2, j2);
    assert InData(sb, BlockOf(disk, sb, i2, j2));
  }

  /** A write that keeps the bytes past the size zero keeps the disk well-formed. */
  lemma DataWriteOwns(disk: Disk, sb: SuperBlock, own: seq<nat>, i: nat, j: nat, nb: Block)
    requires Owns(disk, sb, own) && i < |own| && j < own[i]
    requires forall k: nat :: InodeAt(disk, sb, i).size <= k && k / BLOCK_SIZE == j ==> nb[k % BLOCK_SIZE] == 0
    ensures var b := BlockOf(disk, sb, i, j);
      b < |disk| && SameMeta(disk, disk[b := nb], sb) && Owns(disk[b := nb], sb, own)
  {
    var b := BlockOf(disk, sb, i, j);
    assert InodeOk(disk, sb, i, own[i]) && InData(sb, b);
    var d1 := disk[b := nb];
    forall i2: nat | i2 < |own|
      ensures InodeOk(d1, sb, i2, own[i2])
      ensures forall j2: nat :: BlockOf(d1, sb, i2, j2) == BlockOf(disk, sb, i2, j2)
    {
      assert InodeOk(disk, sb, i2, own[i2]);
      forall j2: nat
        ensures BlockOf(d1, sb, i2, j2) == BlockOf(disk, sb, i2, j2)
        ensures InodeAt(d1, sb, i2) == InodeAt(disk, sb, i2)
      {
        SameMetaKeeps(disk, d1, sb, i2, j2);
      }
      forall j2: nat | j2 < own[i2]
        ensures InData(sb, BlockOf(d1, sb, i2, j2)) && InUse(d1, sb, BlockOf(d1, sb, i2, j2))
      {
        assert InData(sb, BlockOf(disk, sb, i2, j2));
        SameMetaInUse(disk, d1, sb, BlockOf(disk, sb, i2, j2));
      }
      forall k: nat | InodeAt(d1, sb, i2).size <= k < own[i2] * BLOCK_SIZE
        ensures FileByte(d1, sb, i2, k) == 0
      {
        DataWriteBytes(disk, sb, own, i, j, nb, i2, k);
        assert FileByte(disk, sb, i2, k) == 0;
      }
    }
  }

  /** The inode and the bytes of every file but `i` are the same. */
  predicate SameOthers(d0: Disk, d1: Disk, sb: SuperBlock, i: nat) {
    forall i2: nat :: i2 < MaxInodes(sb) && i2 != i ==>
      Contents(d1, sb, i2) == Contents(d0, sb, i2) && InodeAt(d1, sb, i2) == InodeAt(d0, sb, i2)
  }

  lemma DataWriteOthers(disk: Disk, sb: SuperBlock, own: seq<nat>, i: nat, j: nat, nb: Block)
    requires Owns(disk, sb, own) && i < |own| && j < own[i]
    ensures var b := BlockOf(disk, sb, i, j);
      b < |disk| && SameOthers(disk, disk[b := nb], sb, i)
  {
    var b := BlockOf(disk, sb, i, j);
    assert InodeOk(disk, sb, i, own[i]) && InData(sb, b);
    var d1 := disk[b := nb];
    forall i2: nat | i2 < MaxInodes(sb) && i2 != i
      ensures Contents(d1, sb, i2) == Contents(disk, sb, i2) && InodeAt(d1, sb, i2) == InodeAt(disk, sb, i2)
    {
      assert InodeOk(disk, sb, i2, own[i2]);
      SameMetaKeeps(disk, d1, sb, i2, 0);
      forall k: nat | k < InodeAt(disk, sb, i2).size
        ensures Contents(d1, sb, i2)[k] == Contents(disk, sb, i2)[k]
      {
        DataWriteBytes(disk, sb, own, i, j, nb, i2, k);
      }
    }
  }

  /** A range inside one block of a file, by block number and offset. */
  lemma InOnePart(off: nat, len: nat, k: nat)
    requires off % BLOCK_SIZE + len <= BLOCK_SIZE
    ensures off <= k < off + len <==>
      k / BLOCK_SIZE == off / BLOCK_SIZE && off % BLOCK_SIZE <= k % BLOCK_SIZE < off % BLOCK_SIZE + len
    ensures k / BLOCK_SIZE == off / BLOCK_SIZE ==> k - off == k % BLOCK_SIZE - off % BLOCK_SIZE
  {
  }

  lemma WritePieceByte(disk: Disk, sb: SuperBlock, own: seq<nat>, i: nat, off: nat, piece: seq<byte>, k: nat)
    requires Owns(disk, sb, own) && i < |own| && off / BLOCK_SIZE < own[i] && k < own[i] * BLOCK_SIZE
    requires off % BLOCK_SIZE + |piece| <= BLOCK_SIZE
    ensures var b := BlockOf(disk, sb, i, off / BLOCK_SIZE);
      && b < |disk|
      && FileByte(disk[b := Splice(disk[b], off % BLOCK_SIZE, piece)], sb, i, k)
         == if off <= k < off + |piece| then piece[k - off] else FileByte(disk, sb, i, k)
  {
    var j := off / BLOCK_SIZE;
    var b := BlockOf(disk, sb, i, j);
    assert InodeOk(disk, sb, i, own[i]) && InData(sb, b);
    DataWriteBytes(disk, sb, own, i, j, Splice(disk[b], off % BLOCK_SIZE, piece), i, k);
    SpliceAt(disk[b], off % BLOCK_SIZE, piece, k % BLOCK_SIZE);
    InOnePart(off, |piece|, k);
  }

  /** Writing `piece` into one block of file `i` at `off` replaces exactly those bytes of the file
      and nothing else. */
  lemma WritePiece(disk: Disk, sb: SuperBlock, own: seq<nat>, i: nat, off: nat, piece: seq<byte>)
    requires Owns(disk, sb, own) && i < |own|
    requires off + |piece| <= InodeAt(disk, sb, i).size
    requires off % BLOCK_SIZE + |piece| <= BLOCK_SIZE && piece != []
    ensures var b := BlockOf(disk, sb, i, off / BLOCK_SIZE);
      && b < |disk|
      && var d1 := disk[b := Splice(disk[b], off % BLOCK_SIZE, piece)];
      && Owns(d1, sb, own)
      && SameMeta(disk, d1, sb)
      && Contents(d1, sb, i) == Splice(Contents(disk, sb, i), off, piece)
      && InodeAt(d1, sb, i) == InodeAt(disk, sb, i)
      && SameOthers(disk, d1, sb, i)
  {
    var j := off / BLOCK_SIZE;
    var b := BlockOf(disk, sb, i, j);
    assert InodeOk(disk, sb, i, own[i]) && InData(sb, b);
    var nb: Block := Splice(disk[b], off % BLOCK_SIZE, piece);
    var d1 := disk[b := nb];
    forall k: nat | InodeAt(disk, sb, i).size <= k && k / BLOCK_SIZE == j
      ensures nb[k % BLOCK_SIZE] == 0
    {
      SpliceAt(disk[b], off % BLOCK_SIZE, piece, k % BLOCK_SIZE);
      assert FileByte(disk, sb, i, k) == 0;
    }
    DataWriteOwns(disk, sb, own, i, j, nb);
    SameMetaKeeps(disk, d1, sb, i, 0);
    forall k: nat | k < InodeAt(disk, sb, i).size
      ensures Contents(d1, sb, i)[k] == Splice(Contents(disk, sb, i), off, piece)[k]
    {
      WritePieceByte(disk, sb, own, i, off, piece, k);
      SpliceAt(Contents(disk, sb, i), off, piece, k);
    }
    DataWriteOthers(disk, sb, own, i, j, nb);
  }
}
