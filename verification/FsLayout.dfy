/** Where things are on the device, said of the bytes of its blocks alone. */
module FsLayout {
  import opened Common
  import opened Codec
  import opened Bitmap
  import opened FsSpec
  import Bits

  lemma ValueInSlice(b: Block, off: nat, at: nat)
    requires off + DINODE_SIZE <= BLOCK_SIZE && at + 8 <= DINODE_SIZE
    ensures ValueAt(b[off..off + DINODE_SIZE], at) == ValueAt(b, off + at)
  {
  }

  /** Inode `i` is in block `i / 16` of the inode area, 256 bytes for each inode before it in the block. */
  lemma InodeOnDisk(disk: Disk, sb: SuperBlock, i: nat)
    ensures var b, at, d := BlockAt(disk, sb.inodeStart + i / 16), 256 * (i % 16), InodeAt(disk, sb, i);
      && (d.kind == File <==> b[at] == 1) && (d.kind == Directory <==> b[at] == 2)
      && d.indirect == ValueAt(b, at + 8) && d.links == ValueAt(b, at + 16) && d.size == ValueAt(b, at + 24)
      && forall j: nat :: j < 28 ==> d.addresses[j] == ValueAt(b, at + 32 + 8 * j)
  {
    var b, at := BlockAt(disk, sb.inodeStart + i / 16), 256 * (i % 16);
    var s := b[at..at + DINODE_SIZE];
    InodeFields(s);
    ValueInSlice(b, at, 8);
    ValueInSlice(b, at, 16);
    ValueInSlice(b, at, 24);
    assert InodeAt(disk, sb, i) == DecodeInode(s);
    hide ValueAt, DecodeInode;
    forall j: nat | j < 28
      ensures DecodeInode(s).addresses[j] == ValueAt(b, at + 32 + 8 * j)
    {
      ValueInSlice(b, at, 32 + 8 * j);
    }
  }

  /** The block of part `j` of file `i`: one of the 28 addresses in its inode, then one of the 512 words of
      the block whose number is at byte 8 of the inode. */
  function PartBlock(disk: Disk, sb: SuperBlock, i: nat, j: nat): nat
    requires j < 540
  {
    var b, at := BlockAt(disk, sb.inodeStart + i / 16), 256 * (i % 16);
    if j < 28 then ValueAt(b, at + 32 + 8 * j) else ValueAt(BlockAt(disk, ValueAt(b, at + 8)), 8 * (j - 28))
  }

  /** Byte `k` of file `i` is byte `k % 4096` of the block of its part `k / 4096`. */
  lemma FileOnDisk(disk: Disk, sb: SuperBlock, i: nat, k: nat)
    requires k < CAPACITY_PER_INODE
    ensures FileByte(disk, sb, i, k) == BlockAt(disk, PartBlock(disk, sb, i, k / 4096))[k % 4096]
  {
    var j := k / BLOCK_SIZE;
    InodeOnDisk(disk, sb, i);
    if j >= N_DIRECT {
      var s, w := BlockAt(disk, InodeAt(disk, sb, i).indirect), j - N_DIRECT;
      WordIsValue(s[8 * w..8 * w + 8]);
      assert WordAt(s, w) == ValueAt(s, 8 * w);
    }
  }

  lemma {:induction false} Bit8IsDigit(b: nat, k: nat)
    ensures Bit8(b, k) <==> b / Bits.Pow2(k) % 2 == 1
  {
    if k > 0 {
      Bit8IsDigit(b / 2, k - 1);
      HalfThenPow(b, Bits.Pow2(k - 1));
    }
  }

  lemma HalfThenPow(b: nat, m: nat)
    requires m > 0
    ensures b / 2 / m == b / (2 * m)
  {
    var q := b / 2 / m;
    assert q * m <= b / 2 < q * m + m;
    assert q * (2 * m) == 2 * (q * m);
    assert q * (2 * m) <= b < q * (2 * m) + 2 * m;
    QuotientIs(b, 2 * m, q);
  }

  lemma QuotientIs(b: nat, m: nat, q: nat)
    requires m > 0 && q * m <= b < q * m + m
    ensures b / m == q
  {
    var p := b / m;
    assert p * m <= b < p * m + m;
    assert (p - q) * m == p * m - q * m;
    SmallMultiple(p - q, m);
  }

  /** Bit `g` of a bitmap is bit `g % 8`, the lowest first, of byte `g / 8` of its blocks together. */
  lemma BitOnDisk(disk: Disk, start: nat, g: nat)
    ensures var byte: nat := BlockAt(disk, start + g / 8 / 4096)[g / 8 % 4096];
      BitAt(disk, start, g) <==> byte / Bits.Pow2(g % 8) % 2 == 1
  {
    assert g / 8 / 4096 == g / BITS_PER_BLOCK && g / 8 % 4096 == g % BITS_PER_BLOCK / 8;
    assert g % BITS_PER_BLOCK % 8 == g % 8;
    Bit8IsDigit(BlockAt(disk, start + g / 8 / 4096)[g / 8 % 4096], g % 8);
  }
}
