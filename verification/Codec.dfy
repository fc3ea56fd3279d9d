/** Byte encodings of the on-disk structures: little-endian 64-bit words, disk inodes, the super
    block and directory entries. */
module Codec {

  const BLOCK_SIZE: nat := 4096
  const DINODE_SIZE: nat := 256
  const INODES_PER_BLOCK: nat := 16
  const N_DIRECT: nat := 28
  const N_INDIRECT: nat := 512
  const MAX_BLOCKS_PER_INODE: nat := 540
  const CAPACITY_PER_INODE: nat := 2_211_840
  const DIR_NAME_SIZE: nat := 24
  const DIR_ENTRY_SIZE: nat := 32
  const FS_MAGIC: nat := 0x102030

  type byte = b: int | 0 <= b < 256

  type u64 = x: int | 0 <= x < 0x1_0000_0000_0000_0000

  function Zeros(n: nat): (s: seq<byte>)
    ensures |s| == n && forall i :: 0 <= i < n ==> s[i] == 0
  {
    seq(n, i => 0)
  }

  type Block = b: seq<byte> | |b| == BLOCK_SIZE witness Zeros(BLOCK_SIZE)

  /** The blocks of a device. */
  type Disk = seq<Block>

  function ZeroBlock(): Block {
    Zeros(BLOCK_SIZE)
  }

  /** Replaces `|t|` elements of `s` from `off` on. */
  function Splice<T>(s: seq<T>, off: nat, t: seq<T>): (r: seq<T>)
    requires off + |t| <= |s|
    ensures |r| == |s|
    ensures r[off..off + |t|] == t
  {
    s[..off] + t + s[off + |t|..]
  }

  lemma SpliceAt<T>(s: seq<T>, off: nat, t: seq<T>, k: nat)
    requires off + |t| <= |s| && k < |s|
    ensures Splice(s, off, t)[k] == if off <= k < off + |t| then t[k - off] else s[k]
  {
  }

  /** Two splices side by side are one. */
  lemma SpliceTwice<T>(s: seq<T>, off: nat, t: seq<T>, u: seq<T>)
    requires off + |t| + |u| <= |s|
    ensures Splice(Splice(s, off, t), off + |t|, u) == Splice(s, off, t + u)
  {
    var r, q := Splice(Splice(s, off, t), off + |t|, u), Splice(s, off, t + u);
    forall k: nat | k < |s|
      ensures r[k] == q[k]
    {
      SpliceAt(Splice(s, off, t), off + |t|, u, k);
      SpliceAt(s, off, t, k);
      SpliceAt(s, off, t + u, k);
    }
  }

  /** A splice changes nothing outside its range. */
  lemma SpliceElsewhere<T>(s: seq<T>, off: nat, t: seq<T>, at: nat, len: nat)
    requires off + |t| <= |s| && at + len <= |s|
    requires at + len <= off || off + |t| <= at
    ensures Splice(s, off, t)[at..at + len] == s[at..at + len]
  {
  }

  // ----- words -----

  function Pow256(n: nat): nat {
    if n == 0 then 1 else 256 * Pow256(n - 1)
  }

  function EncodeLE(v: nat, n: nat): (r: seq<byte>)
    ensures |r| == n
  {
    if n == 0 then [] else [v % 256] + EncodeLE(v / 256, n - 1)
  }

  function DecodeLE(s: seq<byte>): (v: nat)
    ensures v < Pow256(|s|)
  {
    if s == [] then 0 else s[0] + 256 * DecodeLE(s[1..])
  }

  lemma {:induction false} DecodeEncodeLE(v: nat, n: nat)
    requires v < Pow256(n)
    ensures DecodeLE(EncodeLE(v, n)) == v
  {
    if n > 0 {
      DecodeEncodeLE(v / 256, n - 1);
      assert EncodeLE(v, n)[1..] == EncodeLE(v / 256, n - 1);
    }
  }

  lemma {:induction false} DecodeZeros(s: seq<byte>)
    requires forall i :: 0 <= i < |s| ==> s[i] == 0
    ensures DecodeLE(s) == 0
  {
    if s != [] {
      DecodeZeros(s[1..]);
    }
  }

  lemma Pow256Eight()
    ensures Pow256(8) == 0x1_0000_0000_0000_0000
  {
    assert Pow256(2) == 0x1_0000;
    assert Pow256(4) == 0x1_0000_0000;
    assert Pow256(6) == 0x1_0000_0000_0000;
  }

  function EncodeWord(v: u64): (r: seq<byte>)
    ensures |r| == 8
  {
    EncodeLE(v, 8)
  }

  function DecodeWord(s: seq<byte>): u64
    requires |s| == 8
  {
    Pow256Eight();
    DecodeLE(s)
  }

  lemma DecodeEncodeWord(v: u64)
    ensures DecodeWord(EncodeWord(v)) == v
  {
    Pow256Eight();
    DecodeEncodeLE(v, 8);
  }

  /** The little-endian value of the eight bytes from `at` on. */
  function ValueAt(s: seq<byte>, at: nat): nat
    requires at + 8 <= |s|
  {
    var low: nat := s[at] as int + 0x100 * (s[at + 1] as int) + 0x1_0000 * (s[at + 2] as int)
                    + 0x100_0000 * (s[at + 3] as int);
    var high: nat := s[at + 4] as int + 0x100 * (s[at + 5] as int) + 0x1_0000 * (s[at + 6] as int)
                     + 0x100_0000 * (s[at + 7] as int);
    low + 0x1_0000_0000 * high
  }

  lemma {:induction false} FirstBytes(s: seq<byte>)
    requires |s| >= 4
    ensures DecodeLE(s) == s[0] + 0x100 * s[1] + 0x1_0000 * s[2] + 0x100_0000 * s[3] + 0x1_0000_0000 * DecodeLE(s[4..])
  {
    assert s[1..][1..] == s[2..] && s[2..][1..] == s[3..] && s[3..][1..] == s[4..];
    assert DecodeLE(s[1..]) == s[1] + 256 * DecodeLE(s[2..]);
    assert DecodeLE(s[2..]) == s[2] + 256 * DecodeLE(s[3..]);
    assert DecodeLE(s[3..]) == s[3] + 256 * DecodeLE(s[4..]);
  }

  /** A word is its bytes, the least first. */
  lemma WordIsValue(s: seq<byte>)
    requires |s| == 8
    ensures DecodeWord(s) == ValueAt(s, 0)
  {
    FirstBytes(s);
    FirstBytes(s[4..]);
    assert s[4..][4..] == [];
  }

  function EncodeWords(ws: seq<u64>): (r: seq<byte>)
    ensures |r| == 8 * |ws|
  {
    if ws == [] then [] else EncodeWord(ws[0]) + EncodeWords(ws[1..])
  }

  function DecodeWords(s: seq<byte>, n: nat): (r: seq<u64>)
    requires |s| == 8 * n
    ensures |r| == n
  {
    if n == 0 then [] else [DecodeWord(s[..8])] + DecodeWords(s[8..], n - 1)
  }

  lemma {:induction false} WordsAreValues(s: seq<byte>, n: nat, i: nat)
    requires |s| == 8 * n && i < n
    ensures DecodeWords(s, n)[i] == ValueAt(s, 8 * i)
  {
    if i == 0 {
      WordIsValue(s[..8]);
    } else {
      WordsAreValues(s[8..], n - 1, i - 1);
      var t, at := s[8..], 8 * (i - 1);
      assert ValueAt(t, at) == ValueAt(s, 8 * i);
    }
  }

  lemma {:induction false} DecodeEncodeWords(ws: seq<u64>)
    ensures DecodeWords(EncodeWords(ws), |ws|) == ws
  {
    if ws != [] {
      DecodeEncodeWords(ws[1..]);
      DecodeEncodeWord(ws[0]);
      assert EncodeWords(ws)[..8] == EncodeWord(ws[0]);
      assert EncodeWords(ws)[8..] == EncodeWords(ws[1..]);
    }
  }

  /** Decoding zero bytes gives zero words. */
  lemma {:induction false} DecodeZeroWords(s: seq<byte>, n: nat)
    requires |s| == 8 * n && forall i :: 0 <= i < |s| ==> s[i] == 0
    ensures forall i :: 0 <= i < n ==> DecodeWords(s, n)[i] == 0
  {
    if n > 0 {
      DecodeZeros(s[..8]);
      DecodeZeroWords(s[8..], n - 1);
    }
  }

  /** Word `i` of a block read as an array of 64-bit words. */
  function WordAt(b: Block, i: nat): u64
    requires i < N_INDIRECT
  {
    DecodeWord(b[8 * i..8 * i + 8])
  }

  function PutWord(b: Block, i: nat, v: u64): Block
    requires i < N_INDIRECT
  {
    Splice(b, 8 * i, EncodeWord(v))
  }

  lemma PutWordAt(b: Block, i: nat, v: u64, j: nat)
    requires i < N_INDIRECT && j < N_INDIRECT
    ensures WordAt(PutWord(b, i, v), j) == if i == j then v else WordAt(b, j)
  {
    DecodeEncodeWord(v);
    if i != j {
      SpliceElsewhere(b, 8 * i, EncodeWord(v), 8 * j, 8);
    }
  }

  // ----- disk inodes -----

  datatype InodeType = Invalid | File | Directory

  datatype DInode = DInode(kind: InodeType, indirect: u64, links: u64, size: u64, addresses: seq<u64>)

  predicate ValidDInode(d: DInode) {
    |d.addresses| == N_DIRECT
  }

  type DiskInode = d: DInode | ValidDInode(d) witness FreshInode(Invalid)

  /** `DInode::initialize`. */
  function FreshInode(kind: InodeType): (d: DInode)
    ensures ValidDInode(d)
  {
    DInode(kind, 0, 0, 0, seq(N_DIRECT, i => 0))
  }

  function TagOf(kind: InodeType): u64 {
    match kind
    case Invalid => 0
    case File => 1
    case Directory => 2
  }

  function KindOf(tag: byte): InodeType {
    if tag == 1 then File else if tag == 2 then Directory else Invalid
  }

  function EncodeInode(d: DiskInode): (r: seq<byte>)
    ensures |r| == DINODE_SIZE
  {
    EncodeWords([TagOf(d.kind), d.indirect, d.links, d.size] + d.addresses)
  }

  function DecodeInode(s: seq<byte>): DiskInode
    requires |s| == DINODE_SIZE
  {
    var w := DecodeWords(s, 32);
    DInode(KindOf(s[0]), w[1], w[2], w[3], w[4..])
  }

  lemma DecodeEncodeInode(d: DiskInode)
    ensures DecodeInode(EncodeInode(d)) == d
  {
    var w := [TagOf(d.kind), d.indirect, d.links, d.size] + d.addresses;
    DecodeEncodeWords(w);
    assert EncodeInode(d)[0] == EncodeWord(w[0])[0] == TagOf(d.kind);
    hide EncodeWords, DecodeWords, EncodeLE;
    assert w[4..] == d.addresses;
  }

  /** Where the fields of an inode are. */
  lemma InodeFields(s: seq<byte>)
    requires |s| == DINODE_SIZE
    ensures var d := DecodeInode(s);
      && (d.kind == File <==> s[0] == 1) && (d.kind == Directory <==> s[0] == 2)
      && d.indirect == ValueAt(s, 8) && d.links == ValueAt(s, 16) && d.size == ValueAt(s, 24)
      && forall j: nat :: j < N_DIRECT ==> d.addresses[j] == ValueAt(s, 32 + 8 * j)
  {
    forall i: nat | i < 32
      ensures DecodeWords(s, 32)[i] == ValueAt(s, 8 * i)
    {
      WordsAreValues(s, 32, i);
    }
    hide DecodeWords, ValueAt;
    var w := DecodeWords(s, 32);
    assert w[1] == ValueAt(s, 8 * 1) && w[2] == ValueAt(s, 8 * 2) && w[3] == ValueAt(s, 8 * 3);
    forall j: nat | j < N_DIRECT
      ensures DecodeInode(s).addresses[j] == ValueAt(s, 32 + 8 * j)
    {
      assert w[4..][j] == w[4 + j] == ValueAt(s, 8 * (4 + j));
    }
  }

  lemma DecodeZeroInode(s: seq<byte>)
    requires |s| == DINODE_SIZE && forall i :: 0 <= i < |s| ==> s[i] == 0
    ensures DecodeInode(s) == FreshInode(Invalid)
  {
    DecodeZeroWords(s, 32);
    assert DecodeInode(s).addresses == FreshInode(Invalid).addresses;
  }

  /** The inode in slot `k` of an inode block. */
  function GetSlot(b: Block, k: nat): DiskInode
    requires k < INODES_PER_BLOCK
  {
    DecodeInode(b[k * DINODE_SIZE..k * DINODE_SIZE + DINODE_SIZE])
  }

  function PutSlot(b: Block, k: nat, d: DiskInode): Block
    requires k < INODES_PER_BLOCK
  {
    Splice(b, k * DINODE_SIZE, EncodeInode(d))
  }

  lemma PutSlotGet(b: Block, k: nat, d: DiskInode, j: nat)
    requires k < INODES_PER_BLOCK && j < INODES_PER_BLOCK
    ensures GetSlot(PutSlot(b, k, d), j) == if j == k then d else GetSlot(b, j)
  {
    DecodeEncodeInode(d);
    if j != k {
      SpliceElsewhere(b, k * DINODE_SIZE, EncodeInode(d), j * DINODE_SIZE, DINODE_SIZE);
    }
  }

  // ----- super block -----

  datatype SuperBlock = SuperBlock(magic: u64, blocks: u64, inodeBmapStart: u64, inodeStart: u64,
                                   inodeBlocks: u64, dataBmapStart: u64, dataStart: u64, dataBlocks: u64)

  function EncodeSuper(sb: SuperBlock): (r: seq<byte>)
    ensures |r| == 64
  {
    EncodeWords([sb.magic, sb.blocks, sb.inodeBmapStart, sb.inodeStart, sb.inodeBlocks,
                 sb.dataBmapStart, sb.dataStart, sb.dataBlocks])
  }

  /** The block that holds the super block. */
  const SUPER_BLOCK_LOC: nat := 1

  function GetSuper(b: Block): SuperBlock {
    var w := DecodeWords(b[..64], 8);
    SuperBlock(w[0], w[1], w[2], w[3], w[4], w[5], w[6], w[7])
  }

  function PutSuper(b: Block, sb: SuperBlock): Block {
    Splice(b, 0, EncodeSuper(sb))
  }

  lemma PutSuperGet(b: Block, sb: SuperBlock)
    ensures GetSuper(PutSuper(b, sb)) == sb
  {
    assert PutSuper(b, sb)[..64] == EncodeSuper(sb);
    DecodeEncodeWords([sb.magic, sb.blocks, sb.inodeBmapStart, sb.inodeStart, sb.inodeBlocks,
                       sb.dataBmapStart, sb.dataStart, sb.dataBlocks]);
  }

  /** Where the fields of the super block are. */
  lemma SuperFields(b: Block)
    ensures var sb := GetSuper(b);
      && sb.magic == ValueAt(b, 0) && sb.blocks == ValueAt(b, 8) && sb.inodeBmapStart == ValueAt(b, 16)
      && sb.inodeStart == ValueAt(b, 24) && sb.inodeBlocks == ValueAt(b, 32) && sb.dataBmapStart == ValueAt(b, 40)
      && sb.dataStart == ValueAt(b, 48) && sb.dataBlocks == ValueAt(b, 56)
  {
    var s := b[..64];
    forall i: nat | i < 8
      ensures DecodeWords(s, 8)[i] == ValueAt(b, 8 * i)
    {
      WordsAreValues(s, 8, i);
    }
    hide DecodeWords, ValueAt;
    var w := DecodeWords(s, 8);
    assert w[0] == ValueAt(b, 8 * 0) && w[1] == ValueAt(b, 8 * 1) && w[2] == ValueAt(b, 8 * 2);
    assert w[3] == ValueAt(b, 8 * 3) && w[4] == ValueAt(b, 8 * 4) && w[5] == ValueAt(b, 8 * 5);
    assert w[6] == ValueAt(b, 8 * 6) && w[7] == ValueAt(b, 8 * 7);
  }

  // ----- directory entries -----

  datatype DirEntry = DirEntry(inum: u64, name: seq<byte>)

  /** A name the entry format can hold: at most 24 bytes, none of them NUL. */
  predicate GoodName(name: seq<byte>) {
    |name| <= DIR_NAME_SIZE && forall i :: 0 <= i < |name| ==> name[i] != 0
  }

  function EncodeEntry(e: DirEntry): (r: seq<byte>)
    requires |e.name| <= DIR_NAME_SIZE
    ensures |r| == DIR_ENTRY_SIZE
  {
    EncodeWord(e.inum) + e.name + Zeros(DIR_NAME_SIZE - |e.name|)
  }

  /** Length of the name field up to the first NUL. */
  function NameLength(s: seq<byte>): (n: nat)
    ensures n <= |s|
    ensures forall i :: 0 <= i < n ==> s[i] != 0
    ensures n < |s| ==> s[n] == 0
  {
    if s == [] || s[0] == 0 then 0 else 1 + NameLength(s[1..])
  }

  function DecodeEntry(s: seq<byte>): DirEntry
    requires |s| == DIR_ENTRY_SIZE
  {
    var field := s[8..];
    DirEntry(DecodeWord(s[..8]), field[..NameLength(field)])
  }

  /** What an entry keeps of a name: the bytes before the first NUL. */
  function CutName(name: seq<byte>): (n: seq<byte>)
    ensures |n| <= |name| && forall i :: 0 <= i < |n| ==> n[i] != 0
    ensures n == name <==> forall i :: 0 <= i < |name| ==> name[i] != 0
  {
    name[..NameLength(name)]
  }

  /** Where the fields of an entry are: the number, then the name up to the first NUL. */
  lemma EntryFields(s: seq<byte>)
    requires |s| == DIR_ENTRY_SIZE
    ensures var e := DecodeEntry(s);
      && e.inum == ValueAt(s, 0) && |e.name| <= DIR_NAME_SIZE
      && (forall i: nat :: i < |e.name| ==> e.name[i] == s[8 + i] != 0)
      && (|e.name| < DIR_NAME_SIZE ==> s[8 + |e.name|] == 0)
  {
    WordIsValue(s[..8]);
  }

  /** An entry survives the round trip with its name cut; exactly the names without NUL survive. */
  lemma DecodeEncodeEntry(e: DirEntry)
    requires |e.name| <= DIR_NAME_SIZE
    ensures DecodeEntry(EncodeEntry(e)) == DirEntry(e.inum, CutName(e.name))
    ensures DecodeEntry(EncodeEntry(e)) == e <==> GoodName(e.name)
  {
    var s := EncodeEntry(e);
    assert s[..8] == EncodeWord(e.inum);
    DecodeEncodeWord(e.inum);
    var field := s[8..];
    var n, m := NameLength(field), NameLength(e.name);
    assert field == e.name + Zeros(DIR_NAME_SIZE - |e.name|);
    assert n < |e.name| ==> field[n] == e.name[n];
    assert |e.name| < DIR_NAME_SIZE ==> field[|e.name|] == 0;
    assert m < |e.name| ==> field[m] == e.name[m];
    assert n == m;
    assert field[..n] == e.name[..n];
  }
}
