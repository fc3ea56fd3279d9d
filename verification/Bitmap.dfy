/** Bitmap blocks: `BitmapBlock::allocate` and `free`, and a run of such blocks as one bitmap. */
module Bitmap {
  import opened Bits
  import opened Common
  import opened Codec

  const BITS_PER_BLOCK: nat := 32768

  /** Bit `k` of a byte: `byte & (1 << k) != 0`. */
  predicate Bit8(b: nat, k: nat) {
    if k == 0 then b % 2 == 1 else Bit8(b / 2, k - 1)
  }

  /** `byte | (1 << k)`. */
  function Set8(b: nat, k: nat): nat {
    if k == 0 then b - b % 2 + 1 else b % 2 + 2 * Set8(b / 2, k - 1)
  }

  /** `byte & !(1 << k)`. */
  function Clear8(b: nat, k: nat): (r: nat)
    ensures r <= b
  {
    if k == 0 then b - b % 2 else b % 2 + 2 * Clear8(b / 2, k - 1)
  }

  /** Setting a bit above the lowest sets the bit below it of the rest. */
  lemma Set8Step(b: nat, k: nat)
    ensures k > 0 ==> Set8(b, k) % 2 == b % 2 && Set8(b, k) / 2 == Set8(b / 2, k - 1)
    ensures Set8(b, 0) % 2 == 1 && Set8(b, 0) / 2 == b / 2
  {
    if k > 0 {
      Halves(b % 2, Set8(b / 2, k - 1));
    }
    Halves(1, b / 2);
    assert b == b % 2 + 2 * (b / 2);
  }

  lemma Halves(low: nat, rest: nat)
    requires low < 2
    ensures (low + 2 * rest) % 2 == low && (low + 2 * rest) / 2 == rest
  {
  }

  lemma {:induction false} Set8Bits(b: nat, k: nat, n: nat)
    requires b < Pow2(n) && k < n
    ensures Set8(b, k) < Pow2(n)
    ensures forall j: nat :: Bit8(Set8(b, k), j) <==> j == k || Bit8(b, j)
  {
    Set8Step(b, k);
    assert Pow2(n) == 2 * Pow2(n - 1);
    if k > 0 {
      Set8Bits(b / 2, k - 1, n - 1);
    }
    hide Set8;
  }

  lemma {:induction false} Clear8Bits(b: nat, k: nat)
    ensures forall j: nat :: Bit8(Clear8(b, k), j) <==> j != k && Bit8(b, j)
  {
    if k > 0 {
      Clear8Bits(b / 2, k - 1);
      forall j: nat
        ensures Bit8(Clear8(b, k), j) <==> j != k && Bit8(b, j)
      {
        assert Clear8(b, k) / 2 == Clear8(b / 2, k - 1);
      }
    } else {
      assert Clear8(b, 0) / 2 == b / 2;
    }
  }

  lemma {:induction false} FullHasAll(b: nat, n: nat, j: nat)
    requires b == Pow2(n) - 1 && j < n
    ensures Bit8(b, j)
  {
    assert Pow2(n) == 2 * Pow2(n - 1);
    assert b == 2 * (Pow2(n - 1) - 1) + 1;
    if j > 0 {
      FullHasAll(b / 2, n - 1, j - 1);
    }
  }

  lemma {:induction false} NotFullMisses(b: nat, n: nat) returns (j: nat)
    requires b < Pow2(n) - 1
    ensures j < n && !Bit8(b, j)
  {
    if b % 2 == 0 {
      j := 0;
    } else {
      j := NotFullMisses(b / 2, n - 1);
      j := j + 1;
    }
  }

  /** Only the byte 0xff has all its bits set. */
  lemma ByteIsFull(b: byte)
    ensures b == 0xff <==> forall j: nat :: j < 8 ==> Bit8(b, j)
  {
    assert Pow2(3) == 8 && Pow2(5) == 32 && Pow2(8) == 256;
    if b == 0xff {
      forall j: nat | j < 8
        ensures Bit8(b, j)
      {
        FullHasAll(b, 8, j);
      }
    } else {
      var j := NotFullMisses(b, 8);
    }
  }

  // ----- one block -----

  predicate Bit(b: Block, k: nat)
    requires k < BITS_PER_BLOCK
  {
    Bit8(b[k / 8], k % 8)
  }

  lemma SetByteIsByte(b: byte, k: nat)
    requires k < 8
    ensures Set8(b, k) < 256
  {
    assert Pow2(3) == 8 && Pow2(5) == 32 && Pow2(8) == 256;
    Set8Bits(b, k, 8);
  }

  function SetBit(b: Block, k: nat): Block
    requires k < BITS_PER_BLOCK
  {
    SetByteIsByte(b[k / 8], k % 8);
    b[k / 8 := Set8(b[k / 8], k % 8)]
  }

  function ClearBit(b: Block, k: nat): Block
    requires k < BITS_PER_BLOCK
  {
    b[k / 8 := Clear8(b[k / 8], k % 8)]
  }

  /** Setting one bit sets exactly that bit. */
  lemma SetBitExact(b: Block, k: nat, j: nat)
    requires k < BITS_PER_BLOCK && j < BITS_PER_BLOCK
    ensures Bit(SetBit(b, k), j) <==> j == k || Bit(b, j)
  {
    assert Pow2(3) == 8 && Pow2(5) == 32 && Pow2(8) == 256;
    Set8Bits(b[k / 8], k % 8, 8);
  }

  lemma ClearBitExact(b: Block, k: nat, j: nat)
    requires k < BITS_PER_BLOCK && j < BITS_PER_BLOCK
    ensures Bit(ClearBit(b, k), j) <==> j != k && Bit(b, j)
  {
    Clear8Bits(b[k / 8], k % 8);
  }

  /** `BitmapBlock::allocate`: finds the least clear bit and sets it. */
  method Allocate(inner: Block) returns (r: Option<nat>, b: Block)
    ensures r == None ==> b == inner && forall j: nat :: j < BITS_PER_BLOCK ==> Bit(inner, j)
    ensures r.Some? ==> r.value < BITS_PER_BLOCK && !Bit(inner, r.value) && b == SetBit(inner, r.value)
    ensures r.Some? ==> forall j: nat :: j < r.value ==> Bit(inner, j)
  {
    b := inner;
    var i := 0;
    while i < BLOCK_SIZE
      invariant i <= BLOCK_SIZE
      invariant forall j: nat :: j < 8 * i ==> Bit(inner, j)
    {
      ByteIsFull(inner[i]);
      if inner[i] != 0xff {
        var offset := 0;
        while offset < 8
          invariant offset <= 8
          invariant forall j: nat :: j < offset ==> Bit8(inner[i], j)
        {
          if !Bit8(inner[i], offset) {
            b := SetBit(inner, i * 8 + offset);
            r := Some(i * 8 + offset);
            return;
          }
          offset := offset + 1;
        }
      }
      assert forall j: nat {:trigger Bit(inner, j)} :: 8 * i <= j < 8 * i + 8 ==> j / 8 == i && Bit8(inner[i], j % 8);
      i := i + 1;
    }
    r := None;
  }

  /** `BitmapBlock::free`: the bit must be set. No other bit changes. */
  method Free(inner: Block, idx: nat) returns (b: Block)
    requires idx < BITS_PER_BLOCK && Bit(inner, idx)
    ensures forall j: nat :: j < BITS_PER_BLOCK ==> (Bit(b, j) <==> j != idx && Bit(inner, j))
  {
    b := ClearBit(inner, idx);
    forall j: nat | j < BITS_PER_BLOCK
      ensures Bit(b, j) <==> j != idx && Bit(inner, j)
    {
      ClearBitExact(inner, idx, j);
    }
  }
}
