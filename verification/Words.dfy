/** Machine integers and the little-endian word views the kernel and the file
    system take of raw bytes. */
module Words {
  datatype Option<+T> = None | Some(value: T)

  const TWO32: int := 0x1_0000_0000
  const TWO64: int := 0x1_0000_0000_0000_0000

  type byte = x: int | 0 <= x < 0x100
  type u32 = x: int | 0 <= x < 0x1_0000_0000
  type u64 = x: int | 0 <= x < 0x1_0000_0000_0000_0000

  /** The k-th u32 of a byte array. */
  function U32At(b: seq<byte>, k: nat): u32
    requires 4 * k + 4 <= |b|
  {
    var b0: int, b1: int, b2: int, b3: int := b[4 * k], b[4 * k + 1], b[4 * k + 2], b[4 * k + 3];
    b0 + 0x100 * b1 + 0x1_0000 * b2 + 0x100_0000 * b3
  }

  function Byte32(v: u32, i: nat): byte
    requires i < 4
  {
    if i == 0 then v % 0x100
    else if i == 1 then v / 0x100 % 0x100
    else if i == 2 then v / 0x1_0000 % 0x100
    else v / 0x100_0000
  }

  /** b with the u32 slots k, k+1, ... overwritten by ws. */
  function PutU32s(b: seq<byte>, k: nat, ws: seq<u32>): (r: seq<byte>)
    requires 4 * (k + |ws|) <= |b|
    ensures |r| == |b|
  {
    seq(|b|, i requires 0 <= i < |b| =>
      if 4 * k <= i < 4 * (k + |ws|) then Byte32(ws[i / 4 - k], i % 4) else b[i])
  }

  lemma BytesOfU32(v: u32)
    ensures v == Byte32(v, 0) + 0x100 * Byte32(v, 1) + 0x1_0000 * Byte32(v, 2) + 0x100_0000 * Byte32(v, 3)
  {
    var q1 := v / 0x100;
    var q2 := q1 / 0x100;
    TwoBytesUp(v);
    TwoBytesUp(q1);
    assert v == 0x100 * q1 + Byte32(v, 0) && q1 == 0x100 * q2 + Byte32(v, 1);
    assert q2 == 0x100 * Byte32(v, 3) + Byte32(v, 2);
  }

  lemma TwoBytesUp(v: nat)
    ensures v / 0x1_0000 == v / 0x100 / 0x100 && v / 0x100_0000 == v / 0x100 / 0x1_0000
  {
  }

  /** Writing u32 slots changes exactly those slots. */
  lemma PutU32sAt(b: seq<byte>, k: nat, ws: seq<u32>, j: nat)
    requires 4 * (k + |ws|) <= |b| && 4 * j + 4 <= |b|
    ensures U32At(PutU32s(b, k, ws), j) == if k <= j < k + |ws| then ws[j - k] else U32At(b, j)
  {
    if k <= j < k + |ws| {
      BytesOfU32(ws[j - k]);
    }
  }

  /** The k-th u64 of a byte array. */
  function U64At(b: seq<byte>, k: nat): u64
    requires 8 * k + 8 <= |b|
  {
    U32At(b, 2 * k) + TWO32 * U32At(b, 2 * k + 1)
  }

  function PutU64(b: seq<byte>, k: nat, v: u64): (r: seq<byte>)
    requires 8 * k + 8 <= |b|
    ensures |r| == |b|
  {
    PutU32s(b, 2 * k, [v % TWO32, v / TWO32])
  }

  lemma PutU64At(b: seq<byte>, k: nat, v: u64, j: nat)
    requires 8 * k + 8 <= |b| && 8 * j + 8 <= |b|
    ensures U64At(PutU64(b, k, v), j) == if j == k then v else U64At(b, j)
  {
    PutU32sAt(b, 2 * k, [v % TWO32, v / TWO32], 2 * j);
    PutU32sAt(b, 2 * k, [v % TWO32, v / TWO32], 2 * j + 1);
  }

  /** Bit j of w. */
  predicate Bit(w: nat, j: nat)
  {
    if j == 0 then w % 2 == 1 else Bit(w / 2, j - 1)
  }

  /** `1 << j` */
  function Pow2(j: nat): (r: nat)
    ensures r > 0
  {
    if j == 0 then 1 else 2 * Pow2(j - 1)
  }

  lemma {:induction false} BitBound(w: nat, j: nat)
    requires Bit(w, j)
    ensures w >= Pow2(j)
  {
    if j > 0 {
      BitBound(w / 2, j - 1);
    }
  }

  /** Adding `1 << j` to a word whose bit j is clear sets that bit and no other
      (this is `|=`), and keeps the word within any width that had room for bit j. */
  lemma {:induction false} SetBit(w: nat, j: nat, i: nat)
    requires !Bit(w, j)
    ensures Bit(w + Pow2(j), i) <==> i == j || Bit(w, i)
  {
    if j > 0 {
      assert (w + Pow2(j)) / 2 == w / 2 + Pow2(j - 1);
      if i > 0 {
        SetBit(w / 2, j - 1, i - 1);
      }
    } else {
      assert (w + 1) / 2 == w / 2;
    }
  }

  /** Subtracting `1 << j` from a word whose bit j is set clears that bit and no other. */
  lemma {:induction false} ClearBit(w: nat, j: nat, i: nat)
    requires Bit(w, j)
    ensures w >= Pow2(j)
    ensures Bit(w - Pow2(j), i) <==> i != j && Bit(w, i)
    decreases j
  {
    BitBound(w, j);
    if j > 0 {
      LessDouble(w, Pow2(j - 1));
      if i > 0 {
        ClearBit(w / 2, j - 1, i - 1);
      }
    } else {
      assert (w - 1) / 2 == w / 2;
    }
  }

  lemma LessDouble(w: nat, p: nat)
    requires w >= 2 * p
    ensures (w - 2 * p) / 2 == w / 2 - p && (w - 2 * p) % 2 == w % 2
  {
  }

  lemma {:induction false} SetBitFits(w: nat, j: nat, n: nat)
    requires !Bit(w, j) && j < n && w < Pow2(n)
    ensures w + Pow2(j) < Pow2(n)
  {
    var h := w / 2;
    assert Pow2(n) == 2 * Pow2(n - 1) && h < Pow2(n - 1);
    if j > 0 {
      SetBitFits(h, j - 1, n - 1);
      assert Pow2(j) == 2 * Pow2(j - 1);
      assert w <= 2 * h + 1;
    } else {
      assert w == 2 * h;
    }
  }

  /** `trailing_ones` */
  function TrailingOnes(w: nat): nat
  {
    if w % 2 == 0 then 0 else 1 + TrailingOnes(w / 2)
  }

  /** `trailing_ones` is the position of the least clear bit. */
  lemma {:induction false} TrailingOnesLeast(w: nat)
    ensures !Bit(w, TrailingOnes(w))
    ensures forall i: nat :: i < TrailingOnes(w) ==> Bit(w, i)
  {
    if w % 2 == 1 {
      TrailingOnesLeast(w / 2);
      forall i: nat | i < TrailingOnes(w)
        ensures Bit(w, i)
      {
        assert i == 0 || Bit(w / 2, i - 1);
      }
    }
  }

  lemma {:induction false} TrailingOnesBelow(w: nat, n: nat)
    requires w < Pow2(n) - 1
    ensures TrailingOnes(w) < n
  {
    if n > 0 && w % 2 == 1 {
      TrailingOnesBelow(w / 2, n - 1);
    }
  }

  /** A word with every bit set. */
  lemma {:induction false} AllOnes(n: nat, i: nat)
    requires i < n
    ensures Bit(Pow2(n) - 1, i)
  {
    if i > 0 {
      assert (Pow2(n) - 1) / 2 == Pow2(n - 1) - 1;
      AllOnes(n - 1, i - 1);
    }
  }

  lemma Pow2At64()
    ensures Pow2(64) == TWO64
  {
    hide Pow2;
    Pow2At16();
    Pow2Split(16, 16);
    Pow2Split(32, 32);
  }

  lemma Pow2At16()
    ensures Pow2(16) == 0x1_0000
  {
    Pow2Split(4, 4);
    Pow2Split(8, 8);
    assert Pow2(4) == 16;
  }

  lemma {:induction false} Pow2Split(a: nat, b: nat)
    ensures Pow2(a + b) == Pow2(a) * Pow2(b)
  {
    if a > 0 {
      Pow2Split(a - 1, b);
    }
  }

  lemma {:induction false} ZeroBits(i: nat)
    ensures !Bit(0, i)
  {
    if i > 0 {
      ZeroBits(i - 1);
    }
  }

  /** Bits of a number in two parts, the lower one k bits wide. */
  lemma {:induction false} BitOfParts(x: nat, y: nat, k: nat, j: nat)
    requires x < Pow2(k)
    ensures Bit(x + Pow2(k) * y, j) <==> if j < k then Bit(x, j) else Bit(y, j - k)
    decreases k
  {
    if k > 0 {
      var p := Pow2(k - 1);
      assert Pow2(k) * y == 2 * (p * y);
      if j > 0 {
        assert (x + 2 * (p * y)) / 2 == x / 2 + p * y;
        BitOfParts(x / 2, y, k - 1, j - 1);
      }
    }
  }

  lemma {:induction false} Pow2Of8And32()
    ensures Pow2(8) == 0x100 && Pow2(32) == TWO32
  {
    assert Pow2(8) == 256;
    assert Pow2(16) == 256 * Pow2(8);
    assert Pow2(24) == 256 * Pow2(16);
    assert Pow2(32) == 256 * Pow2(24);
  }

  /** A word's bits are those of its bytes, the lowest byte first. */
  lemma WordBits(b: seq<byte>, k: nat, j: nat)
    requires 4 * k + 4 <= |b| && j < 32
    ensures Bit(U32At(b, k), j) <==> Bit(b[4 * k + j / 8], j % 8)
  {
    hide Bit, Pow2;
    Pow2Of8And32();
    var b0: int, b1: int, b2: int, b3: int := b[4 * k], b[4 * k + 1], b[4 * k + 2], b[4 * k + 3];
    assert U32At(b, k) == b0 + 0x100 * (b1 + 0x100 * (b2 + 0x100 * b3));
    BitOfParts(b0, b1 + 0x100 * (b2 + 0x100 * b3), 8, j);
    if j >= 8 {
      BitOfParts(b1, b2 + 0x100 * b3, 8, j - 8);
      if j >= 16 {
        BitOfParts(b2, b3, 8, j - 16);
      }
    }
  }

  lemma LongWordBits(b: seq<byte>, k: nat, j: nat)
    requires 8 * k + 8 <= |b| && j < 64
    ensures Bit(U64At(b, k), j) <==> Bit(b[8 * k + j / 8], j % 8)
  {
    hide Bit, Pow2, U32At;
    Pow2Of8And32();
    BitOfParts(U32At(b, 2 * k), U32At(b, 2 * k + 1), 32, j);
    if j < 32 {
      WordBits(b, 2 * k, j);
    } else {
      WordBits(b, 2 * k + 1, j - 32);
    }
  }
}
