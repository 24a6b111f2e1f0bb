/** Bytes and 32-bit registers as lists of bits, least significant bit first. */
module Words {

  type Byte = b: seq<bool> | |b| == 8 witness seq(8, _ => false)
  type Word = w: seq<bool> | |w| == 32 witness seq(32, _ => false)

  const ALL_ONES: Word := seq(32, _ => true)
  const ZERO_BYTE: Byte := seq(8, _ => false)
  const ZERO: Word := seq(32, _ => false)

  function Shl(w: Word, c: nat): Word {
    seq(32, j requires 0 <= j < 32 => j >= c && w[j - c])
  }

  function Shr(w: Word, c: nat): Word {
    seq(32, j requires 0 <= j < 32 => j + c < 32 && w[j + c])
  }

  function And(v: Word, w: Word): Word {
    seq(32, j requires 0 <= j < 32 => v[j] && w[j])
  }

  function Or(v: Word, w: Word): Word {
    seq(32, j requires 0 <= j < 32 => v[j] || w[j])
  }

  /** btr: reset one bit. */
  function Reset(w: Word, j: nat): Word
    requires j < 32
  {
    w[j := false]
  }

  /** movzx: the low byte alone. */
  function LowByte(w: Word): Word { w[..8] + seq(24, _ => false) }

  /** mov BL, AL: the low byte replaced by another register's. */
  function SetLowByte(w: Word, from: Word): Word { from[..8] + w[8..] }

  /** mov EBX, 1; shl EBX, CL: the mask of one bit. */
  function Mask(e: nat): Word
    requires e < 32
  {
    Shl([true] + seq(31, _ => false), e)
  }

  /** and-ing with a one-bit mask tests that bit. */
  lemma MaskTests(w: Word, e: nat)
    requires e < 32
    ensures IsZero(And(w, Mask(e))) <==> !w[e]
  {
    assert And(w, Mask(e))[e] == w[e];
    assert forall j | 0 <= j < 32 && j != e :: !Mask(e)[j];
  }

  lemma OneWord()
    ensures Mask(0)[..1] == [true]
  {
  }

  predicate IsZero(w: Word) { forall j | 0 <= j < 32 :: !w[j] }

  /** The little-endian register loaded from four bytes. */
  function FromBytes(a: Byte, b: Byte, c: Byte, d: Byte): Word { a + b + c + d }

  /** The code's byte swap: three rounds of shifting the next low byte in. */
  function ByteSwap(a: Word): Word {
    var b0 := LowByte(a);
    var b1 := SetLowByte(Shl(b0, 8), Shr(a, 8));
    var b2 := SetLowByte(Shl(b1, 8), Shr(Shr(a, 8), 8));
    SetLowByte(Shl(b2, 8), Shr(Shr(Shr(a, 8), 8), 8))
  }

  /** The rounds do reverse the four bytes. */
  lemma ByteSwapBits(a: Word)
    ensures ByteSwap(a) == a[24..] + a[16..24] + a[8..16] + a[..8]
  {
    var b0 := LowByte(a);
    var b1 := SetLowByte(Shl(b0, 8), Shr(a, 8));
    assert b1 == a[8..16] + a[..8] + seq(16, _ => false);
    var b2 := SetLowByte(Shl(b1, 8), Shr(Shr(a, 8), 8));
    assert b2 == a[16..24] + a[8..16] + a[..8] + seq(8, _ => false);
  }

  /** The swapped register reads the four bytes as one stream, most significant bit first. */
  lemma SwappedBit(a: Byte, b: Byte, c: Byte, d: Byte, j: nat)
    requires j < 32
    ensures ByteSwap(FromBytes(a, b, c, d))[j] == [d, c, b, a][j / 8][j % 8]
  {
    ByteSwapBits(FromBytes(a, b, c, d));
    assert ByteSwap(FromBytes(a, b, c, d)) == d + c + b + a;
  }

  /** A register falls into the four bytes it is stored as. */
  lemma FourBytes(w: Word)
    ensures FromBytes(w[..8], w[8..16], w[16..24], w[24..]) == w
  {
  }

  /** r is w with n bits reset, `first` bits below the top one. */
  predicate RunReset(w: Word, first: nat, n: nat, r: Word) {
    forall p: nat | p < 32 :: r[p] == (w[p] && !(32 - first - n <= p < 32 - first))
  }

  /** The loop that resets them one by one. */
  method ResetRun(w: Word, first: nat, n: nat) returns (r: Word)
    requires first + n <= 32
    ensures RunReset(w, first, n, r)
  {
    r := w;
    var edx := first;
    while edx < n + first
      invariant first <= edx <= n + first
      invariant forall p: nat | p < 32 :: r[p] == (w[p] && !(32 - edx <= p < 32 - first))
    {
      r := Reset(r, 31 - edx);
      edx := edx + 1;
    }
  }

  /** r is w with the low level+1 bits of the value, `first` bits below the top one. */
  predicate Merged(w: Word, first: nat, level: nat, value: Word, r: Word)
    requires first + level < 32
  {
    forall p: nat | p < 32 ::
      r[p] == if 31 - level - first <= p <= 31 - first then value[p + first + level - 31] else w[p]
  }

  /** Resetting a run of bits and or-ing the shifted value in writes the value's low bits there. */
  lemma MergedBits(w: Word, first: nat, level: nat, value: Word, r: Word)
    requires first + level < 32 && RunReset(w, first, level + 1, r)
    ensures Merged(w, first, level, value, Or(r, Shr(Shl(value, 32 - level - 1), first)))
  {
    var bits := Shr(Shl(value, 32 - level - 1), first);
    forall p: nat | p < 32
      ensures Or(r, bits)[p] == if 31 - level - first <= p <= 31 - first then value[p + first + level - 31] else w[p]
    {
      assert bits[p] == (31 - level - first <= p <= 31 - first && value[p + first + level - 31]);
      assert Or(r, bits)[p] == (r[p] || bits[p]);
    }
  }

  /** Swapping twice is the identity. */
  lemma ByteSwapInvolutive(a: Word)
    ensures ByteSwap(ByteSwap(a)) == a
  {
    ByteSwapBits(a);
    ByteSwapBits(ByteSwap(a));
    var b := ByteSwap(a);
    hide ByteSwap;
    assert b[24..] == a[..8] && b[16..24] == a[8..16] && b[8..16] == a[16..24] && b[..8] == a[24..];
  }
}
