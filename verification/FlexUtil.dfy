/** Bit reversal of bytes and of 32-bit words. */
module FlexUtil {
  import opened ShiftRegister

  /** Reversal by multiply, mask and modulus. */
  function ReverseBits8(val: bv64): bv64 {
    ((val * 0x02_0202_0202) & 0x0108_8442_2010) % 1023
  }

  /** The masks are the conversions of each reversed byte to unsigned char. */
  function ReverseBits32(val: bv64): bv64 {
    (ReverseBits8((val >> 24) & 0xFF) & 0xFF)
    | ((ReverseBits8((val >> 16) & 0xFF) & 0xFF) << 8)
    | ((ReverseBits8((val >> 8) & 0xFF) & 0xFF) << 16)
    | ((ReverseBits8(val & 0xFF) & 0xFF) << 24)
  }

  function Mirror<T>(s: seq<T>): (r: seq<T>)
    ensures |r| == |s|
    ensures forall i :: 0 <= i < |s| ==> r[i] == s[|s| - 1 - i]
  {
    seq(|s|, i requires 0 <= i < |s| => s[|s| - 1 - i])
  }

  /** Bit `i` of a word, counted from the least significant. */
  predicate BitAt(w: bv64, i: nat)
    decreases i
  {
    if i == 0 then LowBit(w) else BitAt(Half(w), i - 1)
  }

  lemma {:induction false} MsbAt(w: bv64, n: nat, k: nat)
    requires k < n
    ensures MsbBits(w, n)[k] == BitAt(w, n - 1 - k)
    decreases n
  {
    hide Half, LowBit;
    if k < n - 1 {
      MsbAt(Half(w), n - 1, k);
    }
  }

  /** The multiply, mask and modulus moves every bit of a byte to its mirror position. */
  lemma ReversedByte(v: bv64)
    requires v < 0x100
    ensures (ReverseBits8(v) & 1 == 1) == ((v >> 7) & 1 == 1)
    ensures ((ReverseBits8(v) >> 1) & 1 == 1) == ((v >> 6) & 1 == 1)
    ensures ((ReverseBits8(v) >> 2) & 1 == 1) == ((v >> 5) & 1 == 1)
    ensures ((ReverseBits8(v) >> 3) & 1 == 1) == ((v >> 4) & 1 == 1)
    ensures ((ReverseBits8(v) >> 4) & 1 == 1) == ((v >> 3) & 1 == 1)
    ensures ((ReverseBits8(v) >> 5) & 1 == 1) == ((v >> 2) & 1 == 1)
    ensures ((ReverseBits8(v) >> 6) & 1 == 1) == ((v >> 1) & 1 == 1)
    ensures ((ReverseBits8(v) >> 7) & 1 == 1) == (v & 1 == 1)
  {
  }

  lemma LowNibble(w: bv64)
    ensures BitAt(w, 0) == (w & 1 == 1)
    ensures BitAt(w, 1) == ((w >> 1) & 1 == 1)
    ensures BitAt(w, 2) == ((w >> 2) & 1 == 1)
    ensures BitAt(w, 3) == ((w >> 3) & 1 == 1)
  {
  }

  lemma HighNibble(w: bv64)
    ensures BitAt(w, 4) == ((w >> 4) & 1 == 1)
    ensures BitAt(w, 5) == ((w >> 5) & 1 == 1)
    ensures BitAt(w, 6) == ((w >> 6) & 1 == 1)
    ensures BitAt(w, 7) == ((w >> 7) & 1 == 1)
  {
  }

  lemma ReverseByteBit(v: bv64, k: nat)
    requires v < 0x100 && k < 8
    ensures BitAt(ReverseBits8(v), k) == BitAt(v, 7 - k)
  {
    LowNibble(v);
    HighNibble(v);
    LowNibble(ReverseBits8(v));
    HighNibble(ReverseBits8(v));
    ReversedByte(v);
    hide BitAt, ReverseBits8;
  }

  lemma ReverseByteWindow(v: bv64)
    requires v < 0x100
    ensures MsbBits(ReverseBits8(v), 8) == Mirror(MsbBits(v, 8))
  {
    hide MsbBits, BitAt, ReverseBits8;
    forall k | 0 <= k < 8 ensures MsbBits(ReverseBits8(v), 8)[k] == Mirror(MsbBits(v, 8))[k] {
      MsbAt(ReverseBits8(v), 8, k);
      MsbAt(v, 8, 7 - k);
      ReverseByteBit(v, 7 - k);
    }
  }

  // ---- words of four bytes ----

  lemma DropEight()
    ensures forall w :: Drop(w, 8) == w >> 8
  {
    hide Half;
    forall w: bv64 ensures Drop(w, 8) == w >> 8 {
      HalfShifts(w);
    }
  }

  lemma DropBytes(w: bv64)
    ensures Drop(w, 8) == w >> 8 && Drop(w, 16) == w >> 16 && Drop(w, 24) == w >> 24
  {
    hide Drop;
    DropEight();
    DropAdd(w, 8, 8);
    DropAdd(w, 16, 8);
    assert Drop(w >> 8, 8) == w >> 16;
    assert Drop(w >> 16, 8) == w >> 24;
  }

  lemma DropSixteen()
    ensures forall w :: Drop(w, 16) == w >> 16
  {
    hide Drop;
    forall w: bv64 {
      DropBytes(w);
    }
  }

  lemma DropThirtyTwo()
    ensures forall w :: Drop(w, 32) == w >> 32
  {
    hide Drop;
    DropSixteen();
    forall w: bv64 ensures Drop(w, 32) == w >> 32 {
      DropAdd(w, 16, 16);
      assert Drop(w >> 16, 16) == w >> 32;
    }
  }

  /** The bytes of a word, as windows. */
  lemma FourBytes(w: bv64)
    ensures MsbBits(w, 32) == MsbBits(w >> 24, 8) + MsbBits(w >> 16, 8) + MsbBits(w >> 8, 8) + MsbBits(w, 8)
  {
    hide MsbBits, Drop;
    DropBytes(w);
    DropAdd(w, 8, 8);
    DropAdd(w, 16, 8);
    MsbSplit(w, 24, 8);
    MsbSplit(Drop(w, 8), 16, 8);
    MsbSplit(Drop(w, 16), 8, 8);
  }

  lemma ByteWindow(v: bv64)
    ensures MsbBits(v & 0xFF, 8) == MsbBits(v, 8)
  {
    MaskAgree(v);
    assert LowMask(8) == 0xFF;
    hide LowMask, Agree;
    AgreeWindow(v & 0xFF, v, 8);
  }

  lemma MaskAgree(v: bv64)
    ensures Agree(v & 0xFF, v, 0xFF) && v & 0xFF < 0x100
  {
  }

  lemma AllFourBytes()
    ensures forall w :: MsbBits(w, 32) ==
                        MsbBits(w >> 24, 8) + MsbBits(w >> 16, 8) + MsbBits(w >> 8, 8) + MsbBits(w, 8)
  {
    hide MsbBits;
    forall w: bv64 {
      FourBytes(w);
    }
  }

  lemma AllByteWindows()
    ensures forall v :: MsbBits(v, 8) == MsbBits(v & 0xFF, 8)
  {
    hide MsbBits;
    forall v: bv64 {
      ByteWindow(v);
    }
  }

  lemma PackedBytes(a: bv64, b: bv64, c: bv64, d: bv64)
    ensures MsbBits(((a & 0xFF) | ((b & 0xFF) << 8) | ((c & 0xFF) << 16) | ((d & 0xFF) << 24)) >> 24, 8) == MsbBits(d, 8)
    ensures MsbBits(((a & 0xFF) | ((b & 0xFF) << 8) | ((c & 0xFF) << 16) | ((d & 0xFF) << 24)) >> 16, 8) == MsbBits(c, 8)
    ensures MsbBits(((a & 0xFF) | ((b & 0xFF) << 8) | ((c & 0xFF) << 16) | ((d & 0xFF) << 24)) >> 8, 8) == MsbBits(b, 8)
    ensures MsbBits((a & 0xFF) | ((b & 0xFF) << 8) | ((c & 0xFF) << 16) | ((d & 0xFF) << 24), 8) == MsbBits(a, 8)
  {
    hide MsbBits;
    AllByteWindows();
    assert MsbBits((((a & 0xFF) | ((b & 0xFF) << 8) | ((c & 0xFF) << 16) | ((d & 0xFF) << 24)) >> 24) & 0xFF, 8)
           == MsbBits(d & 0xFF, 8);
    assert MsbBits((((a & 0xFF) | ((b & 0xFF) << 8) | ((c & 0xFF) << 16) | ((d & 0xFF) << 24)) >> 16) & 0xFF, 8)
           == MsbBits(c & 0xFF, 8);
    assert MsbBits((((a & 0xFF) | ((b & 0xFF) << 8) | ((c & 0xFF) << 16) | ((d & 0xFF) << 24)) >> 8) & 0xFF, 8)
           == MsbBits(b & 0xFF, 8);
    assert MsbBits(((a & 0xFF) | ((b & 0xFF) << 8) | ((c & 0xFF) << 16) | ((d & 0xFF) << 24)) & 0xFF, 8)
           == MsbBits(a & 0xFF, 8);
  }

  lemma PackedWindow(a: bv64, b: bv64, c: bv64, d: bv64)
    ensures MsbBits((a & 0xFF) | ((b & 0xFF) << 8) | ((c & 0xFF) << 16) | ((d & 0xFF) << 24), 32)
            == MsbBits(d, 8) + MsbBits(c, 8) + MsbBits(b, 8) + MsbBits(a, 8)
  {
    hide MsbBits;
    AllFourBytes();
    PackedBytes(a, b, c, d);
  }

  lemma MaskedBytes(w: bv64)
    ensures MsbBits((w >> 24) & 0xFF, 8) == MsbBits(w >> 24, 8) && (w >> 24) & 0xFF < 0x100
    ensures MsbBits((w >> 16) & 0xFF, 8) == MsbBits(w >> 16, 8) && (w >> 16) & 0xFF < 0x100
    ensures MsbBits((w >> 8) & 0xFF, 8) == MsbBits(w >> 8, 8) && (w >> 8) & 0xFF < 0x100
    ensures MsbBits(w & 0xFF, 8) == MsbBits(w, 8) && w & 0xFF < 0x100
  {
    hide MsbBits;
    AllByteWindows();
  }

  lemma ReversedBytes(w: bv64)
    ensures MsbBits(ReverseBits32(w), 32) ==
            MsbBits(ReverseBits8(w & 0xFF), 8) + MsbBits(ReverseBits8((w >> 8) & 0xFF), 8)
            + MsbBits(ReverseBits8((w >> 16) & 0xFF), 8) + MsbBits(ReverseBits8((w >> 24) & 0xFF), 8)
  {
    hide MsbBits, ReverseBits8;
    PackedWindow(ReverseBits8((w >> 24) & 0xFF), ReverseBits8((w >> 16) & 0xFF),
                 ReverseBits8((w >> 8) & 0xFF), ReverseBits8(w & 0xFF));
  }

  lemma MirrorConcat(a: seq<bool>, b: seq<bool>, c: seq<bool>, d: seq<bool>)
    ensures Mirror(a + b + c + d) == Mirror(d) + Mirror(c) + Mirror(b) + Mirror(a)
  {
  }

  /** The reversal of a 32-bit word is the mirror of its bits. */
  lemma ReverseWindow(w: bv64)
    ensures MsbBits(ReverseBits32(w), 32) == Mirror(MsbBits(w, 32))
  {
    hide MsbBits, ReverseBits8, ReverseBits32, Mirror;
    ReversedBytes(w);
    MaskedBytes(w);
    ReverseByteWindow((w >> 24) & 0xFF);
    ReverseByteWindow((w >> 16) & 0xFF);
    ReverseByteWindow((w >> 8) & 0xFF);
    ReverseByteWindow(w & 0xFF);
    FourBytes(w);
    MirrorConcat(MsbBits(w >> 24, 8), MsbBits(w >> 16, 8), MsbBits(w >> 8, 8), MsbBits(w, 8));
  }
}
