/** The FLEX deinterleaver: blocks of 256 bits become eight 21-bit data words. */
module FlexDeinterleave {
  import opened Sequences
  import opened ShiftRegister
  import opened FlexUtil

  const BLOCK_BITS := 256
  const BLOCK_WORDS := 8
  const CODE_BITS := 32
  const DATA_BITS := 21

  /** The bits of codeword `j` of a block, in the order they arrive. */
  function Column(block: seq<bool>, j: nat): (bits: seq<bool>)
    requires |block| == BLOCK_BITS && j < BLOCK_WORDS
    ensures |bits| == CODE_BITS
  {
    seq(CODE_BITS, i requires 0 <= i < CODE_BITS => block[BLOCK_WORDS * i + j])
  }

  function Complement(bits: seq<bool>): (r: seq<bool>)
    ensures |r| == |bits|
  {
    seq(|bits|, i requires 0 <= i < |bits| => !bits[i])
  }

  /** The window of the data word carried by a codeword: the first 21 bits sent, complemented,
      the first bit sent being the least significant. */
  function DataWindow(code: seq<bool>): seq<bool>
    requires |code| == CODE_BITS
  {
    Zeros(CODE_BITS - DATA_BITS) + Complement(Mirror(code[..DATA_BITS]))
  }

  /** Drop the (reversed) check bits and invert the rest. */
  function MaskedInverse(x: bv64): bv64 {
    (x & 0x001F_FFFF) ^ 0x001F_FFFF
  }

  class Deinterleaver {
    const codewords: array<bv64>

    ghost predicate Valid() {
      codewords.Length == BLOCK_WORDS
    }

    /** Whatever the array held. */
    constructor (words: array<bv64>)
      requires words.Length == BLOCK_WORDS
      ensures Valid() && codewords == words
    {
      codewords := words;
    }

    /** Parcel the bits of a block out to the eight codeword registers. */
    method ShiftInBlock(input: seq<bool>)
      requires Valid() && |input| == BLOCK_BITS
      modifies codewords
      ensures forall j :: 0 <= j < BLOCK_WORDS ==> codewords[j] == Shifted32(old(codewords[j]), Column(input, j))
    {
      hide ShiftIn32, Shifted32, Column;
      ghost var before := codewords[..];
      forall j | 0 <= j < BLOCK_WORDS ensures before[j] == Shifted32(before[j], Column(input, j)[..0]) {
        NothingShifted(before[j]);
        assert Column(input, j)[..0] == [];
      }
      for i := 0 to CODE_BITS
        invariant forall j :: 0 <= j < BLOCK_WORDS ==> codewords[j] == Shifted32(before[j], Column(input, j)[..i])
      {
        for j := 0 to BLOCK_WORDS
          invariant forall k :: 0 <= k < j ==> codewords[k] == Shifted32(before[k], Column(input, k)[..i + 1])
          invariant forall k :: j <= k < BLOCK_WORDS ==> codewords[k] == Shifted32(before[k], Column(input, k)[..i])
        {
          var bit := input[BLOCK_WORDS * i + j];
          ColumnBit(before[j], input, i, j);
          codewords[j] := ShiftIn32(codewords[j], bit);
        }
      }
      forall j | 0 <= j < BLOCK_WORDS ensures codewords[j] == Shifted32(before[j], Column(input, j)) {
        assert Column(input, j)[..CODE_BITS] == Column(input, j);
      }
    }

    method Work(input: seq<bool>) returns (out: seq<bv64>)
      requires Valid() && |input| == BLOCK_BITS
      modifies codewords
      ensures |out| == BLOCK_WORDS
      ensures forall j :: 0 <= j < BLOCK_WORDS ==> MsbBits(out[j], CODE_BITS) == DataWindow(Column(input, j))
      ensures forall j :: 0 <= j < BLOCK_WORDS ==> out[j] <= 0x1F_FFFF
    {
      hide MsbBits, Shifted32, Column, ReverseBits32, MaskedInverse, DataWindow;
      ghost var before := codewords[..];
      ShiftInBlock(input);
      out := [];
      for j := 0 to BLOCK_WORDS
        invariant |out| == j
        invariant forall k :: 0 <= k < BLOCK_WORDS ==> codewords[k] == Shifted32(before[k], Column(input, k))
        invariant forall k :: 0 <= k < j ==> MsbBits(out[k], CODE_BITS) == DataWindow(Column(input, k))
        invariant forall k :: 0 <= k < j ==> out[k] <= 0x1F_FFFF
      {
        Received(before[j], Column(input, j));
        var codeword := ReverseBits32(codewords[j]);
        codeword := MaskedInverse(codeword);
        out := out + [codeword];
      }
    }
  }

  lemma NothingShifted(c: bv64)
    ensures Shifted32(c, []) == c
  {
  }

  lemma ColumnBit(c: bv64, block: seq<bool>, i: nat, j: nat)
    requires |block| == BLOCK_BITS && i < CODE_BITS && j < BLOCK_WORDS
    ensures Shifted32(c, Column(block, j)[..i + 1]) ==
            ShiftIn32(Shifted32(c, Column(block, j)[..i]), block[BLOCK_WORDS * i + j])
  {
    hide ShiftIn32;
    assert Column(block, j)[..i + 1][..i] == Column(block, j)[..i];
  }

  /** A codeword register after its 32 bits, reversed, masked and inverted. */
  lemma Received(c: bv64, code: seq<bool>)
    requires |code| == CODE_BITS
    ensures var w := MaskedInverse(ReverseBits32(Shifted32(c, code)));
            MsbBits(w, CODE_BITS) == DataWindow(code) && w <= 0x1F_FFFF
  {
    hide MsbBits, ShiftIn32, ReverseBits32;
    SlideAll32(c, code);
    var r := Shifted32(c, code);
    assert MsbBits(r, 32) == code;
    ReverseWindow(r);
    MaskInvert(ReverseBits32(r));
    assert Mirror(code)[CODE_BITS - DATA_BITS..] == Mirror(code[..DATA_BITS]);
  }

  // ---- masking and inverting ----

  function Not(x: bv64): bv64 { !x }

  lemma AgreeNot(x: bv64, m: bv64)
    requires Within(m, 0x7FFF_FFFF_FFFF_FFFF)
    ensures Agree(Half(Not(x)), Not(Half(x)), m) && LowBit(Not(x)) == !LowBit(x)
  {
  }

  lemma {:induction false} NotWindow(x: bv64, n: nat)
    requires n <= 64
    ensures MsbBits(Not(x), n) == Complement(MsbBits(x, n))
    decreases n
  {
    hide Half, LowBit, Agree, Within, Not;
    if n != 0 {
      LowMaskTopClear(n - 1);
      AgreeNot(x, LowMask(n - 1));
      AgreeWindow(Half(Not(x)), Not(Half(x)), n - 1);
      NotWindow(Half(x), n - 1);
    }
  }

  lemma MaskInvertAgree(x: bv64)
    ensures Agree(MaskedInverse(x), Not(x), 0x1F_FFFF)
    ensures MaskedInverse(x) <= 0x1F_FFFF
    ensures MaskedInverse(x) >> 21 == 0
  {
  }

  lemma DropTwentyOne()
    ensures forall w :: Drop(w, 21) == w >> 21
  {
    hide Half;
    forall w: bv64 ensures Drop(w, 21) == w >> 21 {
      HalfShifts(w);
      DropAdd(w, 10, 11);
      assert Drop(w, 10) == w >> 10;
      assert Drop(w >> 10, 11) == w >> 21;
    }
  }

  lemma NoBits()
    ensures MsbBits(0, 11) == Zeros(11)
  {
  }

  lemma Mask21()
    ensures LowMask(21) == 0x1F_FFFF
  {
    assert LowMask(10) == 0x3FF;
    assert LowMask(20) == 0xF_FFFF;
  }

  lemma MaskInvert(x: bv64)
    ensures MaskedInverse(x) <= 0x1F_FFFF
    ensures MsbBits(MaskedInverse(x), 32) == Zeros(11) + Complement(MsbBits(x, 32)[11..])
  {
    hide MsbBits, MaskedInverse, Agree, Not, Drop, LowMask;
    var w := MaskedInverse(x);
    MaskInvertAgree(x);
    Mask21();
    AgreeWindow(w, Not(x), 21);
    NotWindow(x, 21);
    MsbSplit(x, 11, 21);
    MsbSplit(w, 11, 21);
    DropTwentyOne();
    NoBits();
  }
}
