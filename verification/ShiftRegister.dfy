/** Shift registers that take a serial bit stream in at the least significant
    end, the most significant bit of each transmitted word first. */
module ShiftRegister {

  function ShiftIn(r: bv64, b: bool): bv64 {
    if b then (r << 1) | 1 else r << 1
  }

  function Half(w: bv64): bv64 { w >> 1 }

  predicate LowBit(w: bv64) { w & 1 == 1 }

  /** Register content after all of `bits` have been shifted in. */
  function Shifted(r: bv64, bits: seq<bool>): bv64
    decreases |bits|
  {
    if bits == [] then r else ShiftIn(Shifted(r, bits[..|bits| - 1]), bits[|bits| - 1])
  }

  /** The low `n` bits of `w` in transmission order. */
  function MsbBits(w: bv64, n: nat): (bits: seq<bool>)
    ensures |bits| == n
    decreases n
  {
    if n == 0 then [] else MsbBits(Half(w), n - 1) + [LowBit(w)]
  }

  /** A word whose low `n` bits are all ones. */
  function LowMask(n: nat): bv64 {
    if n == 0 then 0 else ShiftIn(LowMask(n - 1), true)
  }

  predicate Agree(v: bv64, w: bv64, mask: bv64) {
    v & mask == w & mask
  }

  // ---- registers as words ----

  lemma ShiftedSnoc(r: bv64, bits: seq<bool>, b: bool)
    ensures Shifted(r, bits + [b]) == ShiftIn(Shifted(r, bits), b)
  {
    hide ShiftIn;
    assert (bits + [b])[..|bits|] == bits;
  }

  /** Serial transmission is received: whatever the register held before, after
      the `n` bits of `w` its low `n` bits are those of `w`. */
  lemma {:induction false} ShiftedWord(r: bv64, w: bv64, n: nat)
    ensures Agree(Shifted(r, MsbBits(w, n)), w, LowMask(n))
    decreases n
  {
    if n == 0 {
    } else {
      hide ShiftIn, Half, LowBit, Agree, Shifted, MsbBits, LowMask;
      ShiftedWord(r, Half(w), n - 1);
      ShiftedWordStep(r, w, n);
    }
  }

  lemma ShiftedWordStep(r: bv64, w: bv64, n: nat)
    requires n > 0 && Agree(Shifted(r, MsbBits(Half(w), n - 1)), Half(w), LowMask(n - 1))
    ensures Agree(Shifted(r, MsbBits(w, n)), w, LowMask(n))
  {
    hide ShiftIn, Half, LowBit, Agree, Shifted;
    AgreeStep(Shifted(r, MsbBits(Half(w), n - 1)), w, LowMask(n - 1));
    ShiftedSnoc(r, MsbBits(Half(w), n - 1), LowBit(w));
  }

  lemma AgreeStep(f: bv64, w: bv64, m: bv64)
    requires Agree(f, Half(w), m)
    ensures Agree(ShiftIn(f, LowBit(w)), w, ShiftIn(m, true))
  {
  }

  lemma AgreeTrans(u: bv64, v: bv64, w: bv64, m: bv64)
    requires Agree(u, v, m) && Agree(u, w, m)
    ensures Agree(v, w, m)
  {
  }

  // ---- registers as windows of bits ----

  lemma LowMasks()
    ensures LowMask(10) == 0x3FF
    ensures LowMask(16) == 0xFFFF
    ensures LowMask(32) == 0xFFFF_FFFF
    ensures LowMask(60) == 0x0FFF_FFFF_FFFF_FFFF
    ensures LowMask(63) == 0x7FFF_FFFF_FFFF_FFFF
    ensures LowMask(64) == 0xFFFF_FFFF_FFFF_FFFF
  {
    assert LowMask(10) == 0x3FF;
    assert LowMask(20) == 0xF_FFFF;
    assert LowMask(30) == 0x3FFF_FFFF;
    assert LowMask(40) == 0xFF_FFFF_FFFF;
    assert LowMask(50) == 0x3_FFFF_FFFF_FFFF;
  }

  predicate Within(m: bv64, mask: bv64) {
    m & mask == m
  }

  lemma {:induction false} LowMaskGrows(n: nat)
    ensures Within(LowMask(n), LowMask(n + 1))
  {
    if n == 0 {
    } else {
      hide ShiftIn, Within;
      LowMaskGrows(n - 1);
      WithinStep(LowMask(n - 1), LowMask(n));
    }
  }

  lemma WithinStep(m: bv64, mask: bv64)
    requires Within(m, mask)
    ensures Within(ShiftIn(m, true), ShiftIn(mask, true))
  {
  }

  lemma {:induction false} LowMaskTopClear(n: nat)
    requires n <= 63
    ensures Within(LowMask(n), 0x7FFF_FFFF_FFFF_FFFF)
    decreases 63 - n
  {
    if n == 63 {
      LowMasks();
    } else {
      LowMaskTopClear(n + 1);
      LowMaskGrows(n);
    }
  }

  lemma AgreeHalf(v: bv64, w: bv64, m: bv64)
    requires Within(m, 0x7FFF_FFFF_FFFF_FFFF)
    requires Agree(v, w, ShiftIn(m, true))
    ensures Agree(Half(v), Half(w), m) && LowBit(v) == LowBit(w)
  {
  }

  /** The low `n` bits determine the window. */
  lemma {:induction false} AgreeWindow(v: bv64, w: bv64, n: nat)
    requires n <= 64 && Agree(v, w, LowMask(n))
    ensures MsbBits(v, n) == MsbBits(w, n)
    decreases n
  {
    hide ShiftIn, Half, LowBit, Agree, Within;
    if n != 0 {
      LowMaskTopClear(n - 1);
      AgreeHalf(v, w, LowMask(n - 1));
      AgreeWindow(Half(v), Half(w), n - 1);
    }
  }

  /** The window determines the low `n` bits. */
  lemma WindowAgree(v: bv64, w: bv64, n: nat)
    requires MsbBits(v, n) == MsbBits(w, n)
    ensures Agree(v, w, LowMask(n))
  {
    hide Agree;
    ShiftedWord(0, v, n);
    ShiftedWord(0, w, n);
    AgreeTrans(Shifted(0, MsbBits(v, n)), v, w, LowMask(n));
  }

  lemma {:induction false} MsbTail(w: bv64, n: nat)
    requires n > 0
    ensures MsbBits(w, n)[1..] == MsbBits(w, n - 1)
    decreases n
  {
    hide Half, LowBit;
    if n > 1 {
      MsbTail(Half(w), n - 1);
    }
  }

  lemma HalfOfShiftIn(r: bv64, b: bool)
    ensures Half(ShiftIn(r, b)) == r & 0x7FFF_FFFF_FFFF_FFFF
    ensures LowBit(ShiftIn(r, b)) == b
  {
  }

  lemma MaskedAgree(r: bv64, m: bv64, top: bv64)
    requires Within(m, top)
    ensures Agree(r & top, r, m)
  {
  }

  /** Shifting a bit in slides the window by one place. */
  lemma Slide(r: bv64, b: bool, n: nat)
    requires 0 < n <= 64
    ensures MsbBits(ShiftIn(r, b), n) == MsbBits(r, n)[1..] + [b]
  {
    hide ShiftIn, Half, LowBit, Agree, Within;
    HalfOfShiftIn(r, b);
    LowMaskTopClear(n - 1);
    MaskedAgree(r, LowMask(n - 1), 0x7FFF_FFFF_FFFF_FFFF);
    AgreeWindow(Half(ShiftIn(r, b)), r, n - 1);
    MsbTail(r, n);
  }

  lemma WindowEnd(window: seq<bool>, bits: seq<bool>, b: bool)
    requires |window| > 0
    ensures (window + (bits + [b]))[|bits| + 1..] == (window + bits)[|bits|..][1..] + [b]
  {
  }

  /** After any bits, the window is the end of what it was followed by them. */
  lemma {:induction false} SlideAll(r: bv64, bits: seq<bool>, n: nat)
    requires 0 < n <= 64
    ensures MsbBits(Shifted(r, bits), n) == (MsbBits(r, n) + bits)[|bits|..]
    decreases |bits|
  {
    hide ShiftIn, MsbBits;
    if bits == [] {
    } else {
      var front := bits[..|bits| - 1];
      SlideAll(r, front, n);
      Slide(Shifted(r, front), bits[|bits| - 1], n);
      assert bits == front + [bits[|bits| - 1]];
      WindowEnd(MsbBits(r, n), front, bits[|bits| - 1]);
    }
  }

  // ---- 32-bit registers ----

  function ShiftIn32(r: bv64, b: bool): bv64 {
    ShiftIn(r, b) & 0xFFFF_FFFF
  }

  function Shifted32(r: bv64, bits: seq<bool>): bv64
    decreases |bits|
  {
    if bits == [] then r else ShiftIn32(Shifted32(r, bits[..|bits| - 1]), bits[|bits| - 1])
  }

  lemma MaskWord(w: bv64)
    ensures Agree(w & 0xFFFF_FFFF, w, 0xFFFF_FFFF)
  {
  }

  lemma Slide32(r: bv64, b: bool)
    ensures MsbBits(ShiftIn32(r, b), 32) == MsbBits(r, 32)[1..] + [b]
  {
    hide ShiftIn, Agree, MsbBits, LowMask;
    MaskWord(ShiftIn(r, b));
    LowMasks();
    AgreeWindow(ShiftIn32(r, b), ShiftIn(r, b), 32);
    Slide(r, b, 32);
  }

  lemma {:induction false} SlideAll32(r: bv64, bits: seq<bool>)
    ensures MsbBits(Shifted32(r, bits), 32) == (MsbBits(r, 32) + bits)[|bits|..]
    decreases |bits|
  {
    hide ShiftIn32, MsbBits;
    if bits == [] {
    } else {
      var front := bits[..|bits| - 1];
      SlideAll32(r, front);
      Slide32(Shifted32(r, front), bits[|bits| - 1]);
      assert bits == front + [bits[|bits| - 1]];
      WindowEnd(MsbBits(r, 32), front, bits[|bits| - 1]);
    }
  }

  // ---- cutting words ----

  function Drop(w: bv64, m: nat): bv64
    decreases m
  {
    if m == 0 then w else Drop(Half(w), m - 1)
  }

  lemma {:induction false} MsbSplit(w: bv64, n: nat, m: nat)
    ensures MsbBits(w, n + m) == MsbBits(Drop(w, m), n) + MsbBits(w, m)
    decreases m
  {
    hide Half, LowBit;
    if m != 0 {
      MsbSplit(Half(w), n, m - 1);
    }
  }

  lemma {:induction false} DropAdd(w: bv64, m: nat, n: nat)
    ensures Drop(w, m + n) == Drop(Drop(w, m), n)
    decreases m
  {
    hide Half;
    if m != 0 {
      DropAdd(Half(w), m - 1, n);
    }
  }

  lemma HalfShifts(w: bv64)
    ensures Half(w) == w >> 1 && Half(w >> 1) == w >> 2 && Half(w >> 2) == w >> 3 && Half(w >> 3) == w >> 4
    ensures Half(w >> 4) == w >> 5 && Half(w >> 5) == w >> 6 && Half(w >> 6) == w >> 7 && Half(w >> 7) == w >> 8
    ensures Half(w >> 8) == w >> 9 && Half(w >> 9) == w >> 10 && Half(w >> 10) == w >> 11 && Half(w >> 11) == w >> 12
    ensures Half(w >> 12) == w >> 13 && Half(w >> 13) == w >> 14 && Half(w >> 14) == w >> 15 && Half(w >> 15) == w >> 16
    ensures Half(w >> 16) == w >> 17 && Half(w >> 17) == w >> 18 && Half(w >> 18) == w >> 19 && Half(w >> 19) == w >> 20
    ensures Half(w >> 20) == w >> 21 && Half(w >> 21) == w >> 22 && Half(w >> 22) == w >> 23 && Half(w >> 23) == w >> 24
  {
  }

  lemma MsbSplitTen(w: bv64, n: nat)
    ensures MsbBits(w, n + 10) == MsbBits(w >> 10, n) + MsbBits(w, 10)
  {
    hide Half, LowBit, MsbBits;
    MsbSplit(w, n, 10);
    HalfShifts(w);
    assert Drop(w, 10) == w >> 10;
  }
}
