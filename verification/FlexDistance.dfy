/** Hamming distance, counted place by place, and what it says about the distance tests on sync words. */
module FlexDistance {
  import opened ShiftRegister
  import opened FlexModes
  import opened FlexUtil

  // ---- places in which two words differ ----

  function Ones(bits: seq<bool>): (n: nat)
    ensures n <= |bits|
    decreases |bits|
  {
    if bits == [] then 0 else Ones(bits[..|bits| - 1]) + if bits[|bits| - 1] then 1 else 0
  }

  /** The number of places in which two bit strings differ. */
  function Differences(a: seq<bool>, b: seq<bool>): nat
    requires |a| == |b|
    decreases |a|
  {
    var n := |a| - 1;
    if a == [] then 0 else Differences(a[..n], b[..n]) + if a[n] != b[n] then 1 else 0
  }

  lemma {:induction false} OnesOfDifferences(x: seq<bool>, a: seq<bool>, b: seq<bool>)
    requires |x| == |a| == |b| && forall k :: 0 <= k < |x| ==> x[k] == (a[k] != b[k])
    ensures Ones(x) == Differences(a, b)
    decreases |x|
  {
    if x != [] {
      var n := |x| - 1;
      OnesOfDifferences(x[..n], a[..n], b[..n]);
    }
  }

  function Xor(a: bv64, b: bv64): bv64 { a ^ b }

  lemma XorBit(a: bv64, b: bv64)
    ensures LowBit(Xor(a, b)) == (LowBit(a) != LowBit(b))
    ensures Half(Xor(a, b)) == Xor(Half(a), Half(b))
  {
  }

  lemma {:induction false} XorWindow(a: bv64, b: bv64, n: nat, k: nat)
    requires k < n
    ensures MsbBits(Xor(a, b), n)[k] == (MsbBits(a, n)[k] != MsbBits(b, n)[k])
    decreases n
  {
    hide Half, LowBit, Xor;
    XorBit(a, b);
    if k < n - 1 {
      XorWindow(Half(a), Half(b), n - 1, k);
    }
  }

  lemma XorDifferences(a: bv64, b: bv64, n: nat)
    ensures Ones(MsbBits(Xor(a, b), n)) == Differences(MsbBits(a, n), MsbBits(b, n))
  {
    hide MsbBits, Xor, Ones, Differences;
    forall k | 0 <= k < n ensures MsbBits(Xor(a, b), n)[k] == (MsbBits(a, n)[k] != MsbBits(b, n)[k]) {
      XorWindow(a, b, n, k);
    }
    OnesOfDifferences(MsbBits(Xor(a, b), n), MsbBits(a, n), MsbBits(b, n));
  }

  // ---- the parallel count ----

  function Bit(b: bool): bv32 { if b then 1 else 0 }

  /** A number as a word. */
  function Tally(n: nat): bv32 {
    if n == 0 then 0 else Sum(Tally(n - 1), 1)
  }

  /** Counting up by ones from `v` reaches 32 after `n` steps, without wrapping round. */
  predicate Reaches32(v: bv32, n: nat)
    decreases n
  {
    if n == 0 then v == 32 else v < 32 && Reaches32(v + 1, n - 1)
  }

  lemma From24() ensures Reaches32(24, 8) {}
  lemma From16() ensures Reaches32(16, 16) { From24(); }
  lemma From8() ensures Reaches32(8, 24) { From16(); }
  lemma From0() ensures Reaches32(0, 32) { From8(); }

  lemma {:induction false} TallyReaches(n: nat)
    requires n <= 32
    ensures Reaches32(Tally(n), 32 - n) && Tally(n) <= 32
  {
    if n == 0 {
      From0();
    } else {
      TallyReaches(n - 1);
    }
  }

  lemma AddSmall(a: bv32, b: bv32)
    requires a <= 32 && b <= 32
    ensures Sum(a, Sum(b, 1)) == Sum(Sum(a, b), 1) && Sum(a, 0) == a
  {
  }

  /** Words add up as numbers do. */
  lemma {:induction false} TallyAdd(m: nat, n: nat)
    requires m + n <= 32
    ensures Sum(Tally(m), Tally(n)) == Tally(m + n)
    decreases n
  {
    hide Sum, Reaches32;
    TallyReaches(m);
    if n == 0 {
      AddSmall(Tally(m), 0);
    } else {
      TallyReaches(n - 1);
      TallyAdd(m, n - 1);
      AddSmall(Tally(m), Tally(n - 1));
    }
  }

  lemma {:induction false} TallyLarge(n: nat)
    requires 4 <= n <= 32
    ensures Tally(n) >= 4
  {
    if n > 4 {
      TallyLarge(n - 1);
      TallyReaches(n - 1);
    }
  }

  lemma TallySmall()
    ensures Tally(0) < 4 && Tally(1) < 4 && Tally(2) < 4 && Tally(3) < 4
  {
  }

  lemma Byte0(x: bv32)
    ensures (((x & 0xFFFF) & 0xFF)) & 1 == Bit(((x as bv64)) & 1 == 1)
    ensures (((x & 0xFFFF) & 0xFF) >> 1) & 1 == Bit(((x as bv64) >> 1) & 1 == 1)
    ensures (((x & 0xFFFF) & 0xFF) >> 2) & 1 == Bit(((x as bv64) >> 2) & 1 == 1)
    ensures (((x & 0xFFFF) & 0xFF) >> 3) & 1 == Bit(((x as bv64) >> 3) & 1 == 1)
    ensures (((x & 0xFFFF) & 0xFF) >> 4) & 1 == Bit(((x as bv64) >> 4) & 1 == 1)
    ensures (((x & 0xFFFF) & 0xFF) >> 5) & 1 == Bit(((x as bv64) >> 5) & 1 == 1)
    ensures (((x & 0xFFFF) & 0xFF) >> 6) & 1 == Bit(((x as bv64) >> 6) & 1 == 1)
    ensures (((x & 0xFFFF) & 0xFF) >> 7) & 1 == Bit(((x as bv64) >> 7) & 1 == 1)
  {
  }

  lemma Byte1(x: bv32)
    ensures (((x & 0xFFFF) >> 8)) & 1 == Bit((((x as bv64) >> 8)) & 1 == 1)
    ensures (((x & 0xFFFF) >> 8) >> 1) & 1 == Bit((((x as bv64) >> 8) >> 1) & 1 == 1)
    ensures (((x & 0xFFFF) >> 8) >> 2) & 1 == Bit((((x as bv64) >> 8) >> 2) & 1 == 1)
    ensures (((x & 0xFFFF) >> 8) >> 3) & 1 == Bit((((x as bv64) >> 8) >> 3) & 1 == 1)
    ensures (((x & 0xFFFF) >> 8) >> 4) & 1 == Bit((((x as bv64) >> 8) >> 4) & 1 == 1)
    ensures (((x & 0xFFFF) >> 8) >> 5) & 1 == Bit((((x as bv64) >> 8) >> 5) & 1 == 1)
    ensures (((x & 0xFFFF) >> 8) >> 6) & 1 == Bit((((x as bv64) >> 8) >> 6) & 1 == 1)
    ensures (((x & 0xFFFF) >> 8) >> 7) & 1 == Bit((((x as bv64) >> 8) >> 7) & 1 == 1)
  {
  }

  lemma Byte2(x: bv32)
    ensures (((x >> 16) & 0xFF)) & 1 == Bit((((x as bv64) >> 16)) & 1 == 1)
    ensures (((x >> 16) & 0xFF) >> 1) & 1 == Bit((((x as bv64) >> 16) >> 1) & 1 == 1)
    ensures (((x >> 16) & 0xFF) >> 2) & 1 == Bit((((x as bv64) >> 16) >> 2) & 1 == 1)
    ensures (((x >> 16) & 0xFF) >> 3) & 1 == Bit((((x as bv64) >> 16) >> 3) & 1 == 1)
    ensures (((x >> 16) & 0xFF) >> 4) & 1 == Bit((((x as bv64) >> 16) >> 4) & 1 == 1)
    ensures (((x >> 16) & 0xFF) >> 5) & 1 == Bit((((x as bv64) >> 16) >> 5) & 1 == 1)
    ensures (((x >> 16) & 0xFF) >> 6) & 1 == Bit((((x as bv64) >> 16) >> 6) & 1 == 1)
    ensures (((x >> 16) & 0xFF) >> 7) & 1 == Bit((((x as bv64) >> 16) >> 7) & 1 == 1)
  {
  }

  lemma Byte3(x: bv32)
    ensures (((x >> 16) >> 8)) & 1 == Bit((((x as bv64) >> 24)) & 1 == 1)
    ensures (((x >> 16) >> 8) >> 1) & 1 == Bit((((x as bv64) >> 24) >> 1) & 1 == 1)
    ensures (((x >> 16) >> 8) >> 2) & 1 == Bit((((x as bv64) >> 24) >> 2) & 1 == 1)
    ensures (((x >> 16) >> 8) >> 3) & 1 == Bit((((x as bv64) >> 24) >> 3) & 1 == 1)
    ensures (((x >> 16) >> 8) >> 4) & 1 == Bit((((x as bv64) >> 24) >> 4) & 1 == 1)
    ensures (((x >> 16) >> 8) >> 5) & 1 == Bit((((x as bv64) >> 24) >> 5) & 1 == 1)
    ensures (((x >> 16) >> 8) >> 6) & 1 == Bit((((x as bv64) >> 24) >> 6) & 1 == 1)
    ensures (((x >> 16) >> 8) >> 7) & 1 == Bit((((x as bv64) >> 24) >> 7) & 1 == 1)
  {
  }

  function Value(b: bool): nat { if b then 1 else 0 }

  lemma TallyBit(n: nat, b: bool)
    requires n < 32
    ensures Sum(Tally(n), Bit(b)) == Tally(n + Value(b))
    ensures Bit(b) == Tally(Value(b))
  {
    TallyReaches(n);
    AddSmall(Tally(n), 0);
    AddSmall(0, 0);
    assert Tally(1) == Sum(Tally(0), 1) == 1;
    hide Sum, Reaches32;
  }

  lemma {:induction false} OnesAppend(a: seq<bool>, b: seq<bool>)
    ensures Ones(a + b) == Ones(a) + Ones(b)
    decreases |b|
  {
    if b == [] {
      assert a + b == a;
    } else {
      assert (a + b)[..|a + b| - 1] == a + b[..|b| - 1];
      OnesAppend(a, b[..|b| - 1]);
    }
  }

  lemma OnesTake(bits: seq<bool>, k: nat)
    requires k < |bits|
    ensures Ones(bits[..k + 1]) == Ones(bits[..k]) + Value(bits[k])
  {
    assert bits[..k + 1][..k] == bits[..k];
  }

  lemma OnesEight(bits: seq<bool>)
    requires |bits| == 8
    ensures Ones(bits) == Value(bits[7]) + Value(bits[6]) + Value(bits[5]) + Value(bits[4])
                          + Value(bits[3]) + Value(bits[2]) + Value(bits[1]) + Value(bits[0])
  {
    NoOnes();
    hide Ones, Value;
    OnesTake(bits, 0); OnesTake(bits, 1); OnesTake(bits, 2); OnesTake(bits, 3);
    OnesTake(bits, 4); OnesTake(bits, 5); OnesTake(bits, 6); OnesTake(bits, 7);
    assert bits[..0] == [] && bits[..8] == bits;
  }

  lemma NoOnes()
    ensures Ones([]) == 0
  {
  }

  lemma ByteWindowBits(w: bv64)
    ensures var bits := MsbBits(w, 8);
            && bits[7] == (w & 1 == 1) && bits[6] == ((w >> 1) & 1 == 1)
            && bits[5] == ((w >> 2) & 1 == 1) && bits[4] == ((w >> 3) & 1 == 1)
            && bits[3] == ((w >> 4) & 1 == 1) && bits[2] == ((w >> 5) & 1 == 1)
            && bits[1] == ((w >> 6) & 1 == 1) && bits[0] == ((w >> 7) & 1 == 1)
  {
    hide MsbBits, BitAt;
    LowNibble(w);
    HighNibble(w);
    MsbAt(w, 8, 0); MsbAt(w, 8, 1); MsbAt(w, 8, 2); MsbAt(w, 8, 3);
    MsbAt(w, 8, 4); MsbAt(w, 8, 5); MsbAt(w, 8, 6); MsbAt(w, 8, 7);
  }

  /** Eight bits added up one after the other. */
  lemma ByteTally(a: bool, b: bool, c: bool, d: bool, e: bool, f: bool, g: bool, h: bool)
    ensures Sum(Sum(Sum(Sum(Sum(Sum(Sum(Bit(a), Bit(b)), Bit(c)), Bit(d)), Bit(e)), Bit(f)), Bit(g)), Bit(h)) ==
            Tally(Value(a) + Value(b) + Value(c) + Value(d) + Value(e) + Value(f) + Value(g) + Value(h))
  {
    hide Sum, Bit, Tally;
    TallyBit(0, a);
    var n := Value(a);
    TallyBit(n, b);
    n := n + Value(b);
    TallyBit(n, c);
    n := n + Value(c);
    TallyBit(n, d);
    n := n + Value(d);
    TallyBit(n, e);
    n := n + Value(e);
    TallyBit(n, f);
    n := n + Value(f);
    TallyBit(n, g);
    n := n + Value(g);
    TallyBit(n, h);
  }

  lemma OnesOfByte(y: bv32, w: bv64)
    requires (y) & 1 == Bit((w) & 1 == 1)
    requires (y >> 1) & 1 == Bit((w >> 1) & 1 == 1)
    requires (y >> 2) & 1 == Bit((w >> 2) & 1 == 1)
    requires (y >> 3) & 1 == Bit((w >> 3) & 1 == 1)
    requires (y >> 4) & 1 == Bit((w >> 4) & 1 == 1)
    requires (y >> 5) & 1 == Bit((w >> 5) & 1 == 1)
    requires (y >> 6) & 1 == Bit((w >> 6) & 1 == 1)
    requires (y >> 7) & 1 == Bit((w >> 7) & 1 == 1)
    ensures Ones8(y) == Tally(Ones(MsbBits(w, 8)))
  {
    hide Sum, Bit, Tally, Ones, Value, MsbBits;
    ByteWindowBits(w);
    OnesEight(MsbBits(w, 8));
    var bits := MsbBits(w, 8);
    ByteTally(bits[7], bits[6], bits[5], bits[4], bits[3], bits[2], bits[1], bits[0]);
  }

  lemma ByteOnes0(x: bv32)
    ensures Ones8((x & 0xFFFF) & 0xFF) == Tally(Ones(MsbBits(x as bv64, 8)))
  {
    hide Bit, Tally, Ones, MsbBits, Ones8;
    Byte0(x);
    OnesOfByte((x & 0xFFFF) & 0xFF, x as bv64);
  }

  lemma ByteOnes1(x: bv32)
    ensures Ones8((x & 0xFFFF) >> 8) == Tally(Ones(MsbBits((x as bv64) >> 8, 8)))
  {
    hide Bit, Tally, Ones, MsbBits, Ones8;
    Byte1(x);
    OnesOfByte((x & 0xFFFF) >> 8, (x as bv64) >> 8);
  }

  lemma ByteOnes2(x: bv32)
    ensures Ones8((x >> 16) & 0xFF) == Tally(Ones(MsbBits((x as bv64) >> 16, 8)))
  {
    hide Bit, Tally, Ones, MsbBits, Ones8;
    Byte2(x);
    OnesOfByte((x >> 16) & 0xFF, (x as bv64) >> 16);
  }

  lemma ByteOnes3(x: bv32)
    ensures Ones8((x >> 16) >> 8) == Tally(Ones(MsbBits((x as bv64) >> 24, 8)))
  {
    hide Bit, Tally, Ones, MsbBits, Ones8;
    Byte3(x);
    OnesOfByte((x >> 16) >> 8, (x as bv64) >> 24);
  }

  /** The bits of a 32-bit word, first bit first. */
  function Bits32(x: bv32): (bits: seq<bool>)
    ensures |bits| == 32
  {
    MsbBits(x as bv64, 32)
  }

  lemma SumOfBytes(a: nat, b: nat, c: nat, d: nat, low: nat, high: nat, n: nat)
    requires a + b == low && c + d == high && low + high == n <= 32
    ensures Sum(Sum(Tally(a), Tally(b)), Sum(Tally(c), Tally(d))) == Tally(n)
  {
    hide Sum, Tally;
    PairsAdd(a, b, low);
    PairsAdd(c, d, high);
    PairsAdd(low, high, n);
  }

  lemma PairsAdd(a: nat, b: nat, n: nat)
    requires a + b == n <= 32
    ensures Sum(Tally(a), Tally(b)) == Tally(n)
  {
    hide Sum, Tally;
    TallyAdd(a, b);
  }

  lemma OnesOfParts(a: seq<bool>, b: seq<bool>, c: seq<bool>, d: seq<bool>)
    ensures Ones(d + c + b + a) == Ones(a) + Ones(b) + Ones(c) + Ones(d)
  {
    hide Ones;
    OnesAppend(d, c);
    OnesAppend(d + c, b);
    OnesAppend(d + c + b, a);
  }

  lemma CountParts(x: bv32)
    ensures CountBits32(x) ==
            Sum(Sum(Tally(Ones(MsbBits(x as bv64, 8))), Tally(Ones(MsbBits((x as bv64) >> 8, 8)))),
                Sum(Tally(Ones(MsbBits((x as bv64) >> 16, 8))), Tally(Ones(MsbBits((x as bv64) >> 24, 8)))))
  {
    hide CountBits32, Ones8, Sum, Tally, Ones, MsbBits;
    FastCount(x);
    ByteOnes0(x); ByteOnes1(x); ByteOnes2(x); ByteOnes3(x);
  }

  lemma CountOfParts(a: seq<bool>, b: seq<bool>, c: seq<bool>, d: seq<bool>)
    requires |a| == |b| == |c| == |d| == 8
    ensures Sum(Sum(Tally(Ones(a)), Tally(Ones(b))), Sum(Tally(Ones(c)), Tally(Ones(d)))) == Tally(Ones(d + c + b + a))
  {
    hide Ones, Sum, Tally;
    OnesOfParts(a, b, c, d);
    SumOfBytes(Ones(a), Ones(b), Ones(c), Ones(d),
               Ones(a) + Ones(b), Ones(c) + Ones(d), Ones(d + c + b + a));
  }

  lemma WideBytes(x: bv32)
    ensures Bits32(x) == MsbBits((x as bv64) >> 24, 8) + MsbBits((x as bv64) >> 16, 8)
                         + MsbBits((x as bv64) >> 8, 8) + MsbBits(x as bv64, 8)
  {
    hide MsbBits;
    AllFourBytes();
  }

  /** The parallel count is the number of ones. */
  lemma CountIsOnes(x: bv32)
    ensures CountBits32(x) == Tally(Ones(Bits32(x)))
  {
    hide CountBits32, Ones8, Sum, Tally, Ones, MsbBits, Bits32;
    CountParts(x);
    WideBytes(x);
    CountOfParts(MsbBits(x as bv64, 8), MsbBits((x as bv64) >> 8, 8),
                 MsbBits((x as bv64) >> 16, 8), MsbBits((x as bv64) >> 24, 8));
  }

  lemma XorWide(a: bv32, b: bv32)
    ensures (a ^ b) as bv64 == Xor(a as bv64, b as bv64)
  {
  }

  /** The distance test passes exactly when the words differ in at most three places. */
  lemma NearIsDistance(a: bv32, b: bv32)
    ensures Near(a, b) <==> Differences(Bits32(a), Bits32(b)) <= 3
  {
    hide CountBits32, Tally, Ones, MsbBits, Differences, Xor;
    CountIsOnes(a ^ b);
    XorWide(a, b);
    XorDifferences(a as bv64, b as bv64, 32);
    TallySmall();
    var n := Ones(Bits32(a ^ b));
    if n >= 4 {
      TallyLarge(n);
    }
  }

  // ---- the two fields of a sync word ----

  /** The places of the marker in a 64-bit sync word. */
  function MarkerOf(bits: seq<bool>): (r: seq<bool>)
    requires |bits| == 64
    ensures |r| == 32
  {
    bits[16..48]
  }

  /** The places of the mode code, around the marker. */
  function CodeOf(bits: seq<bool>): (r: seq<bool>)
    requires |bits| == 64
    ensures |r| == 32
  {
    bits[..16] + bits[48..]
  }

  /** A 64-bit string within three places of a mode's sync word, in the marker and in the code. */
  predicate CloseTo(bits: seq<bool>, mode: nat)
    requires |bits| == 64 && mode < |SYNC_WORDS|
  {
    var word := MsbBits(SYNC_WORDS[mode], 64);
    Differences(MarkerOf(bits), MarkerOf(word)) <= 3 && Differences(CodeOf(bits), CodeOf(word)) <= 3
  }

  lemma WideMarker(r: bv64)
    ensures (((r & 0x0000_FFFF_FFFF_0000) >> 16) as bv32) as bv64 == (r >> 16) & 0xFFFF_FFFF
  {
  }

  lemma WideCode(r: bv64)
    ensures ((((r & 0xFFFF_0000_0000_0000) >> 32) | (r & 0xFFFF)) as bv32) as bv64 ==
            ((r & 0xFFFF_0000_0000_0000) >> 32) | (r & 0xFFFF)
  {
  }

  lemma LowWord(w: bv64)
    ensures MsbBits(w & 0xFFFF_FFFF, 32) == MsbBits(w, 32)
  {
    hide MsbBits, Agree;
    MaskWord(w);
    LowMasks();
    AgreeWindow(w & 0xFFFF_FFFF, w, 32);
  }

  /** The window of a register in four parts of sixteen. */
  lemma FourParts(r: bv64)
    ensures MsbBits(r, 64)[48..] == MsbBits(r, 16)
    ensures MsbBits(r, 64)[16..48] == MsbBits(r >> 16, 32)
    ensures MsbBits(r, 64)[..16] == MsbBits(r >> 48, 16)
  {
    hide MsbBits, Drop;
    MsbSplit(r, 48, 16);
    DropSixteen();
    MsbSplit(r >> 16, 16, 32);
    DropThirtyTwo();
    assert Drop(r >> 16, 32) == r >> 48;
  }

  lemma MarkerBits(r: bv64)
    ensures Bits32(((r & 0x0000_FFFF_FFFF_0000) >> 16) as bv32) == MarkerOf(MsbBits(r, 64))
  {
    hide MsbBits;
    WideMarker(r);
    FourParts(r);
    AllLowWords();
  }

  lemma AllLowWords()
    ensures forall w :: MsbBits(w & 0xFFFF_FFFF, 32) == MsbBits(w, 32)
  {
    hide MsbBits;
    forall w: bv64 {
      LowWord(w);
    }
  }

  lemma LowHalf(w: bv64)
    ensures MsbBits(w & 0xFFFF, 16) == MsbBits(w, 16)
  {
    hide MsbBits, Agree;
    SixteenAgree(w);
    LowMasks();
    AgreeWindow(w & 0xFFFF, w, 16);
  }

  lemma SixteenAgree(w: bv64)
    ensures Agree(w & 0xFFFF, w, 0xFFFF)
  {
  }

  lemma AllLowHalves()
    ensures forall w :: MsbBits(w, 16) == MsbBits(w & 0xFFFF, 16)
  {
    hide MsbBits;
    forall w: bv64 {
      LowHalf(w);
    }
  }

  lemma TwoHalves(v: bv64)
    ensures MsbBits(v, 32) == MsbBits(v >> 16, 16) + MsbBits(v, 16)
  {
    hide MsbBits, Drop;
    MsbSplit(v, 16, 16);
    DropSixteen();
  }

  lemma AllTwoHalves()
    ensures forall v :: MsbBits(v, 32) == MsbBits(v >> 16, 16) + MsbBits(v, 16)
  {
    hide MsbBits;
    forall v: bv64 {
      TwoHalves(v);
    }
  }

  lemma CodeHalves(r: bv64)
    ensures MsbBits((((r & 0xFFFF_0000_0000_0000) >> 32) | (r & 0xFFFF)) >> 16, 16) == MsbBits(r >> 48, 16)
    ensures MsbBits(((r & 0xFFFF_0000_0000_0000) >> 32) | (r & 0xFFFF), 16) == MsbBits(r, 16)
  {
    hide MsbBits;
    AllLowHalves();
    assert MsbBits(((((r & 0xFFFF_0000_0000_0000) >> 32) | (r & 0xFFFF)) >> 16) & 0xFFFF, 16) ==
           MsbBits((r >> 48) & 0xFFFF, 16);
    assert MsbBits((((r & 0xFFFF_0000_0000_0000) >> 32) | (r & 0xFFFF)) & 0xFFFF, 16) == MsbBits(r & 0xFFFF, 16);
  }

  lemma CodeBits(r: bv64)
    ensures Bits32((((r & 0xFFFF_0000_0000_0000) >> 32) | (r & 0xFFFF)) as bv32) == CodeOf(MsbBits(r, 64))
  {
    hide MsbBits;
    WideCode(r);
    FourParts(r);
    AllTwoHalves();
    CodeHalves(r);
  }

  lemma Fields0()
    ensures MarkerOf(MsbBits(0x870C_A6C6_AAAA_78F3, 64)) == Bits32(SYNC_MARKER)
    ensures CodeOf(MsbBits(0x870C_A6C6_AAAA_78F3, 64)) == Bits32(MODES[0].sync)
  {
    hide MsbBits, Bits32, MarkerOf, CodeOf;
    MarkerBits(0x870C_A6C6_AAAA_78F3);
    CodeBits(0x870C_A6C6_AAAA_78F3);
  }

  lemma Fields1()
    ensures MarkerOf(MsbBits(0xB068_A6C6_AAAA_4F97, 64)) == Bits32(SYNC_MARKER)
    ensures CodeOf(MsbBits(0xB068_A6C6_AAAA_4F97, 64)) == Bits32(MODES[1].sync)
  {
    hide MsbBits, Bits32, MarkerOf, CodeOf;
    MarkerBits(0xB068_A6C6_AAAA_4F97);
    CodeBits(0xB068_A6C6_AAAA_4F97);
  }

  lemma Fields2()
    ensures MarkerOf(MsbBits(0xDEA0_A6C6_AAAA_215F, 64)) == Bits32(SYNC_MARKER)
    ensures CodeOf(MsbBits(0xDEA0_A6C6_AAAA_215F, 64)) == Bits32(MODES[2].sync)
  {
    hide MsbBits, Bits32, MarkerOf, CodeOf;
    MarkerBits(0xDEA0_A6C6_AAAA_215F);
    CodeBits(0xDEA0_A6C6_AAAA_215F);
  }

  lemma Fields3()
    ensures MarkerOf(MsbBits(0x4C7C_A6C6_AAAA_B383, 64)) == Bits32(SYNC_MARKER)
    ensures CodeOf(MsbBits(0x4C7C_A6C6_AAAA_B383, 64)) == Bits32(MODES[3].sync)
  {
    hide MsbBits, Bits32, MarkerOf, CodeOf;
    MarkerBits(0x4C7C_A6C6_AAAA_B383);
    CodeBits(0x4C7C_A6C6_AAAA_B383);
  }

  /** Every sync word carries the marker and the code of its mode. */
  lemma SyncWordFields(mode: nat)
    requires mode < |SYNC_WORDS|
    ensures MarkerOf(MsbBits(SYNC_WORDS[mode], 64)) == Bits32(SYNC_MARKER)
    ensures CodeOf(MsbBits(SYNC_WORDS[mode], 64)) == Bits32(MODES[mode].sync)
  {
    hide MsbBits, Bits32, MarkerOf, CodeOf;
    Fields0(); Fields1(); Fields2(); Fields3();
  }

  /** Exactly which registers are recognised as which mode: up to three wrong bits are tolerated in the marker,
      and up to three in the code. */
  lemma Recognises(r: bv64, mode: nat)
    requires mode < |SYNC_WORDS|
    ensures SyncMode(r) == mode <==> CloseTo(MsbBits(r, 64), mode)
  {
    hide Near, FirstNear, MsbBits, Bits32, Differences, MarkerOf, CodeOf;
    SyncWordFields(mode);
    MarkerBits(r);
    CodeBits(r);
    NearIsDistance(((r & 0x0000_FFFF_FFFF_0000) >> 16) as bv32, SYNC_MARKER);
    NearIsDistance((((r & 0xFFFF_0000_0000_0000) >> 32) | (r & 0xFFFF)) as bv32, MODES[mode].sync);
    ModeIsUnambiguous((((r & 0xFFFF_0000_0000_0000) >> 32) | (r & 0xFFFF)) as bv32, mode);
  }

  /** No bit string is close to two sync words. */
  lemma CloseToOne(r: bv64, i: nat, j: nat)
    requires i < |SYNC_WORDS| && j < |SYNC_WORDS| && i != j
    ensures !(CloseTo(MsbBits(r, 64), i) && CloseTo(MsbBits(r, 64), j))
  {
    hide MsbBits, CloseTo, SyncMode;
    Recognises(r, i);
    Recognises(r, j);
  }

  /** A marker with at most three wrong bits is more than three bits wrong one place later, whatever bit comes in. */
  lemma MarkerShifted(m: bv32, n: bv32)
    requires n & 0xFFFF_FFFE == m << 1
    ensures Differences(Bits32(m), Bits32(SYNC_MARKER)) > 3 || Differences(Bits32(n), Bits32(SYNC_MARKER)) > 3
  {
    MarkerNotTwice(m, n);
    hide Near, Bits32, Differences;
    NearIsDistance(m, SYNC_MARKER);
    NearIsDistance(n, SYNC_MARKER);
  }
}
