/** FLEX transmission modes, and the distance test that recognises their sync codes. */
module FlexModes {

  datatype Mode = Mode(sync: bv32, baud: nat, levels: nat)

  const MODES: seq<Mode> := [
    Mode(0x870C_78F3, 1600, 2),
    Mode(0xB068_4F97, 1600, 4),
    Mode(0xDEA0_215F, 3200, 4),
    Mode(0x4C7C_B383, 3200, 4)
  ]

  const SYNC_MARKER: bv32 := 0xA6C6_AAAA

  /** Number of one bits, by adding neighbouring fields in parallel. */
  function CountBits32(x: bv32): bv32 {
    var r1 := (x & 0x5555_5555) + ((x >> 1) & 0x5555_5555);
    var r2 := (r1 & 0x3333_3333) + ((r1 >> 2) & 0x3333_3333);
    var r3 := (r2 & 0x0F0F_0F0F) + ((r2 >> 4) & 0x0F0F_0F0F);
    var r4 := (r3 & 0x00FF_00FF) + ((r3 >> 8) & 0x00FF_00FF);
    (r4 & 0x0000_FFFF) + ((r4 >> 16) & 0x0000_FFFF)
  }

  function Sum(a: bv32, b: bv32): bv32 { a + b }

  /** The one bits of a byte, bit by bit. */
  function Ones8(b: bv32): bv32 {
    Sum(Sum(Sum(Sum(Sum(Sum(Sum(b & 1, (b >> 1) & 1), (b >> 2) & 1), (b >> 3) & 1),
                    (b >> 4) & 1), (b >> 5) & 1), (b >> 6) & 1), (b >> 7) & 1)
  }

  lemma CountByte(x: bv32)
    requires x < 0x100
    ensures CountBits32(x) == Ones8(x)
  {
  }

  lemma CountBytes(x: bv32)
    requires x < 0x1_0000
    ensures CountBits32(x) == Sum(CountBits32(x & 0xFF), CountBits32(x >> 8))
  {
  }

  lemma CountHalves(x: bv32)
    ensures CountBits32(x) == Sum(CountBits32(x & 0xFFFF), CountBits32(x >> 16))
  {
  }

  lemma ByteBounds(x: bv32)
    ensures x & 0xFFFF < 0x1_0000 && x >> 16 < 0x1_0000
  {
  }

  lemma LowByte(x: bv32)
    requires x < 0x1_0000
    ensures x & 0xFF < 0x100 && x >> 8 < 0x100
  {
  }

  lemma CountHalf(x: bv32)
    requires x < 0x1_0000
    ensures CountBits32(x) == Sum(Ones8(x & 0xFF), Ones8(x >> 8))
  {
    hide CountBits32, Ones8, Sum;
    LowByte(x);
    CountBytes(x);
    CountByte(x & 0xFF);
    CountByte(x >> 8);
  }

  /** The parallel count is the number of one bits. */
  lemma FastCount(x: bv32)
    ensures var low, high := x & 0xFFFF, x >> 16;
            CountBits32(x) == Sum(Sum(Ones8(low & 0xFF), Ones8(low >> 8)), Sum(Ones8(high & 0xFF), Ones8(high >> 8)))
  {
    hide CountBits32, Ones8, Sum;
    ByteBounds(x);
    CountHalves(x);
    CountHalf(x & 0xFFFF);
    CountHalf(x >> 16);
  }

  /** Hamming distance below four. */
  predicate Near(a: bv32, b: bv32) {
    CountBits32(a ^ b) < 4
  }

  /** The first mode, from the `i`-th on, whose code is near; -1 if there is none. */
  function FirstNear(code: bv32, i: nat): (m: int)
    requires i <= |MODES|
    ensures m == -1 || i <= m < |MODES|
    decreases |MODES| - i
  {
    if i == |MODES| then -1
    else if Near(code, MODES[i].sync) then i
    else FirstNear(code, i + 1)
  }

  // No code word is within distance three of two sync codes.
  lemma Apart01(code: bv32) ensures !(Near(code, 0x870C_78F3) && Near(code, 0xB068_4F97)) {}
  lemma Apart02(code: bv32) ensures !(Near(code, 0x870C_78F3) && Near(code, 0xDEA0_215F)) {}
  lemma Apart03(code: bv32) ensures !(Near(code, 0x870C_78F3) && Near(code, 0x4C7C_B383)) {}
  lemma Apart12(code: bv32) ensures !(Near(code, 0xB068_4F97) && Near(code, 0xDEA0_215F)) {}
  lemma Apart13(code: bv32) ensures !(Near(code, 0xB068_4F97) && Near(code, 0x4C7C_B383)) {}
  lemma Apart23(code: bv32) ensures !(Near(code, 0xDEA0_215F) && Near(code, 0x4C7C_B383)) {}

  /** The decision does not depend on the order of the table: at most one mode is near any code. */
  lemma ModeIsUnambiguous(code: bv32, i: nat)
    requires i < |MODES|
    ensures FirstNear(code, 0) == i <==> Near(code, MODES[i].sync)
  {
    hide CountBits32, Near;
    Apart01(code); Apart02(code); Apart03(code); Apart12(code); Apart13(code); Apart23(code);
  }

  // ---- the 64-bit sync word: code high half, marker, code low half ----

  /** The mode whose sync word a register holds, or -1. */
  function SyncMode(r: bv64): (m: int)
    ensures m == -1 || 0 <= m < |MODES|
  {
    if Near(((r & 0x0000_FFFF_FFFF_0000) >> 16) as bv32, SYNC_MARKER) then
      FirstNear((((r & 0xFFFF_0000_0000_0000) >> 32) | (r & 0xFFFF)) as bv32, 0)
    else -1
  }

  /** The marker is far from its own left shift. */
  lemma MarkerNotTwice(m: bv32, n: bv32)
    requires n & 0xFFFF_FFFE == m << 1
    ensures !(Near(m, SYNC_MARKER) && Near(n, SYNC_MARKER))
  {
  }

  lemma MarkersNotTwice()
    ensures forall m, n :: Near(m, SYNC_MARKER) && Near(n, SYNC_MARKER) ==> n & 0xFFFF_FFFE != m << 1
  {
    hide Near;
    forall m, n | n & 0xFFFF_FFFE == m << 1 ensures !(Near(m, SYNC_MARKER) && Near(n, SYNC_MARKER)) {
      MarkerNotTwice(m, n);
    }
  }

  // A register that has just matched cannot match again one bit later.

  lemma MatchesOnceZero(r: bv64)
    requires SyncMode(r) != -1
    ensures SyncMode(r << 1) == -1
  {
    hide Near, FirstNear;
    MarkersNotTwice();
  }

  lemma MatchesOnceOne(r: bv64)
    requires SyncMode(r) != -1
    ensures SyncMode((r << 1) | 1) == -1
  {
    hide Near, FirstNear;
    MarkersNotTwice();
  }

  /** The sync word of each mode: code high half, marker, code low half. */
  const SYNC_WORDS: seq<bv64> := [
    0x870C_A6C6_AAAA_78F3, 0xB068_A6C6_AAAA_4F97, 0xDEA0_A6C6_AAAA_215F, 0x4C7C_A6C6_AAAA_B383
  ]

  lemma Word0() ensures SyncMode(0x870C_A6C6_AAAA_78F3) == 0 {}
  lemma Word1() ensures SyncMode(0xB068_A6C6_AAAA_4F97) == 1 {}
  lemma Word2() ensures SyncMode(0xDEA0_A6C6_AAAA_215F) == 2 {}
  lemma Word3() ensures SyncMode(0x4C7C_A6C6_AAAA_B383) == 3 {}

  /** Every mode's sync word is recognised as that mode. */
  lemma SyncWordModes(mode: nat)
    requires mode < |SYNC_WORDS|
    ensures SyncMode(SYNC_WORDS[mode]) == mode
  {
    hide SyncMode;
    Word0(); Word1(); Word2(); Word3();
  }

  /** Look-up of an exact code. */
  method FindFlexMode(code: bv32) returns (mode: int)
    ensures mode == -1 <==> forall i :: 0 <= i < |MODES| ==> MODES[i].sync != code
    ensures mode != -1 ==> 0 <= mode < |MODES| && MODES[mode].sync == code
  {
    for i := 0 to |MODES|
      invariant forall k :: 0 <= k < i ==> MODES[k].sync != code
    {
      if MODES[i].sync == code {
        return i;
      }
    }
    return -1;
  }
}
