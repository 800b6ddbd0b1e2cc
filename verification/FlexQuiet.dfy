/** No FLEX sync word is found too early: not while a sync word is entering a register that is empty, nor
    while one is entering a register that still holds an older one, with up to two bits in between. */
module FlexQuiet {
  import opened ShiftRegister
  import opened FlexModes
  import opened FlexUtil
  import opened FlexAcquire

  predicate IsSyncWord(w: bv64) {
    w == 0x870C_A6C6_AAAA_78F3 || w == 0xB068_A6C6_AAAA_4F97 || w == 0xDEA0_A6C6_AAAA_215F || w == 0x4C7C_A6C6_AAAA_B383
  }

  /** A sync word and one more bit. */
  predicate OneBitOn(u: bv64) {
    || u | 1 == 0x0E19_4D8D_5554_F1E7
    || u | 1 == 0x60D1_4D8D_5554_9F2F
    || u | 1 == 0xBD41_4D8D_5554_42BF
    || u | 1 == 0x98F9_4D8D_5555_6707
  }

  /** A sync word and two more bits. */
  predicate TwoBitsOn(u: bv64) {
    || u | 3 == 0x1C32_9B1A_AAA9_E3CF
    || u | 3 == 0xC1A2_9B1A_AAA9_3E5F
    || u | 3 == 0x7A82_9B1A_AAA8_857F
    || u | 3 == 0x31F2_9B1A_AAAA_CE0F
  }

  /** A register that is empty, or holds a sync word and at most two more bits. */
  predicate Settled(u: bv64) { u == 0 || IsSyncWord(u) || OneBitOn(u) || TwoBitsOn(u) }

  /** The marker test alone. */
  predicate MarkerNear(r: bv64) { Near(((r & 0x0000_FFFF_FFFF_0000) >> 16) as bv32, SYNC_MARKER) }

  /** Two words as one long register, shifted left by `m` places. */
  function After(h: bv64, l: bv64, m: nat): (bv64, bv64)
    decreases m
  {
    if m == 0 then (h, l) else After((h << 1) | (l >> 63), l << 1, m - 1)
  }

  /** No marker in the upper word after one to `m` places. */
  predicate NoneAbove(h: bv64, l: bv64, m: nat)
    decreases m
  {
    m == 0 || (!MarkerNear((h << 1) | (l >> 63)) && NoneAbove((h << 1) | (l >> 63), l << 1, m - 1))
  }

  lemma {:induction false} AfterAdd(h: bv64, l: bv64, m: nat, n: nat)
    ensures After(h, l, m + n) == After(After(h, l, m).0, After(h, l, m).1, n)
    decreases m
  {
    if m > 0 {
      AfterAdd((h << 1) | (l >> 63), l << 1, m - 1, n);
    }
  }

  lemma {:induction false} NoneAboveAdd(h: bv64, l: bv64, m: nat, n: nat)
    requires NoneAbove(h, l, m) && NoneAbove(After(h, l, m).0, After(h, l, m).1, n)
    ensures NoneAbove(h, l, m + n)
    decreases m
  {
    hide MarkerNear;
    if m > 0 {
      NoneAboveAdd((h << 1) | (l >> 63), l << 1, m - 1, n);
    }
  }

  lemma {:induction false} NoneAboveAt(h: bv64, l: bv64, m: nat, k: nat)
    requires NoneAbove(h, l, m) && 0 < k <= m
    ensures !MarkerNear(After(h, l, k).0)
    decreases m
  {
    hide MarkerNear;
    if k > 1 {
      NoneAboveAt((h << 1) | (l >> 63), l << 1, m - 1, k - 1);
    }
  }

  lemma AfterNone(h: bv64, l: bv64)
    ensures After(h, l, 0) == (h, l)
  {
  }

  lemma Seven()
    ensures forall h, l :: After(h, l, 7) == ((h << 7) | (l >> 57), l << 7)
  {
  }

  // Seven places at a time.

  lemma Marks0(u: bv64, w: bv64)
    requires Settled(u) && IsSyncWord(w)
    ensures NoneAbove(u, w, 7)
  {
    if u == 0 {
    } else if TwoBitsOn(u) {
    } else if OneBitOn(u) {
    }
  }

  lemma Marks7(u: bv64, w: bv64)
    requires Settled(u) && IsSyncWord(w)
    ensures NoneAbove((u << 7) | (w >> 57), w << 7, 7)
  {
    if u == 0 {
    } else if TwoBitsOn(u) {
    } else if OneBitOn(u) {
    }
  }

  lemma Marks14(u: bv64, w: bv64)
    requires Settled(u) && IsSyncWord(w)
    ensures NoneAbove((u << 14) | (w >> 50), w << 14, 7)
  {
    if u == 0 {
    } else if TwoBitsOn(u) {
    } else if OneBitOn(u) {
    }
  }

  lemma Marks21(u: bv64, w: bv64)
    requires Settled(u) && IsSyncWord(w)
    ensures NoneAbove((u << 21) | (w >> 43), w << 21, 7)
  {
    if u == 0 {
    } else if TwoBitsOn(u) {
    } else if OneBitOn(u) {
    }
  }

  lemma Marks28(u: bv64, w: bv64)
    requires Settled(u) && IsSyncWord(w)
    ensures NoneAbove((u << 28) | (w >> 36), w << 28, 7)
  {
    if u == 0 {
    } else if TwoBitsOn(u) {
    } else if OneBitOn(u) {
    }
  }

  lemma Marks35(u: bv64, w: bv64)
    requires Settled(u) && IsSyncWord(w)
    ensures NoneAbove((u << 35) | (w >> 29), w << 35, 7)
  {
    if u == 0 {
    } else if TwoBitsOn(u) {
    } else if OneBitOn(u) {
    }
  }

  lemma Marks42(u: bv64, w: bv64)
    requires Settled(u) && IsSyncWord(w)
    ensures NoneAbove((u << 42) | (w >> 22), w << 42, 7)
  {
    if u == 0 {
    } else if TwoBitsOn(u) {
    } else if OneBitOn(u) {
    }
  }

  lemma Marks49(u: bv64, w: bv64)
    requires Settled(u) && IsSyncWord(w)
    ensures NoneAbove((u << 49) | (w >> 15), w << 49, 7)
  {
    if u == 0 {
    } else if TwoBitsOn(u) {
    } else if OneBitOn(u) {
    }
  }

  lemma Marks56(u: bv64, w: bv64)
    requires Settled(u) && IsSyncWord(w)
    ensures NoneAbove((u << 56) | (w >> 8), w << 56, 7)
  {
    if u == 0 {
    } else if TwoBitsOn(u) {
    } else if OneBitOn(u) {
    }
  }

  lemma Position7(u: bv64, w: bv64)
    ensures After(u, w, 7) == ((u << 7) | (w >> 57), w << 7)
  {
    hide After;
    AfterNone(u, w);
    Seven();
    AfterAdd(u, w, 0, 7);
  }

  lemma Position14(u: bv64, w: bv64)
    ensures After(u, w, 14) == ((u << 14) | (w >> 50), w << 14)
  {
    hide After;
    Position7(u, w);
    Seven();
    AfterAdd(u, w, 7, 7);
  }

  lemma Position21(u: bv64, w: bv64)
    ensures After(u, w, 21) == ((u << 21) | (w >> 43), w << 21)
  {
    hide After;
    Position14(u, w);
    Seven();
    AfterAdd(u, w, 14, 7);
  }

  lemma Position28(u: bv64, w: bv64)
    ensures After(u, w, 28) == ((u << 28) | (w >> 36), w << 28)
  {
    hide After;
    Position21(u, w);
    Seven();
    AfterAdd(u, w, 21, 7);
  }

  lemma Position35(u: bv64, w: bv64)
    ensures After(u, w, 35) == ((u << 35) | (w >> 29), w << 35)
  {
    hide After;
    Position28(u, w);
    Seven();
    AfterAdd(u, w, 28, 7);
  }

  lemma Position42(u: bv64, w: bv64)
    ensures After(u, w, 42) == ((u << 42) | (w >> 22), w << 42)
  {
    hide After;
    Position35(u, w);
    Seven();
    AfterAdd(u, w, 35, 7);
  }

  lemma Position49(u: bv64, w: bv64)
    ensures After(u, w, 49) == ((u << 49) | (w >> 15), w << 49)
  {
    hide After;
    Position42(u, w);
    Seven();
    AfterAdd(u, w, 42, 7);
  }

  lemma Position56(u: bv64, w: bv64)
    ensures After(u, w, 56) == ((u << 56) | (w >> 8), w << 56)
  {
    hide After;
    Position49(u, w);
    Seven();
    AfterAdd(u, w, 49, 7);
  }

  /** The first 63 bits of a sync word bring no marker. */
  lemma Unmarked(u: bv64, w: bv64)
    requires Settled(u) && IsSyncWord(w)
    ensures NoneAbove(u, w, 63)
  {
    hide NoneAbove, After, Settled, IsSyncWord;
    Marks0(u, w);
    Position7(u, w);
    Marks7(u, w);
    NoneAboveAdd(u, w, 7, 7);
    Position14(u, w);
    Marks14(u, w);
    NoneAboveAdd(u, w, 14, 7);
    Position21(u, w);
    Marks21(u, w);
    NoneAboveAdd(u, w, 21, 7);
    Position28(u, w);
    Marks28(u, w);
    NoneAboveAdd(u, w, 28, 7);
    Position35(u, w);
    Marks35(u, w);
    NoneAboveAdd(u, w, 35, 7);
    Position42(u, w);
    Marks42(u, w);
    NoneAboveAdd(u, w, 42, 7);
    Position49(u, w);
    Marks49(u, w);
    NoneAboveAdd(u, w, 49, 7);
    Position56(u, w);
    Marks56(u, w);
    NoneAboveAdd(u, w, 56, 7);
  }

  // ---- the long register takes the bits of its lower word ----

  lemma DropSeven()
    ensures forall w :: Drop(w, 7) == w >> 7
  {
    hide Half;
    forall w: bv64 ensures Drop(w, 7) == w >> 7 {
      HalfShifts(w);
    }
  }

  lemma DropFifteen()
    ensures forall w :: Drop(w, 15) == w >> 15
  {
    hide Drop;
    DropSeven();
    DropEight();
    forall w: bv64 ensures Drop(w, 15) == w >> 15 {
      DropAdd(w, 8, 7);
      assert Drop(w >> 8, 7) == w >> 15;
    }
  }

  lemma DropThirtyOne()
    ensures forall w :: Drop(w, 31) == w >> 31
  {
    hide Drop;
    DropFifteen();
    DropSixteen();
    forall w: bv64 ensures Drop(w, 31) == w >> 31 {
      DropAdd(w, 16, 15);
      assert Drop(w >> 16, 15) == w >> 31;
    }
  }

  lemma DropToTop(w: bv64)
    ensures Drop(w, 63) == w >> 63
  {
    hide Drop;
    DropThirtyTwo();
    DropThirtyOne();
    DropAdd(w, 32, 31);
    assert Drop(w >> 32, 31) == w >> 63;
  }

  lemma FirstOfWindow(w: bv64)
    ensures MsbBits(w, 64)[0] == (w >> 63 == 1)
  {
    hide Drop;
    MsbSplit(w, 1, 63);
    DropToTop(w);
    assert MsbBits(w >> 63, 1) == [LowBit(w >> 63)];
    TopIsBit(w);
    hide MsbBits;
  }

  lemma TopIsBit(w: bv64)
    ensures LowBit(w >> 63) == (w >> 63 == 1)
  {
  }

  lemma PushTop(h: bv64, l: bv64)
    ensures (h << 1) | (l >> 63) == ShiftIn(h, l >> 63 == 1)
    ensures l << 1 == ShiftIn(l, false)
  {
  }

  lemma AfterNext(u: bv64, w: bv64, k: nat)
    ensures var (h, l) := After(u, w, k); After(u, w, k + 1) == (ShiftIn(h, l >> 63 == 1), ShiftIn(l, false))
  {
    var (h, l) := After(u, w, k);
    AfterAdd(u, w, k, 1);
    AfterNone((h << 1) | (l >> 63), l << 1);
    PushTop(h, l);
    assert After(h, l, 1) == After((h << 1) | (l >> 63), l << 1, 0);
    hide After, ShiftIn;
  }

  lemma {:induction false} AfterIsShifted(u: bv64, w: bv64, k: nat)
    requires k <= 64
    ensures After(u, w, k).0 == Shifted(u, MsbBits(w, 64)[..k])
    ensures MsbBits(After(u, w, k).1, 64)[..64 - k] == MsbBits(w, 64)[k..]
    decreases k
  {
    hide After, ShiftIn, MsbBits, Shifted;
    var bits := MsbBits(w, 64);
    if k == 0 {
      AfterNone(u, w);
      NothingIn(u);
      assert bits[..0] == [];
    } else {
      AfterIsShifted(u, w, k - 1);
      AfterNext(u, w, k - 1);
      var (h, l) := After(u, w, k - 1);
      FirstOfWindow(l);
      assert MsbBits(l, 64)[0] == bits[k - 1];
      assert bits[..k] == bits[..k - 1] + [bits[k - 1]];
      ShiftedSnoc(u, bits[..k - 1], bits[k - 1]);
      Slide(l, false, 64);
      NextBits(MsbBits(l, 64), bits, k);
    }
  }

  lemma NextBits(window: seq<bool>, bits: seq<bool>, k: nat)
    requires |window| == 64 == |bits| && 0 < k <= 64 && window[..65 - k] == bits[k - 1..]
    ensures (window[1..] + [false])[..64 - k] == bits[k..]
  {
    forall i | 0 <= i < 64 - k ensures (window[1..] + [false])[i] == bits[k..][i] {
      assert window[..65 - k][i + 1] == bits[k - 1..][i + 1];
    }
  }

  lemma NothingIn(u: bv64)
    ensures Shifted(u, []) == u
  {
  }

  lemma NoMarkerNoMode(r: bv64)
    requires !MarkerNear(r)
    ensures SyncMode(r) == -1
  {
  }

  lemma SyncWordsListed(mode: nat)
    requires mode < |SYNC_WORDS|
    ensures IsSyncWord(SYNC_WORDS[mode])
  {
  }

  /** However far a sync word has entered a settled register, short of its last bit, none is found. */
  lemma Quiet(u: bv64, mode: nat, k: nat)
    requires Settled(u) && mode < |SYNC_WORDS| && 0 < k < 64
    ensures SyncMode(Shifted(u, MsbBits(SYNC_WORDS[mode], 64)[..k])) == -1
  {
    hide After, Shifted, MsbBits, Settled, IsSyncWord, MarkerNear, SyncMode, NoneAbove;
    SyncWordsListed(mode);
    Unmarked(u, SYNC_WORDS[mode]);
    NoneAboveAt(u, SYNC_WORDS[mode], 63, k);
    AfterIsShifted(u, SYNC_WORDS[mode], k);
    NoMarkerNoMode(After(u, SYNC_WORDS[mode], k).0);
  }
}
