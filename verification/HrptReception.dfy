/** What the deframer does to a split-phase transmission: when the bit clock locks, that
    locked reception is exact, how words are collected, and what the sync pattern is. */
module HrptReception {
  import opened Machine
  import opened Integers
  import opened ShiftRegister
  import opened HrptDeframer

  // ---- the transmitter ----

  function WordBits(w: nat): (bits: seq<bool>)
    ensures |bits| == BITS_PER_WORD
  {
    IntBits(w, BITS_PER_WORD)
  }

  function FrameBits(words: seq<Word>): (bits: seq<bool>)
    ensures |bits| == BITS_PER_WORD * |words|
  {
    if words == [] then [] else FrameBits(words[..|words| - 1]) + WordBits(words[|words| - 1])
  }

  /** Each bit is sent as its complement followed by itself. */
  function Manchester(bits: seq<bool>): seq<bool> {
    if bits == [] then []
    else Manchester(bits[..|bits| - 1]) + [!bits[|bits| - 1], bits[|bits| - 1]]
  }

  ghost predicate MinorFrame(words: seq<Word>) {
    && |words| == 11090
    && words[..SYNC_WORDS] == SYNC
    && forall k :: 0 <= k < |words| ==> words[k] < 1024
  }

  lemma FrameBitsNone()
    ensures FrameBits([]) == []
  {
  }

  lemma FrameBitsTake(words: seq<Word>, n: nat)
    requires n < |words|
    ensures FrameBits(words[..n + 1]) == FrameBits(words[..n]) + WordBits(words[n])
  {
    assert words[..n + 1][..n] == words[..n];
  }

  lemma {:induction false} FrameBitsAppend(a: seq<Word>, b: seq<Word>)
    ensures FrameBits(a + b) == FrameBits(a) + FrameBits(b)
    decreases |b|
  {
    hide WordBits;
    if b == [] {
      assert a + b == a;
    } else {
      assert (a + b)[..|a + b| - 1] == a + b[..|b| - 1];
      FrameBitsAppend(a, b[..|b| - 1]);
    }
  }

  lemma {:induction false} ManchesterAppend(a: seq<bool>, b: seq<bool>)
    ensures Manchester(a + b) == Manchester(a) + Manchester(b)
    decreases |b|
  {
    if b == [] {
      assert a + b == a;
    } else {
      assert (a + b)[..|a + b| - 1] == a + b[..|b| - 1];
      ManchesterAppend(a, b[..|b| - 1]);
    }
  }

  // ---- the bit clock ----

  ghost predicate HasChange(bits: seq<bool>) {
    exists i :: 0 < i < |bits| && bits[i - 1] != bits[i]
  }

  function LastOf(bits: seq<bool>, default: bool): bool {
    if bits == [] then default else bits[|bits| - 1]
  }

  /** The two half-bits of one bit, in any state. */
  lemma OneBit(s: State, bit: bool)
    ensures Run(Step, s, [!bit, bit]) ==
            (var (s1, o1) := Step(s, !bit); var (s2, o2) := Step(s1, bit); (s2, o1 + o2))
  {
    hide Step;
    assert [!bit, bit] == [!bit] + [bit];
    assert [!bit] == [] + [!bit];
    RunSnoc(Step, s, [!bit], bit);
    RunSnoc(Step, s, [], !bit);
    assert [] + Step(s, !bit).1 == Step(s, !bit).1;
  }

  /** Once the clock is locked it stays locked, and the framer is given exactly the transmitted bits. */
  lemma {:induction false} LockedReception(s: State, bits: seq<bool>)
    requires !s.clock.midBit
    ensures var (f, out) := Run(TakeBit, s.framer, bits);
            Run(Step, s, Manchester(bits)) == (State(Clock(false, LastOf(bits, s.clock.lastBit)), f), out)
    decreases |bits|
  {
    if bits == [] {
    } else {
      hide Step, TakeBit;
      var front, bit := bits[..|bits| - 1], bits[|bits| - 1];
      LockedReception(s, front);
      var (s1, o1) := Run(Step, s, Manchester(front));
      RunAppend(Step, s, Manchester(front), [!bit, bit]);
      assert bits == front + [bit];
      LockedBit(s1, bit);
      RunSnoc(TakeBit, s.framer, front, bit);
    }
  }

  lemma LockedBit(s: State, bit: bool)
    requires !s.clock.midBit
    ensures Run(Step, s, [!bit, bit]) == (State(Clock(false, bit), TakeBit(s.framer, bit).0), TakeBit(s.framer, bit).1)
  {
    hide TakeBit;
    OneBit(s, bit);
    var o := TakeBit(s.framer, bit).1;
    assert [] + o == o;
  }

  /** A receiver that has emitted nothing is still searching. */
  lemma {:induction false} SilentIsIdle(s: State, halves: seq<bool>)
    requires !s.framer.synced && Run(Step, s, halves).1 == []
    ensures !Run(Step, s, halves).0.framer.synced
    decreases |halves|
  {
    hide ShiftIn;
    if halves != [] {
      var front := halves[..|halves| - 1];
      SilentIsIdle(s, front);
    }
  }

  /** The clock is locked if and only if it was locked at `s` or two adjacent bits differed since. */
  ghost predicate LocksOnChange(s: State, bits: seq<bool>, c: Clock) {
    && (!c.midBit <==> !s.clock.midBit || HasChange([s.clock.lastBit] + bits))
    && c.lastBit == LastOf(bits, s.clock.lastBit)
  }

  lemma LocksOnChangeStep(s: State, bits: seq<bool>, bit: bool, t: State)
    requires LocksOnChange(s, bits, t.clock)
    requires !t.framer.synced && Run(Step, t, [!bit, bit]).1 == []
    ensures LocksOnChange(s, bits + [bit], Run(Step, t, [!bit, bit]).0.clock)
  {
    hide Step, TakeBit, HasChange, Run;
    SearchingBit(t, bit);
    ChangeSnoc([s.clock.lastBit] + bits, bit);
    assert [s.clock.lastBit] + (bits + [bit]) == [s.clock.lastBit] + bits + [bit];
  }

  /** Self-locking, for every well-formed transmission in which nothing is found. */
  lemma {:induction false} SelfLocking(s: State, bits: seq<bool>)
    requires !s.framer.synced && Run(Step, s, Manchester(bits)).1 == []
    ensures LocksOnChange(s, bits, Run(Step, s, Manchester(bits)).0.clock)
    decreases |bits|
  {
    if bits == [] {
      hide Step, TakeBit;
    } else {
      hide Step, TakeBit, HasChange, Run, LocksOnChange;
      var front, bit := bits[..|bits| - 1], bits[|bits| - 1];
      assert bits == front + [bit];
      RunAppend(Step, s, Manchester(front), [!bit, bit]);
      SelfLocking(s, front);
      SilentIsIdle(s, Manchester(front));
      LocksOnChangeStep(s, front, bit, Run(Step, s, Manchester(front)).0);
    }
  }

  lemma SearchingBit(s: State, bit: bool)
    requires !s.framer.synced && Run(Step, s, [!bit, bit]).1 == []
    ensures var c := Run(Step, s, [!bit, bit]).0.clock;
            && (!c.midBit <==> !s.clock.midBit || s.clock.lastBit != bit)
            && c.lastBit == bit
  {
    hide TakeBit;
    OneBit(s, bit);
    TakeBitIdle(s.framer, !bit);
  }

  lemma TakeBitIdle(f: Framer, bit: bool)
    requires !f.synced
    ensures TakeBit(f, bit).1 == [] ==> !TakeBit(f, bit).0.synced
  {
    hide ShiftIn;
  }

  lemma ChangeSnoc(bits: seq<bool>, bit: bool)
    requires bits != []
    ensures HasChange(bits + [bit]) <==> HasChange(bits) || bits[|bits| - 1] != bit
  {
    var all := bits + [bit];
    if HasChange(all) {
      var i :| 0 < i < |all| && all[i - 1] != all[i];
      assert i == |bits| || bits[i - 1] != bits[i];
    }
    if HasChange(bits) {
      var i :| 0 < i < |bits| && bits[i - 1] != bits[i];
      assert all[i - 1] != all[i];
    }
    if bits[|bits| - 1] != bit {
      assert all[|bits| - 1] != all[|bits|];
    }
  }

  // ---- words ----

  /** The word register after `bits`, from an empty register. */
  function Collected(bits: seq<bool>): Word {
    if bits == [] then 0 else ShiftWord(Collected(bits[..|bits| - 1]), bits[|bits| - 1])
  }

  lemma CollectedSnoc(bits: seq<bool>, b: bool)
    requires Collected(bits) < 0x8000
    ensures Collected(bits + [b]) == 2 * Collected(bits) + (if b then 1 else 0)
  {
    assert (bits + [b])[..|bits|] == bits;
  }

  /** Collecting bits and sending them are inverse to each other on words of up to 16 bits. */
  lemma {:induction false} CollectedValue(w: nat, n: nat)
    requires n <= 16 && w < Pow2(n)
    ensures Collected(IntBits(w, n)) == w
    decreases n
  {
    hide Collected, ShiftWord;
    if n == 0 {
      CollectedNone();
    } else {
      CollectedValue(w / 2, n - 1);
      Pow2Fits(n - 1);
      CollectedSnoc(IntBits(w / 2, n - 1), w % 2 == 1);
    }
  }

  lemma CollectedNone()
    ensures Collected([]) == 0
  {
  }

  lemma {:induction false} CollectedBound(bits: seq<bool>)
    requires |bits| <= 16
    ensures Collected(bits) < Pow2(|bits|)
    decreases |bits|
  {
    hide Collected, ShiftWord;
    if bits == [] {
      CollectedNone();
    } else {
      var front, b := bits[..|bits| - 1], bits[|bits| - 1];
      CollectedBound(front);
      Pow2Fits(|front|);
      CollectedSnoc(front, b);
      assert bits == front + [b];
    }
  }

  lemma {:induction false} CollectedBits(bits: seq<bool>)
    requires |bits| <= 16
    ensures IntBits(Collected(bits), |bits|) == bits
    decreases |bits|
  {
    if bits == [] {
    } else {
      hide Collected, ShiftWord, Pow2, IntBits;
      var front, b := bits[..|bits| - 1], bits[|bits| - 1];
      IntBitsSnoc(Collected(front), |front|, b);
      CollectedBits(front);
      CollectedBound(front);
      Pow2Fits(|front|);
      CollectedSnoc(front, b);
      assert bits == front + [b];
    }
  }

  // ---- the sync pattern ----

  const PATTERN: seq<bool> := MsbBits(MINOR_FRAME_SYNC, 60)

  predicate Matches(r: bv64) {
    r & SYNC_MASK == MINOR_FRAME_SYNC
  }

  /** The match test looks at exactly the last sixty bits. */
  lemma MatchWindow(r: bv64)
    ensures Matches(r) <==> MsbBits(r, 60) == PATTERN
  {
    LowMasks();
    if Matches(r) {
      assert Agree(r, MINOR_FRAME_SYNC, LowMask(60));
      AgreeWindow(r, MINOR_FRAME_SYNC, 60);
    }
    if MsbBits(r, 60) == PATTERN {
      WindowAgree(r, MINOR_FRAME_SYNC, 60);
    }
  }

  lemma LowTen(w: bv64, v: bv64)
    requires w & 0x3FF == v & 0x3FF
    ensures MsbBits(w, 10) == MsbBits(v, 10)
  {
    LowMasks();
    AgreeWindow(w, v, 10);
  }

  lemma PatternTens()
    ensures PATTERN == MsbBits(0x0284, 10) + MsbBits(0x016F, 10) + MsbBits(0x035C, 10)
                     + MsbBits(0x019D, 10) + MsbBits(0x020F, 10) + MsbBits(0x0095, 10)
  {
    hide MsbBits;
    MsbSplitTen(0x0A11_6FD7_19D8_3C95, 50);
    MsbSplitTen(0x2_845B_F5C6_760F, 40);
    MsbSplitTen(0xA1_16FD_719D, 30);
    MsbSplitTen(0x2845_BF5C, 20);
    MsbSplitTen(0xA_116F, 10);
    LowTen(0x0A11_6FD7_19D8_3C95, 0x0095);
    LowTen(0x2_845B_F5C6_760F, 0x020F);
    LowTen(0xA1_16FD_719D, 0x019D);
    LowTen(0x2845_BF5C, 0x035C);
    LowTen(0xA_116F, 0x016F);
  }

  /** A register and an integer with the same low bits. */
  predicate SameBits(v: bv64, w: nat, n: nat)
    decreases n
  {
    n == 0 || (LowBit(v) == (w % 2 == 1) && SameBits(Half(v), w / 2, n - 1))
  }

  lemma {:induction false} SameBitsWindow(v: bv64, w: nat, n: nat)
    requires SameBits(v, w, n)
    ensures MsbBits(v, n) == IntBits(w, n)
    decreases n
  {
    hide Half, LowBit;
    if n != 0 {
      SameBitsWindow(Half(v), w / 2, n - 1);
    }
  }

  lemma SyncWord1() ensures MsbBits(0x0284, 10) == WordBits(SYNC1) { SameBitsWindow(0x0284, 0x0284, 10); }
  lemma SyncWord2() ensures MsbBits(0x016F, 10) == WordBits(SYNC2) { SameBitsWindow(0x016F, 0x016F, 10); }
  lemma SyncWord3() ensures MsbBits(0x035C, 10) == WordBits(SYNC3) { SameBitsWindow(0x035C, 0x035C, 10); }
  lemma SyncWord4() ensures MsbBits(0x019D, 10) == WordBits(SYNC4) { SameBitsWindow(0x019D, 0x019D, 10); }
  lemma SyncWord5() ensures MsbBits(0x020F, 10) == WordBits(SYNC5) { SameBitsWindow(0x020F, 0x020F, 10); }
  lemma SyncWord6() ensures MsbBits(0x0095, 10) == WordBits(SYNC6) { SameBitsWindow(0x0095, 0x0095, 10); }

  lemma PatternWords()
    ensures PATTERN == WordBits(SYNC1) + WordBits(SYNC2) + WordBits(SYNC3)
                     + WordBits(SYNC4) + WordBits(SYNC5) + WordBits(SYNC6)
  {
    hide MsbBits, WordBits;
    PatternTens();
    SyncWord1(); SyncWord2(); SyncWord3(); SyncWord4(); SyncWord5(); SyncWord6();
  }

  /** The six words written to the output when the sync is found are the sync itself. */
  lemma SyncWordsArePattern()
    ensures FrameBits(SYNC) == PATTERN
  {
    hide WordBits, FrameBits;
    PatternWords();
    FrameBitsTake(SYNC, 0);
    FrameBitsTake(SYNC, 1);
    FrameBitsTake(SYNC, 2);
    FrameBitsTake(SYNC, 3);
    FrameBitsTake(SYNC, 4);
    FrameBitsTake(SYNC, 5);
    assert SYNC[..0] == [] && SYNC[..6] == SYNC;
    FrameBitsNone();
  }

  lemma Landmarks1()
    ensures WordBits(SYNC1)[0] && WordBits(SYNC1)[2] && WordBits(SYNC1)[7]
    ensures WordBits(SYNC2)[1] && WordBits(SYNC2)[6]
  {
    hide IntBits;
    assert IntBit(0x0284, 9) && IntBit(0x0284, 7) && IntBit(0x0284, 2);
    IntBitsAt(0x0284, 10, 0); IntBitsAt(0x0284, 10, 2); IntBitsAt(0x0284, 10, 7);
    assert IntBit(0x016F, 8) && IntBit(0x016F, 3);
    IntBitsAt(0x016F, 10, 1); IntBitsAt(0x016F, 10, 6);
  }

  lemma Landmarks2()
    ensures WordBits(SYNC3)[0] && WordBits(SYNC3)[5] && WordBits(SYNC3)[7]
    ensures WordBits(SYNC4)[1] && WordBits(SYNC4)[5]
  {
    hide IntBits;
    assert IntBit(0x035C, 9) && IntBit(0x035C, 4) && IntBit(0x035C, 2);
    IntBitsAt(0x035C, 10, 0); IntBitsAt(0x035C, 10, 5); IntBitsAt(0x035C, 10, 7);
    assert IntBit(0x019D, 8) && IntBit(0x019D, 4);
    IntBitsAt(0x019D, 10, 1); IntBitsAt(0x019D, 10, 5);
  }

  lemma Landmarks3()
    ensures WordBits(SYNC5)[0] && WordBits(SYNC5)[6] && WordBits(SYNC5)[9]
    ensures WordBits(SYNC6)[2] && WordBits(SYNC6)[7]
  {
    hide IntBits;
    assert IntBit(0x020F, 9) && IntBit(0x020F, 3) && IntBit(0x020F, 0);
    IntBitsAt(0x020F, 10, 0); IntBitsAt(0x020F, 10, 6); IntBitsAt(0x020F, 10, 9);
    assert IntBit(0x0095, 7) && IntBit(0x0095, 2);
    IntBitsAt(0x0095, 10, 2); IntBitsAt(0x0095, 10, 7);
  }

  lemma FiveZeros()
    ensures !WordBits(SYNC5)[1] && !WordBits(SYNC5)[2] && !WordBits(SYNC5)[3]
    ensures !WordBits(SYNC5)[4] && !WordBits(SYNC5)[5]
  {
    hide IntBits;
    assert !IntBit(0x020F, 8) && !IntBit(0x020F, 7) && !IntBit(0x020F, 6) && !IntBit(0x020F, 5) && !IntBit(0x020F, 4);
    IntBitsAt(0x020F, 10, 1); IntBitsAt(0x020F, 10, 2); IntBitsAt(0x020F, 10, 3);
    IntBitsAt(0x020F, 10, 4); IntBitsAt(0x020F, 10, 5);
  }

  /** The sync has no proper rotation equal to itself: its run of five zeros occurs once. */
  lemma SyncIsPrimitive(k: nat)
    requires 0 < k < 60
    ensures PATTERN[k..] + PATTERN[..k] != PATTERN
  {
    hide WordBits;
    PatternWords();
    Landmarks1();
    Landmarks2();
    Landmarks3();
    FiveZeros();
    OneRunOfZeros(PATTERN, k);
  }

  /** The first of the landmark ones at or after position `q`. */
  function NextOne(q: nat): nat {
    if q <= 0 then 0 else if q <= 2 then 2 else if q <= 7 then 7 else if q <= 11 then 11
    else if q <= 16 then 16 else if q <= 20 then 20 else if q <= 25 then 25 else if q <= 27 then 27
    else if q <= 31 then 31 else if q <= 35 then 35 else if q <= 40 then 40 else if q <= 46 then 46
    else if q <= 49 then 49 else if q <= 52 then 52 else if q <= 57 then 57 else 60
  }

  lemma OneRunOfZeros(p: seq<bool>, k: nat)
    requires |p| == 60 && 0 < k < 60
    requires p[0] && p[2] && p[7] && p[11] && p[16] && p[20] && p[25] && p[27]
    requires p[31] && p[35] && p[40] && p[46] && p[49] && p[52] && p[57]
    requires !p[41] && !p[42] && !p[43] && !p[44] && !p[45]
    ensures p[k..] + p[..k] != p
  {
    var q := if k < 19 then k + 41 else k - 19;
    var i := 41 + NextOne(q) - q;
    assert 41 <= i < 46 && !p[i];
    assert (p[k..] + p[..k])[i];
  }
}
