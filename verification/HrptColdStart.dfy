/** Reception from power-up: with an empty shifter a short preamble is enough, and nothing is found too early. */
module HrptColdStart {
  import opened Machine
  import opened Sequences
  import opened ShiftRegister
  import opened HrptDeframer
  import opened HrptReception
  import opened HrptEndToEnd

  /** A one and some zeros. */
  function Preamble(zeros: nat): seq<bool> { [true] + Zeros(zeros) }

  ghost predicate PowerUp(s: State) {
    s.clock == Clock(true, false) && !s.framer.synced && s.framer.shifter == 0
  }

  lemma {:induction false} NoOnes(n: nat, k: nat)
    requires k < n
    ensures !MsbBits(0, n)[k]
    decreases n
  {
    if k < n - 1 {
      NoOnes(n - 1, k);
    }
  }

  /** The sync pattern starts with a one, a zero and a one. */
  lemma PatternStart()
    ensures PATTERN[0] && PATTERN[2]
  {
    hide WordBits;
    PatternWords();
    Landmarks1();
  }

  /** After a lone one, the window of the last sixty bits is not the pattern while fewer than sixty bits of it have come. */
  lemma WindowDiffers(window: seq<bool>, pattern: seq<bool>, zeros: nat, k: nat)
    requires |window| == 60 == |pattern| && pattern[0] && pattern[2] && zeros >= 2
    requires forall i :: 0 <= i < 59 ==> !window[i]
    requires k <= zeros + 59
    ensures (window + (Zeros(zeros) + pattern[..59])[..k])[k..] != pattern
  {
    var w := (window + (Zeros(zeros) + pattern[..59])[..k])[k..];
    if k == 59 {
      assert !w[2];
    } else {
      assert !w[0];
    }
  }

  lemma QuietSearch(f: Framer, zeros: nat)
    requires !f.synced && f.shifter == ShiftIn(0, true) && zeros >= 2
    ensures Run(TakeBit, f, Zeros(zeros) + PATTERN[..59]).1 == []
  {
    hide TakeBit, MsbBits, ShiftIn, Matches, Zeros;
    var bits := Zeros(zeros) + PATTERN[..59];
    Slide(0, true, 60);
    var window := MsbBits(f.shifter, 60);
    forall i | 0 <= i < 59 ensures !window[i] {
      NoOnes(60, i + 1);
    }
    PatternStart();
    forall k | 0 < k <= |bits| ensures !Matches(Shifted(f.shifter, bits[..k])) {
      SlideAll(f.shifter, bits[..k], 60);
      WindowDiffers(window, PATTERN, zeros, k);
      MatchWindow(Shifted(f.shifter, bits[..k]));
    }
    SearchSilent(f, bits);
  }

  /** The first one of the preamble locks the clock. */
  lemma FirstOne(s: State)
    requires PowerUp(s)
    ensures var (t, out) := Run(Step, s, Manchester([true]));
            out == [] && !t.clock.midBit && !t.framer.synced && t.framer.shifter == ShiftIn(0, true)
  {
    assert Manchester([true]) == [!true, true] by {
      assert [true][..0] == [];
    }
    OneBit(s, true);
    OneIsNoSync();
    SearchStep(s.framer, true);
    hide ShiftIn, TakeBit, Matches;
  }

  lemma OneIsNoSync()
    ensures !Matches(ShiftIn(0, true))
  {
  }

  /** From power-up, a one and at least two zeros make a preamble: any number of minor frames follow exactly. */
  lemma ReceivedFromPowerUp(s: State, zeros: nat, frames: seq<seq<Word>>)
    requires PowerUp(s) && zeros >= 2
    requires forall k :: 0 <= k < |frames| ==> MinorFrame(frames[k])
    ensures var (t, out) := Run(Step, s, Manchester(Preamble(zeros) + FrameBits(Flatten(frames))));
            out == Flatten(frames) && !t.framer.synced && !t.clock.midBit
  {
    hide Step, TakeBit, Run, Manchester, MsbBits, FrameBits, Zeros, ShiftIn;
    var rest := Zeros(zeros) + PATTERN[..59];
    FirstOne(s);
    var t := Run(Step, s, Manchester([true])).0;
    LockedReception(t, rest);
    QuietSearch(t.framer, zeros);
    assert Preamble(zeros) + PATTERN[..59] == [true] + rest;
    ManchesterAppend([true], rest);
    RunAppend(Step, s, Manchester([true]), Manchester(rest));
    var bits := [s.clock.lastBit] + Preamble(zeros);
    assert bits[0] != bits[1];
    EndToEnd(s, Preamble(zeros), frames);
  }
}
