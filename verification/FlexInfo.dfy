/** The frame information word: which samples it is read from. */
module FlexInfo {
  import opened Machine
  import opened ShiftRegister
  import opened FlexSync
  import opened FlexTiming
  import opened FlexFrame

  const SKIPPED := 16
  const INFO_TICKS := 48

  /** The first `count` bits after the sync word, sampled ten samples apart at the bit centre. */
  function InfoBits(xs: seq<Symbol>, d: nat, count: nat): (bits: seq<bool>)
    requires count == 0 || d / 2 + 10 * count <= |xs|
    ensures |bits| == count
  {
    seq(count, k requires 0 <= k < count => xs[9 + d / 2 + 10 * k] > 1)
  }

  /** `n` samples into a frame whose sync stage lasted `d` samples, and began with `junk` in the register. */
  ghost predicate Gathering(t: State, junk: bv64, xs: seq<Symbol>, d: nat, n: nat) {
    && Ticking(t) && Remaining(t) == FrameLength(t.mode, d) - n
    && var count := if t.stage == Sync1 then t.count else INFO_TICKS;
    && 0 <= count && (count == 0 || d / 2 + 10 * count <= |xs|)
    && t.fiw == Shifted32(junk, InfoBits(xs, d, count))
  }

  lemma Sync1Ticks(t: State, xs: seq<Symbol>, d: nat, n: nat)
    requires t.stage == Sync1 && Remaining(t) == FrameLength(t.mode, d) - n
    ensures TickIn(t) == 1 ==> n == 9 + d / 2 + 10 * t.count
    ensures 0 <= t.count < INFO_TICKS
  {
  }

  lemma TickKeeps(t: State, sym: Symbol)
    requires Ticking(t) && Ticking(Step(t, sym).0)
    ensures var u := Step(t, sym).0;
            && u.mode == t.mode
            && (t.stage == Sync1 && TickIn(t) == 1 ==>
                  && u.fiw == ShiftIn32(t.fiw, sym > 1)
                  && (if t.count + 1 == INFO_TICKS then u.stage == Sync2 else u.stage == Sync1 && u.count == t.count + 1))
            && (t.stage == Sync1 && TickIn(t) != 1 ==> u.fiw == t.fiw && u.stage == Sync1 && u.count == t.count)
            && (t.stage != Sync1 ==> u.fiw == t.fiw && u.stage != Sync1)
  {
    TickAdvance(t);
    hide ShiftIn, ShiftIn32, TickIn;
  }

  lemma MoreInfo(junk: bv64, xs: seq<Symbol>, d: nat, count: nat)
    requires d / 2 + 10 * (count + 1) <= |xs|
    ensures Shifted32(junk, InfoBits(xs, d, count + 1)) ==
            ShiftIn32(Shifted32(junk, InfoBits(xs, d, count)), xs[9 + d / 2 + 10 * count] > 1)
  {
    hide ShiftIn32;
    assert InfoBits(xs, d, count + 1)[..count] == InfoBits(xs, d, count);
  }

  lemma GatheringStep(t: State, junk: bv64, xs: seq<Symbol>, d: nat, n: nat)
    requires Gathering(t, junk, xs, d, n) && n < |xs| && Ticking(Step(t, xs[n]).0)
    ensures Gathering(Step(t, xs[n]).0, junk, xs, d, n + 1)
  {
    hide Step, Remaining, ShiftIn32, Shifted32, ValidState, TickIn;
    Countdown(t, xs[n]);
    TickKeeps(t, xs[n]);
    if t.stage == Sync1 {
      Sync1Ticks(t, xs, d, n);
      if TickIn(t) == 1 {
        MoreInfo(junk, xs, d, t.count);
      }
    }
  }

  lemma NoInfo(junk: bv64, xs: seq<Symbol>, d: nat)
    ensures Shifted32(junk, InfoBits(xs, d, 0)) == junk
  {
  }

  lemma {:induction false} GatheringRun(s: State, xs: seq<Symbol>, d: nat, n: nat)
    requires LeavesSyncing(s, xs, d)
    requires d <= n < FrameLength(FrameMode(s, xs, d), d) && n <= |xs|
    ensures var t := Run(Step, s, xs[..n]).0;
            Gathering(t, Run(Step, s, xs[..d]).0.fiw, xs, d, n) && t.mode == FrameMode(s, xs, d)
    decreases n
  {
    hide Step, Remaining, ValidState, Run, Shifted32, TickIn;
    BitCentre(s, xs, d);
    var junk := Run(Step, s, xs[..d]).0.fiw;
    if n == d {
      NoInfo(junk, xs, d);
    } else {
      GatheringRun(s, xs, d, n - 1);
      var t := Run(Step, s, xs[..n - 1]).0;
      assert xs[..n] == xs[..n - 1] + [xs[n - 1]];
      RunSnoc(Step, s, xs[..n - 1], xs[n - 1]);
      Countdown(t, xs[n - 1]);
      TickKeeps(t, xs[n - 1]);
      GatheringStep(t, junk, xs, d, n - 1);
    }
  }

  lemma PastSync1(t: State, d: nat, n: nat)
    requires t.stage == Sync1 && Remaining(t) == FrameLength(t.mode, d) - n
    ensures n < 480 + d / 2
  {
    TickAdvance(t);
    hide TickIn;
  }

  /** Whatever the register held before, from bit 48 after the sync word to the end of the frame it
      holds bits 17 to 48 in the order they were sent, a bit being one when the symbol is above 1. */
  lemma InfoWord(s: State, xs: seq<Symbol>, d: nat, n: nat)
    requires LeavesSyncing(s, xs, d)
    requires 480 + d / 2 <= n < FrameLength(FrameMode(s, xs, d), d) && n <= |xs|
    ensures MsbBits(Run(Step, s, xs[..n]).0.fiw, 32) == InfoBits(xs, d, INFO_TICKS)[SKIPPED..]
  {
    hide Step, Remaining, ValidState, Run, Shifted32, TickIn, MsbBits;
    BitCentre(s, xs, d);
    GatheringRun(s, xs, d, n);
    var t, junk := Run(Step, s, xs[..n]).0, Run(Step, s, xs[..d]).0.fiw;
    if t.stage == Sync1 {
      PastSync1(t, d, n);
    }
    var bits := InfoBits(xs, d, INFO_TICKS);
    SlideAll32(junk, bits);
    assert (MsbBits(junk, 32) + bits)[INFO_TICKS..] == bits[SKIPPED..];
  }
}
