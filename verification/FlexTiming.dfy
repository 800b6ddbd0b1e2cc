/** Timing of the FLEX synchroniser: how long the sync stage lasts, where it puts the bit
    centre, and how many samples remain until the machine is idle again. */
module FlexTiming {
  import opened Machine
  import opened ShiftRegister
  import opened FlexModes
  import opened FlexSync

  // ---- a countdown to the end of the frame ----

  /** Samples until the next bit centre. */
  function TickIn(s: SyncState): int {
    if s.index < s.center then s.center - s.index else s.center - s.index + s.spb
  }

  /** Samples from the end of the information word to the end of the frame. */
  function AfterSync1(mode: nat): nat
    requires mode < |MODES|
  {
    if MODES[mode].baud == 3200 then 28562 else 28560
  }

  /** Samples until the machine is idle again, once the bit centre is known. */
  function Remaining(s: SyncState): int
    requires s.mode < |MODES|
  {
    match s.stage
    case Idle => 0
    case Syncing => 0
    case Sync1 => TickIn(s) + 10 * (47 - s.count) + AfterSync1(s.mode)
    case Sync2 => if s.baud == 3200 then TickIn(s) + 5 * (79 - s.count) + 28160
                  else TickIn(s) + 10 * (39 - s.count) + 28160
    case Data => if s.baud == 3200 then TickIn(s) + 5 * (5631 - s.count)
                 else TickIn(s) + 10 * (2815 - s.count)
  }

  lemma ModeRates(s: State)
    requires s.stage == Sync2 || s.stage == Data
    ensures (s.baud == 1600 && s.spb == 10) || (s.baud == 3200 && s.spb == 5)
  {
  }

  lemma TickAdvance(s: State)
    requires Ticking(s)
    ensures var t := Advance(s);
            && 1 <= TickIn(s)
            && (t.index == t.center <==> TickIn(s) == 1)
            && TickIn(t) == (if TickIn(s) == 1 then s.spb else TickIn(s) - 1)
  {
    if s.stage != Sync1 {
      ModeRates(s);
    }
    AdvanceWithin(s);
  }

  lemma AdvanceWithin(s: SyncState)
    requires s.spb == 5 || s.spb == 10
    requires -2 <= s.index < s.spb && 0 <= s.center < s.spb
    ensures Advance(s).index == if s.index + 1 == s.spb then 0 else s.index + 1
  {
    if s.spb == 5 {
      assert Rem(s.index + 1, 5) == if s.index + 1 == 5 then 0 else s.index + 1;
    } else {
      assert Rem(s.index + 1, 10) == if s.index + 1 == 10 then 0 else s.index + 1;
    }
  }

  lemma RemainingPositive(s: State)
    ensures Ticking(s) ==> Remaining(s) >= 1
  {
    if Ticking(s) {
      TickAdvance(s);
    }
  }

  /** Every sample, whatever it is, brings the end of the frame exactly one sample closer. */
  lemma Countdown(s: State, sym: Symbol)
    requires Ticking(s)
    ensures var t := Step(s, sym).0;
            && Remaining(t) == Remaining(s) - 1
            && (Ticking(t) <==> Remaining(t) > 0)
            && (t.stage == Idle <==> Remaining(t) == 0)
            && t.stage != Syncing
  {
    hide TickIn, Sample;
    RemainingPositive(Step(s, sym).0);
    match s.stage
    case Sync1 => CountdownSync1(s, sym);
    case Sync2 => CountdownSync2(s, sym);
    case Data => CountdownData(s, sym);
  }

  lemma CountdownSync1(s: State, sym: Symbol)
    requires s.stage == Sync1
    ensures var t := Step(s, sym).0; Remaining(t) == Remaining(s) - 1 && Ticking(t)
  {
    TickAdvance(s);
    if Advance(s).index == s.center {
      EnterSync2Tick(Advance(s));
    }
    hide ShiftIn, TickIn, Advance;
  }

  lemma EnterSync2Tick(t: SyncState)
    requires t.mode < |MODES| && 0 <= t.index == t.center < TRIALS && t.spb == TRIALS
    ensures TickIn(EnterSync2(t)) == (if MODES[t.mode].baud == 3200 then 2 else 10)
  {
  }

  lemma CountdownSync2(s: State, sym: Symbol)
    requires s.stage == Sync2
    ensures var t := Step(s, sym).0; Remaining(t) == Remaining(s) - 1 && Ticking(t)
  {
    TickAdvance(s);
    ModeRates(s);
    hide TickIn;
  }

  lemma CountdownData(s: State, sym: Symbol)
    requires s.stage == Data
    ensures var t := Step(s, sym).0; Remaining(t) == Remaining(s) - 1 && (t.stage == Data || t.stage == Idle)
  {
    TickAdvance(s);
    ModeRates(s);
    OutputKeeps(Advance(s), sym);
    hide TickIn, OutputSymbol;
  }

  // ---- the sync stage ----

  /** Samples by which the sync stage must end: the trial register it started on comes round again. */
  function SyncingLeft(s: SyncState): int {
    if s.index < s.start then s.start - s.index else s.start - s.index + TRIALS
  }

  lemma SyncingStep(s: State, sym: Symbol)
    requires s.stage == Syncing
    ensures var t := Step(s, sym).0;
            && SyncingLeft(s) >= 1
            && (t.stage == Syncing ==> SyncingLeft(t) == SyncingLeft(s) - 1 >= 1 && t.start == s.start)
            && (t.stage != Syncing ==> t.stage == Sync1 && t.count == 0 && t.index == (s.index + 1) % TRIALS
                                       && t.center == IndexAvg(s.start, t.index, TRIALS))
  {
    hide ShiftIn, SyncMode;
    MatchesOnceShifted(s.sync[s.start], IsOne(sym));
  }

  /** The machine has been in the sync stage for `n` samples. */
  lemma {:induction false} SyncingRun(s: State, xs: seq<Symbol>)
    requires s.stage == Syncing && s.index == s.start
    requires forall n :: 0 <= n <= |xs| ==> Run(Step, s, xs[..n]).0.stage == Syncing
    ensures |xs| < TRIALS
    ensures var t := Run(Step, s, xs).0; t.start == s.start && SyncingLeft(t) == TRIALS - |xs|
    ensures Run(Step, s, xs).1 == []
    decreases |xs|
  {
    assert xs[..|xs|] == xs;
    if xs == [] {
    } else {
      var front := xs[..|xs| - 1];
      forall n | 0 <= n <= |front| ensures Run(Step, s, front[..n]).0.stage == Syncing {
        assert front[..n] == xs[..n];
      }
      SyncingRun(s, front);
      SyncingStep(Run(Step, s, front).0, xs[|xs| - 1]);
    }
  }

  /** `d` samples after entering the sync stage the machine has left it. */
  ghost predicate LeavesSyncing(s: State, xs: seq<Symbol>, d: nat) {
    && s.stage == Syncing && s.index == s.start
    && 0 < d <= |xs|
    && (forall n :: 0 <= n < d ==> Run(Step, s, xs[..n]).0.stage == Syncing)
    && Run(Step, s, xs[..d]).0.stage != Syncing
  }

  /** The average of two positions on a circle of ten, going forward `d` places from the first. */
  lemma MidPoint(start: int, d: nat)
    requires 0 <= start < TRIALS && 1 <= d <= TRIALS
    ensures IndexAvg(start, (start + d) % TRIALS, TRIALS) == (start + d / 2) % TRIALS
  {
    if start + d < TRIALS {
      assert (start + d) % TRIALS == start + d;
    } else {
      assert (start + d) % TRIALS == start + d - TRIALS;
    }
  }

  lemma RemainingAfterSyncing(t: State, start: int, d: nat)
    requires 0 <= start < TRIALS && 1 <= d <= TRIALS
    requires t.stage == Sync1 && t.count == 0
    requires t.index == (start + d) % TRIALS && t.center == (start + d / 2) % TRIALS
    ensures Remaining(t) + d == FrameLength(t.mode, d)
  {
    assert TickIn(t) + d == 10 + d / 2;
  }

  /** On leaving the sync stage after `d` samples, `d` is 1..10 and the bit centre is half-way
      round from the first to the last good sample; a full turn counts as ten, never as none. */
  lemma BitCentre(s: State, xs: seq<Symbol>, d: nat)
    requires LeavesSyncing(s, xs, d)
    ensures 1 <= d <= TRIALS
    ensures var (t, out) := Run(Step, s, xs[..d]);
            && out == [] && t.stage == Sync1 && t.count == 0
            && t.center == (s.start + d / 2) % TRIALS
            && t.index == (s.start + d) % TRIALS
            && Remaining(t) + d == FrameLength(t.mode, d)
  {
    hide Step, Remaining, FrameLength, Run, ValidState;
    var front, sym := xs[..d - 1], xs[d - 1];
    var t := Run(Step, s, front).0;
    assert xs[..d] == front + [sym];
    RunSnoc(Step, s, front, sym);
    forall n | 0 <= n <= |front| ensures Run(Step, s, front[..n]).0.stage == Syncing {
      assert front[..n] == xs[..n];
    }
    SyncingRun(s, front);
    SyncingExit(t, sym, s.start, d);
  }

  lemma SyncingExit(t: State, sym: Symbol, start: int, d: nat)
    requires t.stage == Syncing && t.start == start && 1 <= d <= TRIALS && SyncingLeft(t) == TRIALS - (d - 1)
    requires Step(t, sym).0.stage != Syncing
    ensures var (u, out) := Step(t, sym);
            && out == [] && u.stage == Sync1 && u.count == 0
            && u.center == (start + d / 2) % TRIALS
            && u.index == (start + d) % TRIALS
            && Remaining(u) + d == FrameLength(u.mode, d)
  {
    hide Step, Remaining, IndexAvg, FrameLength, ValidState;
    SyncingRange(t);
    SyncingStep(t, sym);
    SyncingSilent(t, sym);
    IndexFrom(t.index, start, d);
    MidPoint(start, d);
    RemainingAfterSyncing(Step(t, sym).0, start, d);
  }

  lemma SyncingRange(s: State)
    requires s.stage == Syncing
    ensures 0 <= s.index < TRIALS && 0 <= s.start < TRIALS
  {
  }

  lemma IndexFrom(index: int, start: int, d: nat)
    requires 0 <= index < TRIALS && 0 <= start < TRIALS && 1 <= d <= TRIALS
    requires (if index < start then start - index else start - index + TRIALS) == TRIALS - (d - 1)
    ensures (index + 1) % TRIALS == (start + d) % TRIALS
  {
  }

  lemma SyncingSilent(s: State, sym: Symbol)
    requires s.stage == Syncing
    ensures Step(s, sym).1 == []
  {
  }

  /** Samples from entering the sync stage to being idle again. */
  function FrameLength(mode: nat, d: nat): nat
    requires mode < |MODES|
  {
    29040 + d / 2 + if MODES[mode].baud == 3200 then 2 else 0
  }

  lemma {:induction false} FirstLeaving(s: State, xs: seq<Symbol>, n: nat) returns (d: nat)
    requires s.stage == Syncing && s.index == s.start
    requires n <= |xs| && Run(Step, s, xs[..n]).0.stage != Syncing
    ensures LeavesSyncing(s, xs, d) && d <= n
    decreases n
  {
    assert xs[..0] == [];
    if m :| 0 <= m < n && Run(Step, s, xs[..m]).0.stage != Syncing {
      d := FirstLeaving(s, xs, m);
    } else {
      d := n;
    }
  }

  /** The sync stage is left within ten samples, for every input. */
  lemma SyncingEnds(s: State, xs: seq<Symbol>) returns (d: nat)
    requires s.stage == Syncing && s.index == s.start && |xs| >= TRIALS
    ensures LeavesSyncing(s, xs, d) && d <= TRIALS
  {
    hide Step, Run, ValidState;
    var ten := xs[..TRIALS];
    if n :| 0 <= n <= TRIALS && Run(Step, s, ten[..n]).0.stage != Syncing {
      assert ten[..n] == xs[..n];
      d := FirstLeaving(s, xs, n);
    } else {
      SyncingRun(s, ten);
      assert false;
    }
  }
}
