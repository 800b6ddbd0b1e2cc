/** A FLEX receiver that is ready: from power-up, and again after every frame, the next clean sync word is found
    at its last bit. */
module FlexReady {
  import opened Machine
  import opened ShiftRegister
  import opened FlexModes
  import opened FlexSync
  import opened FlexTiming
  import opened FlexFrame
  import opened FlexAcquire
  import opened FlexQuiet

  /** Idle, every trial register being empty or holding an old sync word and at most two more bits. */
  ghost predicate Ready(s: State) {
    s.stage == Idle && forall i :: 0 <= i < |s.sync| ==> Settled(s.sync[i])
  }

  /** Just switched on. */
  ghost predicate Cold(s: State) {
    s.stage == Idle && s.sync == [0, 0, 0, 0, 0, 0, 0, 0, 0, 0]
  }

  lemma ColdIsReady(s: State)
    requires Cold(s)
    ensures Ready(s)
  {
  }

  /** Sample `n` of a clean sync word does not complete one. */
  lemma NotYet(s: State, xs: seq<Symbol>, mode: nat, n: nat)
    requires Ready(s) && mode < |SYNC_WORDS| && Oversampled(xs, MsbBits(SYNC_WORDS[mode], 64))
    requires n < 630 && StillIdle(s, xs, n)
    ensures Run(Step, s, xs[..n + 1]).0.stage == Idle
  {
    hide Step, ShiftIn, SyncMode, ValidState, Taken, Run, MsbBits, Shifted, Place, Settled;
    var r, k := n % 10, n / 10 + 1;
    assert Run(Step, s, xs[..n]).0.stage == Idle;
    TestedStep(s, xs, n);
    TakenBits(xs, MsbBits(SYNC_WORDS[mode], 64), r, n + 1);
    assert (n + 1 + 9 - r) / 10 == k;
    Quiet(s.sync[Place(s, r)], mode, k);
  }

  lemma {:induction false} NeverEarly(s: State, xs: seq<Symbol>, mode: nat, n: nat)
    requires Ready(s) && mode < |SYNC_WORDS| && Oversampled(xs, MsbBits(SYNC_WORDS[mode], 64)) && n <= 630
    ensures StillIdle(s, xs, n)
    decreases n
  {
    hide Step, ValidState, MsbBits, Run, Settled;
    if n == 0 {
      assert xs[..0] == [];
      RunNone(s);
    } else {
      NeverEarly(s, xs, mode, n - 1);
      NotYet(s, xs, mode, n - 1);
    }
  }

  lemma RunNone(s: State)
    ensures Run(Step, s, []) == (s, [])
  {
    hide Step, ValidState;
  }

  /** A ready receiver acquires every clean sync word, without any further condition. */
  lemma ReadyIsEnough(s: State, xs: seq<Symbol>, mode: nat)
    requires Ready(s) && mode < |SYNC_WORDS| && Oversampled(xs, MsbBits(SYNC_WORDS[mode], 64)) && |xs| >= 641
    ensures CleanSync(s, xs, mode)
  {
    hide Step, ValidState, MsbBits, Run, Settled;
    NeverEarly(s, xs, mode, 630);
  }

  // ---- the trial registers after a sync word ----

  lemma PlaceOf(s: State, i: nat) returns (r: nat)
    requires Hunting(s) && i < TRIALS
    ensures r < TRIALS && Place(s, r) == i
  {
    HuntingShape(s);
    r := (i + 9 - s.index) % TRIALS;
  }

  /** At the end of the last sync bit every trial register holds the sync word. */
  lemma AllHoldSync(s: State, xs: seq<Symbol>, mode: nat, i: nat)
    requires CleanSync(s, xs, mode) && i < TRIALS
    ensures var t := Run(Step, s, xs[..640]).0; |t.sync| == TRIALS && t.sync[i] == SYNC_WORDS[mode]
  {
    hide Step, ShiftIn, SyncMode, ValidState, Taken, Run, MsbBits, Shifted, Place;
    HoldsSync(s, xs, mode, 640);
    forall m | 0 <= m <= 640 ensures Hunting(Run(Step, s, xs[..m]).0) {
      assert m >= 631 ==> Holding(s, xs, mode, m);
    }
    var r := PlaceOf(s, i);
    RegisterRun(s, xs, r, 640);
    HuntingShape(s);
    HuntingShape(Run(Step, s, xs[..640]).0);
    var bits := MsbBits(SYNC_WORDS[mode], 64);
    TakenBits(xs, bits, r, 640);
    assert bits[..64] == bits;
    FullRegister(s.sync[i], SYNC_WORDS[mode]);
  }

  /** A register that holds a sync word and at most one more bit. */
  predicate JustHeld(u: bv64) { IsSyncWord(u) || OneBitOn(u) }

  lemma OneMoreBit(u: bv64, b: bool)
    requires IsSyncWord(u)
    ensures OneBitOn(ShiftIn(u, b))
  {
  }

  lemma TwoMoreBits(u: bv64, b: bool)
    requires OneBitOn(u)
    ensures TwoBitsOn(ShiftIn(u, b))
  {
  }

  lemma NoMarkerOn(u: bv64)
    requires OneBitOn(u) || TwoBitsOn(u)
    ensures !MarkerNear(u)
  {
  }

  /** One more bit in a register that has just held a sync word. */
  lemma NextBit(u: bv64, b: bool)
    requires JustHeld(u)
    ensures Settled(ShiftIn(u, b)) && SyncMode(ShiftIn(u, b)) == -1
  {
    hide IsSyncWord, OneBitOn, TwoBitsOn, ShiftIn, MarkerNear, SyncMode;
    if IsSyncWord(u) {
      OneMoreBit(u, b);
    } else {
      TwoMoreBits(u, b);
    }
    NoMarkerOn(ShiftIn(u, b));
    NoMarkerNoMode(ShiftIn(u, b));
  }

  ghost predicate AllJustHeld(t: SyncState) {
    |t.sync| == TRIALS && forall i :: 0 <= i < TRIALS ==> JustHeld(t.sync[i])
  }

  lemma AfterSync(s: State, xs: seq<Symbol>, mode: nat)
    requires CleanSync(s, xs, mode)
    ensures AllJustHeld(Run(Step, s, xs[..641]).0)
  {
    hide Step, ShiftIn, SyncMode, ValidState, Run, MsbBits, Settled, OneBitOn, IsSyncWord;
    var t := Run(Step, s, xs[..640]).0;
    HoldsSync(s, xs, mode, 640);
    assert Holding(s, xs, mode, 640);
    forall i | 0 <= i < TRIALS ensures |t.sync| == TRIALS && t.sync[i] == SYNC_WORDS[mode] {
      AllHoldSync(s, xs, mode, i);
    }
    assert xs[..641] == xs[..640] + [xs[640]];
    RunSnoc(Step, s, xs[..640], xs[640]);
    HuntingShape(t);
    HuntingStep(t, xs[640]);
    SyncWordsListed(mode);
    OneMoreBit(SYNC_WORDS[mode], IsOne(xs[640]));
  }

  // ---- and after the frame ----

  /** The rest of the frame leaves the trial registers alone. */
  lemma Frozen(t: State, sym: Symbol)
    requires Ticking(t)
    ensures var u := Step(t, sym).0; u.sync == t.sync && (u.stage == Idle ==> u.index == 0)
  {
    hide ShiftIn, SyncMode;
  }

  lemma {:induction false} FrozenRun(s: State, xs: seq<Symbol>, d: nat, n: nat)
    requires LeavesSyncing(s, xs, d)
    requires d <= n <= FrameLength(FrameMode(s, xs, d), d) <= |xs|
    ensures var t := Run(Step, s, xs[..n]).0;
            && t.sync == Run(Step, s, xs[..d]).0.sync
            && (n == FrameLength(FrameMode(s, xs, d), d) ==> t.stage == Idle && t.index == 0)
    decreases n
  {
    hide Step, Remaining, ValidState, Run, LeavesSyncing;
    if n == d {
      FrameIsLonger(s, xs, d);
    } else {
      FrozenRun(s, xs, d, n - 1);
      StillTicking(s, xs, d, n - 1);
      if n == FrameLength(FrameMode(s, xs, d), d) {
        WholeFrame(s, xs, d);
      }
      assert xs[..n] == xs[..n - 1] + [xs[n - 1]];
      RunSnoc(Step, s, xs[..n - 1], xs[n - 1]);
      Frozen(Run(Step, s, xs[..n - 1]).0, xs[n - 1]);
    }
  }

  lemma FrameIsLonger(s: State, xs: seq<Symbol>, d: nat)
    requires LeavesSyncing(s, xs, d)
    ensures d < FrameLength(FrameMode(s, xs, d), d)
  {
    hide Step, Run, ValidState;
    BitCentre(s, xs, d);
  }

  lemma StillTicking(s: State, xs: seq<Symbol>, d: nat, n: nat)
    requires LeavesSyncing(s, xs, d)
    requires d <= n < FrameLength(FrameMode(s, xs, d), d) <= |xs|
    ensures Ticking(Run(Step, s, xs[..n]).0)
  {
    hide Step, Run, ValidState, Remaining, LeavesSyncing, Progress;
    FrameProgress(s, xs, d, n);
  }

  ghost predicate Trailing(e: State, t: State, n: nat) {
    && t.stage == Idle && t.index == n && |t.sync| == TRIALS == |e.sync|
    && (forall i :: 0 < i <= n && i < TRIALS ==> Settled(t.sync[i]))
    && (forall i :: 0 <= i < TRIALS && (i == 0 || i > n) ==> t.sync[i] == e.sync[i])
  }

  /** A few samples that are left of the last symbol find nothing and leave the receiver ready. */
  lemma {:induction false} TrailingRun(e: State, ys: seq<Symbol>)
    requires e.stage == Idle && e.index == 0 && AllJustHeld(e) && |ys| < TRIALS
    ensures Trailing(e, Run(Step, e, ys).0, |ys|) && Run(Step, e, ys).1 == []
    decreases |ys|
  {
    hide Step, ValidState, Settled, JustHeld, ShiftIn, SyncMode, Run;
    if ys == [] {
      RunNone(e);
    } else {
      var front, sym := ys[..|ys| - 1], ys[|ys| - 1];
      TrailingRun(e, front);
      var t, n := Run(Step, e, front).0, |ys|;
      assert ys == front + [sym];
      RunSnoc(Step, e, front, sym);
      assert (t.index + 1) % TRIALS == n && t.sync[n] == e.sync[n];
      HuntingStep(t, sym);
      IdleNext(t, sym);
      NextBit(e.sync[n], IsOne(sym));
    }
  }

  lemma TrailingReady(e: State, ys: seq<Symbol>)
    requires e.stage == Idle && e.index == 0 && AllJustHeld(e) && |ys| < TRIALS
    ensures Ready(Run(Step, e, ys).0) && Run(Step, e, ys).1 == []
  {
    hide Step, ValidState, ShiftIn, SyncMode, Run, IsSyncWord, OneBitOn, TwoBitsOn;
    TrailingRun(e, ys);
  }
}
