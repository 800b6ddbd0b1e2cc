/** A FLEX sync word of which every bit is seen only for its first few samples: the sync stage is as short, the
    bit centre comes too early, and at 3200 baud the data symbols are sampled outside themselves. */
module FlexClipped {
  import opened Machine
  import opened ShiftRegister
  import opened FlexModes
  import opened FlexSync
  import opened FlexTiming
  import opened FlexFrame
  import opened FlexModulation
  import opened FlexAcquire
  import opened FlexQuiet
  import opened FlexReady

  /** The first `d` samples of every bit of the sync word; all other samples read as zero bits. */
  ghost predicate Clipped(xs: seq<Symbol>, mode: nat, d: nat) {
    && mode < |SYNC_WORDS| && 0 < d < TRIALS && |xs| >= 641
    && forall n :: 0 <= n < 640 ==> IsOne(xs[n]) == (n % 10 < d && MsbBits(SYNC_WORDS[mode], 64)[n / 10])
  }

  /** Such samples. */
  function ClippedSignal(mode: nat, d: nat): (xs: seq<Symbol>)
    requires mode < |SYNC_WORDS| && 0 < d < TRIALS
  {
    seq<Symbol>(641, n requires 0 <= n < 641 =>
      if n < 640 && n % 10 < d && MsbBits(SYNC_WORDS[mode], 64)[n / 10] then 0 else 3)
  }

  lemma SignalIsClipped(mode: nat, d: nat)
    requires mode < |SYNC_WORDS| && 0 < d < TRIALS
    ensures Clipped(ClippedSignal(mode, d), mode, d)
  {
    hide MsbBits;
  }

  /** The register of a sample that is seen takes the bits of the sync word. */
  lemma TakenSeen(xs: seq<Symbol>, mode: nat, d: nat, n: nat)
    requires Clipped(xs, mode, d) && n < 640 && n % 10 < d
    ensures Taken(xs, n % 10, n + 1) == MsbBits(SYNC_WORDS[mode], 64)[..n / 10 + 1]
  {
    hide MsbBits;
    var r := n % 10;
    assert (n + 1 + 9 - r) / 10 == n / 10 + 1;
    forall k | 0 <= k < n / 10 + 1 ensures Taken(xs, r, n + 1)[k] == MsbBits(SYNC_WORDS[mode], 64)[k] {
      assert (10 * k + r) / 10 == k && (10 * k + r) % 10 == r;
    }
  }

  /** The others take zeros. */
  lemma TakenUnseen(xs: seq<Symbol>, mode: nat, d: nat, n: nat, k: nat)
    requires Clipped(xs, mode, d) && n < 640 && n % 10 >= d && k < |Taken(xs, n % 10, n + 1)|
    ensures !Taken(xs, n % 10, n + 1)[k]
  {
    hide MsbBits;
    var r := n % 10;
    assert (10 * k + r) % 10 == r && 10 * k + r < 640;
  }

  lemma ShiftZero()
    ensures ShiftIn(0, false) == 0
  {
  }

  lemma {:induction false} StaysEmpty(bits: seq<bool>)
    requires forall k :: 0 <= k < |bits| ==> !bits[k]
    ensures Shifted(0, bits) == 0
    decreases |bits|
  {
    hide ShiftIn;
    ShiftZero();
    if bits != [] {
      StaysEmpty(bits[..|bits| - 1]);
    }
  }

  lemma EmptyIsNoSync()
    ensures SyncMode(0) == -1 && Settled(0)
  {
  }

  /** What the register tested by sample `n` then recognises. */
  lemma Verdict(s: State, xs: seq<Symbol>, mode: nat, d: nat, n: nat)
    requires Cold(s) && Clipped(xs, mode, d) && n <= 630 + d
    ensures |s.sync| == TRIALS
    ensures SyncMode(Shifted(s.sync[Place(s, n % 10)], Taken(xs, n % 10, n + 1))) ==
            if 630 <= n < 630 + d then mode else -1
  {
    hide ValidState, SyncMode, ShiftIn, MsbBits, Shifted, Taken, Settled, Clipped;
    HuntingShape(s);
    ClippedShape(xs, mode, d);
    assert s.sync[Place(s, n % 10)] == 0;
    EmptyIsNoSync();
    if n % 10 < d {
      TakenSeen(xs, mode, d, n);
      if n < 630 {
        Quiet(0, mode, n / 10 + 1);
      } else {
        FullRegister(0, SYNC_WORDS[mode]);
        SyncWordModes(mode);
        assert MsbBits(SYNC_WORDS[mode], 64)[..64] == MsbBits(SYNC_WORDS[mode], 64);
      }
    } else {
      var taken := Taken(xs, n % 10, n + 1);
      forall k | 0 <= k < |taken| ensures !taken[k] {
        TakenUnseen(xs, mode, d, n, k);
      }
      StaysEmpty(taken);
    }
  }

  lemma ClippedShape(xs: seq<Symbol>, mode: nat, d: nat)
    requires Clipped(xs, mode, d)
    ensures mode < |SYNC_WORDS| && 0 < d < TRIALS && |xs| >= 641
  {
    hide MsbBits;
  }

  /** Idle up to the last bit, and in the sync stage for as long as that bit is seen. */
  ghost predicate Follows(s: State, xs: seq<Symbol>, mode: nat, n: nat)
    requires Hunting(s) && n <= |xs|
  {
    var (t, out) := Run(Step, s, xs[..n]);
    if n <= 630 then t.stage == Idle && out == []
    else t.stage == Syncing && t.mode == mode && t.start == Place(s, 0) && out == []
  }

  lemma ClippedStep(s: State, xs: seq<Symbol>, mode: nat, d: nat, n: nat)
    requires Cold(s) && Clipped(xs, mode, d) && n < 630 + d
    requires n < |xs| && forall m :: 0 <= m <= n ==> Follows(s, xs, mode, m)
    ensures Follows(s, xs, mode, n + 1)
  {
    hide Step, ValidState, SyncMode, ShiftIn, MsbBits, Shifted, Taken, Run, Clipped, Place;
    forall m | 0 <= m <= n ensures Hunting(Run(Step, s, xs[..m]).0) {
      assert Follows(s, xs, mode, m);
    }
    assert Follows(s, xs, mode, n);
    Verdict(s, xs, mode, d, n);
    TestedStep(s, xs, n);
    FirstPlace(s);
  }

  lemma ClippedStart(s: State, xs: seq<Symbol>, mode: nat)
    requires Cold(s)
    ensures Follows(s, xs, mode, 0)
  {
    hide Step, ValidState, Place;
    assert xs[..0] == [];
    RunNone(s);
  }

  lemma {:induction false} ClippedRun(s: State, xs: seq<Symbol>, mode: nat, d: nat, n: nat)
    requires Cold(s) && Clipped(xs, mode, d) && n <= 630 + d
    ensures n <= |xs| && forall m :: 0 <= m <= n ==> Follows(s, xs, mode, m)
    decreases n
  {
    hide Step, ValidState, Clipped, Follows, Place, Run;
    ClippedShape(xs, mode, d);
    if n == 0 {
      ClippedStart(s, xs, mode);
    } else {
      ClippedRun(s, xs, mode, d, n - 1);
      ClippedStep(s, xs, mode, d, n - 1);
    }
  }

  lemma FirstPlace(s: State)
    requires Hunting(s)
    ensures (s.index + 631) % TRIALS == Place(s, 0)
  {
    hide ValidState;
    HuntingShape(s);
  }

  /** From power-up, for every mode and every `d` from 1 to 9, such a sync word is found at the first sample of its
      last bit, and the sync stage lasts exactly `d` samples. */
  lemma ClippedAcquires(s: State, xs: seq<Symbol>, mode: nat, d: nat)
    requires Cold(s) && Clipped(xs, mode, d)
    ensures var (t, out) := Run(Step, s, xs[..631]);
            out == [] && LeavesSyncing(t, xs[631..], d) && FrameMode(t, xs[631..], d) == mode
  {
    hide Step, ValidState, SyncMode, ShiftIn, MsbBits, Shifted, Taken, Run, Clipped, Place;
    ClippedShape(xs, mode, d);
    ClippedRun(s, xs, mode, d, 630 + d);
    var t, rest := Run(Step, s, xs[..631]).0, xs[631..];
    assert Follows(s, xs, mode, 631);
    forall m | 0 <= m <= d ensures Run(Step, t, rest[..m]).0 == Run(Step, s, xs[..631 + m]).0 {
      assert xs[..631 + m] == xs[..631] + rest[..m];
      RunAppend(Step, s, xs[..631], rest[..m]);
    }
    forall m | 0 <= m < d ensures Run(Step, t, rest[..m]).0.stage == Syncing {
      assert Follows(s, xs, mode, 631 + m);
    }
    forall m | 0 <= m <= 630 + d ensures Hunting(Run(Step, s, xs[..m]).0) {
      assert Follows(s, xs, mode, m);
    }
    Verdict(s, xs, mode, d, 630 + d);
    assert Follows(s, xs, mode, 630 + d);
    TestedStep(s, xs, 630 + d);
    assert Follows(s, xs, mode, 630);
    Verdict(s, xs, mode, d, 630);
    TestedStep(s, xs, 630);
    FirstPlace(s);
    NotSyncing(Run(Step, s, xs[..630 + d]).0, xs[630 + d]);
    assert xs[..631 + d] == xs[..630 + d] + [xs[630 + d]];
    RunSnoc(Step, s, xs[..630 + d], xs[630 + d]);
  }

  lemma NotSyncing(t: State, sym: Symbol)
    requires t.stage == Syncing
    ensures Step(t, sym).0.stage == Syncing || Step(t, sym).0.stage == Sync1
  {
    hide SyncMode, ShiftIn;
  }

  /** Such a sync word is acquired, but at 3200 baud some data symbol is then sampled outside itself exactly when no
      more than five samples of each bit were seen. */
  lemma CentreTooEarly(s: State, xs: seq<Symbol>, mode: nat, d: nat)
    requires Cold(s) && Clipped(xs, mode, d) && MODES[mode].baud == 3200
    ensures var t, rest, m := Run(Step, s, xs[..631]).0, xs[631..], MODES[mode];
            && LeavesSyncing(t, rest, d) && FrameMode(t, rest, d) == mode
            && (d <= 5 <==>
                exists k :: 0 <= k < DataSymbols(m) && !Inside(m, 0, k, DataPosition(m, FrameLength(mode, d), k)))
  {
    hide Step, ValidState, MsbBits, Run, LeavesSyncing, Clipped;
    ClippedShape(xs, mode, d);
    ClippedAcquires(s, xs, mode, d);
    SamplesOwnSymbol(mode, 0, d);
  }
}
