/** A cleanly received FLEX sync word is always found, and held for exactly the ten samples of its last bit. */
module FlexAcquire {
  import opened Machine
  import opened ShiftRegister
  import opened FlexModes
  import opened FlexSync
  import opened FlexTiming

  // ---- the trial registers ----

  ghost predicate Hunting(t: SyncState) { t.stage == Idle || t.stage == Syncing }

  /** The register that takes samples `r`, `r + 10`, ... */
  function Place(s: State, r: nat): (p: nat)
    requires Hunting(s)
    ensures p < TRIALS
  {
    (s.index + 1 + r) % TRIALS
  }

  /** The bits of samples `r`, `r + 10`, ... before sample `n`. */
  function Taken(xs: seq<Symbol>, r: nat, n: nat): (bits: seq<bool>)
    requires r < TRIALS && n <= |xs|
    ensures |bits| == (n + 9 - r) / 10
  {
    seq((n + 9 - r) / 10, k requires 0 <= k < (n + 9 - r) / 10 => IsOne(xs[10 * k + r]))
  }

  lemma TakenStep(xs: seq<Symbol>, r: nat, n: nat)
    requires r < TRIALS && n < |xs|
    ensures Taken(xs, r, n + 1) == if n % 10 == r then Taken(xs, r, n) + [IsOne(xs[n])] else Taken(xs, r, n)
  {
    assert n % 10 == r ==> 10 * ((n + 9 - r) / 10) + r == n;
  }

  lemma HuntingShape(t: State)
    requires Hunting(t)
    ensures 0 <= t.index < TRIALS && |t.sync| == TRIALS
  {
  }

  lemma HuntingStep(t: State, sym: Symbol)
    requires Hunting(t)
    ensures var (u, out) := Step(t, sym);
            var i := (t.index + 1) % TRIALS;
            var r := ShiftIn(t.sync[i], IsOne(sym));
            && u.index == i && u.sync == t.sync[i := r] && out == []
            && (u.stage == Syncing <==> SyncMode(r) != -1)
            && (u.stage == Syncing ==> u.mode == SyncMode(r) && u.start == if t.stage == Idle then i else t.start)
            && (u.stage == Sync1 ==> u.mode == t.mode)
  {
    hide SyncMode, ShiftIn;
  }

  lemma SameTurn(i: nat, n: nat, r: nat)
    requires i < TRIALS && r < TRIALS
    ensures ((i + n) % TRIALS + 1) % TRIALS == (i + 1 + r) % TRIALS <==> n % 10 == r
  {
    var m := n % 10;
    assert n == 10 * (n / 10) + m;
    assert (i + n) % TRIALS == if i + m < 10 then i + m else i + m - 10;
  }

  lemma PlaceNow(s: State, n: nat, r: nat)
    requires Hunting(s) && r < TRIALS
    ensures ((s.index + n) % TRIALS + 1) % TRIALS == Place(s, r) <==> n % 10 == r
  {
    hide ValidState;
    HuntingShape(s);
    SameTurn(s.index, n, r);
  }

  /** What trial register `r` of a hunt begun at `s` holds after `n` samples. */
  ghost predicate Collecting(s: State, xs: seq<Symbol>, r: nat, n: nat, t: State)
    requires Hunting(s) && r < TRIALS && n <= |xs|
  {
    t.index == (s.index + n) % TRIALS && t.sync[Place(s, r)] == Shifted(s.sync[Place(s, r)], Taken(xs, r, n))
  }

  lemma CollectingStep(s: State, xs: seq<Symbol>, r: nat, n: nat, t: State)
    requires Hunting(s) && Hunting(t) && r < TRIALS && n < |xs| && Collecting(s, xs, r, n, t)
    ensures Collecting(s, xs, r, n + 1, Step(t, xs[n]).0) && Step(t, xs[n]).1 == []
  {
    hide Step, ShiftIn, SyncMode, ValidState, Taken, Shifted, Place;
    HuntingShape(s);
    HuntingShape(t);
    HuntingStep(t, xs[n]);
    PlaceNow(s, n, r);
    TakenStep(xs, r, n);
    ShiftedSnoc(s.sync[Place(s, r)], Taken(xs, r, n), IsOne(xs[n]));
    NextIndex(s.index, n);
  }

  lemma NextIndex(i: nat, n: nat)
    ensures ((i + n) % TRIALS + 1) % TRIALS == (i + n + 1) % TRIALS
  {
  }

  /** While the machine hunts, each trial register collects its own samples. */
  lemma {:induction false} RegisterRun(s: State, xs: seq<Symbol>, r: nat, n: nat)
    requires Hunting(s) && r < TRIALS && n <= |xs|
    requires forall m :: 0 <= m <= n ==> Hunting(Run(Step, s, xs[..m]).0)
    ensures Collecting(s, xs, r, n, Run(Step, s, xs[..n]).0) && Run(Step, s, xs[..n]).1 == []
    decreases n
  {
    hide Step, ShiftIn, SyncMode, ValidState, Taken, Shifted, Run, Collecting, Place;
    if n == 0 {
      RegisterStart(s, xs, r);
    } else {
      RegisterRun(s, xs, r, n - 1);
      var t := Run(Step, s, xs[..n - 1]).0;
      assert xs[..n] == xs[..n - 1] + [xs[n - 1]];
      RunSnoc(Step, s, xs[..n - 1], xs[n - 1]);
      CollectingStep(s, xs, r, n - 1, t);
    }
  }

  lemma RegisterStart(s: State, xs: seq<Symbol>, r: nat)
    requires Hunting(s) && r < TRIALS
    ensures Collecting(s, xs, r, 0, s) && Run(Step, s, xs[..0]) == (s, [])
  {
    hide Step, ShiftIn, SyncMode;
    assert xs[..0] == [] && Taken(xs, r, 0) == [];
  }

  /** The register that sample `n` is shifted into and that is then tested. */
  lemma TestedRegister(s: State, xs: seq<Symbol>, n: nat)
    requires Hunting(s) && n < |xs|
    requires forall m :: 0 <= m <= n ==> Hunting(Run(Step, s, xs[..m]).0)
    ensures |s.sync| == TRIALS
    ensures var (t, out) := Run(Step, s, xs[..n]);
            && t.index == (s.index + n) % TRIALS && out == [] && |t.sync| == TRIALS
            && ShiftIn(t.sync[(t.index + 1) % TRIALS], IsOne(xs[n])) ==
               Shifted(s.sync[Place(s, n % 10)], Taken(xs, n % 10, n + 1))
  {
    hide Step, ShiftIn, SyncMode, ValidState, Taken, Run, Shifted, Place;
    var r := n % 10;
    HuntingShape(s);
    RegisterRun(s, xs, r, n);
    HuntingShape(Run(Step, s, xs[..n]).0);
    PlaceNow(s, n, r);
    TakenStep(xs, r, n);
    ShiftedSnoc(s.sync[Place(s, r)], Taken(xs, r, n), IsOne(xs[n]));
  }

  /** Whether sample `n` completes a sync word. */
  lemma TestedStep(s: State, xs: seq<Symbol>, n: nat)
    requires Hunting(s) && n < |xs|
    requires forall m :: 0 <= m <= n ==> Hunting(Run(Step, s, xs[..m]).0)
    ensures |s.sync| == TRIALS
    ensures var mode := SyncMode(Shifted(s.sync[Place(s, n % 10)], Taken(xs, n % 10, n + 1)));
            var t, (u, out) := Run(Step, s, xs[..n]).0, Run(Step, s, xs[..n + 1]);
            && out == [] && u.index == (s.index + n + 1) % TRIALS
            && (u.stage == Syncing <==> mode != -1)
            && (u.stage == Syncing ==> u.mode == mode && u.start == if t.stage == Idle then u.index else t.start)
            && (t.stage == Idle && mode == -1 ==> u.stage == Idle)
            && (u.stage == Sync1 ==> u.mode == t.mode)
  {
    hide Step, ShiftIn, SyncMode, ValidState, Taken, Run, Shifted, Place;
    TestedRegister(s, xs, n);
    var t := Run(Step, s, xs[..n]).0;
    assert xs[..n + 1] == xs[..n] + [xs[n]];
    RunSnoc(Step, s, xs[..n], xs[n]);
    HuntingShape(s);
    HuntingStep(t, xs[n]);
    IdleNext(t, xs[n]);
    NextIndex(s.index, n);
  }

  lemma IdleNext(t: State, sym: Symbol)
    ensures t.stage == Idle ==> Hunting(Step(t, sym).0)
  {
    hide SyncMode, ShiftIn;
  }

  lemma SameWord(v: bv64, w: bv64)
    requires Agree(v, w, 0xFFFF_FFFF_FFFF_FFFF)
    ensures v == w
  {
  }

  /** A register that has taken all 64 bits of a word is that word. */
  lemma FullRegister(r: bv64, w: bv64)
    ensures Shifted(r, MsbBits(w, 64)) == w
  {
    hide MsbBits, ShiftIn, Agree;
    var bits := MsbBits(w, 64);
    SlideAll(r, bits, 64);
    assert (MsbBits(r, 64) + bits)[64..] == bits;
    WindowAgree(Shifted(r, bits), w, 64);
    LowMasks();
    SameWord(Shifted(r, bits), w);
  }

  // ---- acquisition ----

  /** Each bit is held for ten samples. */
  ghost predicate Oversampled(xs: seq<Symbol>, bits: seq<bool>) {
    && 10 * |bits| <= |xs|
    && forall n :: 0 <= n < 10 * |bits| ==> IsOne(xs[n]) == bits[n / 10]
  }

  lemma TakenBits(xs: seq<Symbol>, bits: seq<bool>, r: nat, n: nat)
    requires Oversampled(xs, bits) && r < TRIALS && n <= 10 * |bits|
    ensures Taken(xs, r, n) == bits[..(n + 9 - r) / 10]
  {
    forall k | 0 <= k < (n + 9 - r) / 10 ensures Taken(xs, r, n)[k] == bits[k] {
      assert (10 * k + r) / 10 == k;
    }
  }

  /** Nothing is found in the first `n` samples. */
  ghost predicate StillIdle(s: State, xs: seq<Symbol>, n: nat)
    requires n <= |xs|
  {
    forall m :: 0 <= m <= n ==> Run(Step, s, xs[..m]).0.stage == Idle
  }

  ghost predicate CleanSync(s: State, xs: seq<Symbol>, mode: nat) {
    && s.stage == Idle && mode < |SYNC_WORDS|
    && Oversampled(xs, MsbBits(SYNC_WORDS[mode], 64)) && |xs| >= 641
    && StillIdle(s, xs, 630)
  }

  /** The register tested by sample `n` of the last bit holds the sync word. */
  lemma RegisterComplete(s: State, xs: seq<Symbol>, mode: nat, n: nat)
    requires CleanSync(s, xs, mode) && 630 <= n < 640
    requires forall m :: 0 <= m <= n ==> Hunting(Run(Step, s, xs[..m]).0)
    ensures var t := Run(Step, s, xs[..n]).0;
            && t.index == (s.index + n) % TRIALS && Run(Step, s, xs[..n]).1 == []
            && ShiftIn(t.sync[(t.index + 1) % TRIALS], IsOne(xs[n])) == SYNC_WORDS[mode]
  {
    hide Step, ShiftIn, SyncMode, ValidState, Taken, Run, MsbBits, Shifted, Place;
    var r, bits := n - 630, MsbBits(SYNC_WORDS[mode], 64);
    TestedRegister(s, xs, n);
    TakenBits(xs, bits, r, n + 1);
    assert bits[..64] == bits;
    FullRegister(s.sync[Place(s, r)], SYNC_WORDS[mode]);
  }

  ghost predicate Holding(s: State, xs: seq<Symbol>, mode: nat, n: nat)
    requires Hunting(s) && n <= |xs|
  {
    var (t, out) := Run(Step, s, xs[..n]);
    t.stage == Syncing && t.mode == mode && t.start == Place(s, 0) && out == []
  }

  /** From the first sample of the last sync bit on, every trial register in turn holds the sync word. */
  lemma {:induction false} HoldsSync(s: State, xs: seq<Symbol>, mode: nat, n: nat)
    requires CleanSync(s, xs, mode) && 631 <= n <= 640
    ensures forall m :: 631 <= m <= n ==> Holding(s, xs, mode, m)
    decreases n
  {
    hide Step, ShiftIn, SyncMode, ValidState, Run, MsbBits;
    if n > 631 {
      HoldsSync(s, xs, mode, n - 1);
      assert Holding(s, xs, mode, n - 1);
    }
    forall m | 0 <= m <= n - 1 ensures Hunting(Run(Step, s, xs[..m]).0) {
      assert m >= 631 ==> Holding(s, xs, mode, m);
    }
    RegisterComplete(s, xs, mode, n - 1);
    assert xs[..n] == xs[..n - 1] + [xs[n - 1]];
    RunSnoc(Step, s, xs[..n - 1], xs[n - 1]);
    HuntingStep(Run(Step, s, xs[..n - 1]).0, xs[n - 1]);
    SyncWordModes(mode);
    HuntingShape(s);
    PlaceNow(s, n - 1, 0);
    assert Holding(s, xs, mode, n);
  }

  /** A clean sync word, with nothing found before its last bit, is found at that bit's first sample; the
      sync stage then lasts exactly ten samples, and the mode is the one transmitted. */
  lemma Acquires(s: State, xs: seq<Symbol>, mode: nat)
    requires CleanSync(s, xs, mode)
    ensures var (t, out) := Run(Step, s, xs[..631]);
            && out == [] && LeavesSyncing(t, xs[631..], 10)
            && Run(Step, t, xs[631..][..10]).0.mode == mode
  {
    hide Step, ShiftIn, SyncMode, ValidState, Run, MsbBits;
    HoldsSync(s, xs, mode, 640);
    assert Holding(s, xs, mode, 631) && Holding(s, xs, mode, 640);
    var t, rest := Run(Step, s, xs[..631]).0, xs[631..];
    forall m | 0 <= m < 10 ensures Run(Step, t, rest[..m]).0.stage == Syncing {
      assert xs[..631 + m] == xs[..631] + rest[..m];
      RunAppend(Step, s, xs[..631], rest[..m]);
      assert Holding(s, xs, mode, 631 + m);
    }
    EntersAt(s, xs, mode);
    var d := SyncingEnds(t, rest);
    assert d == 10;
    assert xs[..640] == xs[..631] + rest[..9];
    RunAppend(Step, s, xs[..631], rest[..9]);
    assert rest[..10] == rest[..9] + [rest[9]];
    RunSnoc(Step, t, rest[..9], rest[9]);
    BitCentre(t, rest, 10);
    HuntingStep(Run(Step, t, rest[..9]).0, rest[9]);
  }

  lemma EntersAt(s: State, xs: seq<Symbol>, mode: nat)
    requires CleanSync(s, xs, mode) && Holding(s, xs, mode, 631)
    ensures var t := Run(Step, s, xs[..631]).0; t.index == t.start
  {
    hide Step, ShiftIn, SyncMode, ValidState, Run, MsbBits, Taken;
    RegisterRun(s, xs, 0, 630);
    assert xs[..631] == xs[..630] + [xs[630]];
    RunSnoc(Step, s, xs[..630], xs[630]);
    HuntingStep(Run(Step, s, xs[..630]).0, xs[630]);
  }
}
