/** One FLEX frame: which input samples are used, and what the four phases receive. */
module FlexFrame {
  import opened Machine
  import opened ShiftRegister
  import opened FlexModes
  import opened FlexSync
  import opened FlexTiming

  // ---- the transmitter's view of the phases ----

  /** The four phase bits a receiver must produce from the data symbols of a mode: at 1600 baud each
      symbol carries phases A and B, at 3200 baud alternate symbols carry A, B and C, D. */
  function Demux(m: Mode, ys: seq<Symbol>): seq<Quad> {
    var four := m.levels == 4;
    if m.baud == 1600 then
      seq(|ys|, k requires 0 <= k < |ys| => Quad(IsOne(ys[k]), four && IsOuter(ys[k]), false, false))
    else
      seq(|ys| / 2, k requires 0 <= k < |ys| / 2 =>
        Quad(IsOne(ys[2 * k]), four && IsOuter(ys[2 * k]), IsOne(ys[2 * k + 1]), four && IsOuter(ys[2 * k + 1])))
  }

  function DataSymbols(m: Mode): nat {
    if m.baud == 3200 then 5632 else 2816
  }

  function SamplesPerSymbol(m: Mode): nat {
    if m.baud == 3200 then 5 else 10
  }

  /** Position in the input of data symbol `k` of a frame that ends after `length` samples. */
  function DataPosition(m: Mode, length: int, k: nat): int {
    length - 1 - SamplesPerSymbol(m) * (DataSymbols(m) - 1 - k)
  }

  /** The first `count` data symbols of the frame. */
  function DataSamples(m: Mode, xs: seq<Symbol>, length: nat, count: nat): seq<Symbol>
    requires count <= DataSymbols(m) && 28160 <= length <= |xs|
  {
    seq(count, k requires 0 <= k < count => xs[DataPosition(m, length, k)])
  }

  // ---- progress through a frame ----

  ghost predicate Pending(t: SyncState, ys: seq<Symbol>) {
    t.hibit ==> |ys| > 0 && t.bits.a == IsOne(ys[|ys| - 1]) && t.bits.b == (t.levels == 4 && IsOuter(ys[|ys| - 1]))
  }

  ghost predicate Progress(t: State, out: seq<Quad>, m: Mode, mode: nat, xs: seq<Symbol>, length: nat, n: nat)
    requires 28160 <= length <= |xs|
  {
    && Remaining(t) == length - n
    && (Ticking(t) ==> t.mode == mode)
    && match t.stage
       case Idle => out == Demux(m, DataSamples(m, xs, length, DataSymbols(m)))
       case Syncing => false
       case Sync1 => out == []
       case Sync2 => out == []
       case Data => && 0 <= t.count <= DataSymbols(m)
                    && out == Demux(m, DataSamples(m, xs, length, t.count))
                    && Pending(t, DataSamples(m, xs, length, t.count))
  }

  lemma DemuxNone(m: Mode)
    ensures Demux(m, []) == []
  {
  }

  lemma DemuxSlow(m: Mode, ys: seq<Symbol>, y: Symbol)
    requires m.baud == 1600
    ensures Demux(m, ys + [y]) == Demux(m, ys) + [Quad(IsOne(y), m.levels == 4 && IsOuter(y), false, false)]
  {
  }

  lemma DemuxFirst(m: Mode, ys: seq<Symbol>, y: Symbol)
    requires m.baud != 1600 && |ys| % 2 == 0
    ensures Demux(m, ys + [y]) == Demux(m, ys)
  {
  }

  lemma DemuxSecond(m: Mode, ys: seq<Symbol>, y: Symbol)
    requires m.baud != 1600 && |ys| % 2 == 1
    ensures var x, four := ys[|ys| - 1], m.levels == 4;
            Demux(m, ys + [y]) == Demux(m, ys) + [Quad(IsOne(x), four && IsOuter(x), IsOne(y), four && IsOuter(y))]
  {
    hide IsOne, IsOuter;
    var n := |ys| / 2;
    assert |Demux(m, ys)| == n && 2 * n + 1 == |ys|;
    forall k | 0 <= k < n ensures Demux(m, ys + [y])[k] == Demux(m, ys)[k] {
    }
  }

  ghost predicate DataReady(t: SyncState, m: Mode) {
    && t.baud == m.baud && (m.baud == 1600 || m.baud == 3200)
    && t.levels == m.levels && (m.levels == 2 || m.levels == 4)
    && (t.hibit <==> m.baud == 3200 && t.count % 2 == 1)
    && (m.levels == 2 ==> !t.bits.b && !t.bits.d)
    && (m.baud == 1600 ==> !t.bits.c && !t.bits.d)
  }

  lemma DataIsReady(t: State)
    requires t.stage == Data
    ensures DataReady(Advance(t), MODES[t.mode])
  {
  }

  /** What one data symbol adds to the output. */
  lemma SymbolOutput(t: SyncState, out: seq<Quad>, m: Mode, ys: seq<Symbol>, y: Symbol)
    requires DataReady(t, m) && |ys| == t.count
    requires out == Demux(m, ys) && Pending(t, ys)
    ensures var (u, o) := OutputSymbol(t, y);
            out + o == Demux(m, ys + [y]) && Pending(u, ys + [y])
  {
    if m.baud == 1600 {
      DemuxSlow(m, ys, y);
    } else if |ys| % 2 == 0 {
      DemuxFirst(m, ys, y);
    } else {
      DemuxSecond(m, ys, y);
    }
    hide Demux;
  }

  lemma DataSamplesGrow(m: Mode, xs: seq<Symbol>, length: nat, count: nat)
    requires count < DataSymbols(m) && 28160 <= length <= |xs|
    ensures DataSamples(m, xs, length, count + 1) ==
            DataSamples(m, xs, length, count) + [xs[DataPosition(m, length, count)]]
  {
  }

  lemma DataTotals(t: State)
    requires t.stage == Data
    ensures var m := MODES[t.mode];
            && t.baud == m.baud && t.spb == SamplesPerSymbol(m)
            && t.baud * 1760 / 1000 == DataSymbols(m) && 0 <= t.count < DataSymbols(m)
            && Remaining(t) == TickIn(t) + SamplesPerSymbol(m) * (DataSymbols(m) - 1 - t.count)
  {
  }

  /** A data sample between bit centres. */
  lemma DataBetween(t: State, sym: Symbol)
    requires t.stage == Data && TickIn(t) != 1
    ensures Step(t, sym) == (Advance(t), [])
  {
    TickAdvance(t);
  }

  /** A data sample at a bit centre. */
  lemma DataTick(t: State, sym: Symbol)
    requires t.stage == Data && TickIn(t) == 1
    ensures var (u, o) := OutputSymbol(Advance(t), sym);
            && Step(t, sym).1 == o
            && (t.count + 1 == DataSymbols(MODES[t.mode]) ==> Step(t, sym).0.stage == Idle)
            && (t.count + 1 != DataSymbols(MODES[t.mode]) ==> Step(t, sym).0 == u.(count := t.count + 1))
  {
    TickAdvance(t);
    DataTotals(t);
    OutputKeeps(Advance(t), sym);
    hide OutputSymbol;
  }

  lemma ProgressTick(t: State, out: seq<Quad>, m: Mode, mode: nat, xs: seq<Symbol>, length: nat, n: nat)
    requires mode < |MODES| && m == MODES[mode] && 28160 <= length <= |xs| && n < length
    requires t.stage == Data && Progress(t, out, m, mode, xs, length, n) && TickIn(t) == 1
    ensures var (u, o) := Step(t, xs[n]);
            && (u.stage == Data || u.stage == Idle)
            && (u.stage == Data ==> u.mode == mode && u.count == t.count + 1)
            && (u.stage == Idle ==> t.count + 1 == DataSymbols(m))
            && out + o == Demux(m, DataSamples(m, xs, length, t.count + 1))
            && (u.stage == Data ==> Pending(u, DataSamples(m, xs, length, t.count + 1)))
  {
    var sym := xs[n];
    DataTotals(t);
    DataIsReady(t);
    var ys := DataSamples(m, xs, length, t.count);
    DataTick(t, sym);
    DataSamplesGrow(m, xs, length, t.count);
    hide Demux, DataSamples, OutputSymbol, Step, TickIn, ValidState, DataReady;
    assert n == DataPosition(m, length, t.count);
    SymbolOutput(Advance(t), out, m, ys, sym);
    OutputKeeps(Advance(t), sym);
  }

  lemma ProgressData(t: State, out: seq<Quad>, m: Mode, mode: nat, xs: seq<Symbol>, length: nat, n: nat)
    requires mode < |MODES| && m == MODES[mode] && 28160 <= length <= |xs| && n < length
    requires t.stage == Data && Progress(t, out, m, mode, xs, length, n)
    ensures var (u, o) := Step(t, xs[n]); Progress(u, out + o, m, mode, xs, length, n + 1)
  {
    var sym := xs[n];
    Countdown(t, sym);
    DataTotals(t);
    if TickIn(t) == 1 {
      ProgressTick(t, out, m, mode, xs, length, n);
    } else {
      DataBetween(t, sym);
      assert out + [] == out;
    }
    hide Demux, DataSamples, OutputSymbol, Step, Remaining, TickIn, ValidState;
  }

  lemma QuietStep(t: State, sym: Symbol)
    requires t.stage == Sync1 || t.stage == Sync2
    ensures var (u, o) := Step(t, sym);
            && o == [] && u.mode == t.mode && Ticking(u)
            && (t.stage == Sync1 ==> u.stage != Data)
            && (u.stage == Data ==> u.count == 0 && !u.hibit)
  {
    hide ShiftIn;
  }

  lemma ProgressStep(t: State, out: seq<Quad>, m: Mode, mode: nat, xs: seq<Symbol>, length: nat, n: nat)
    requires mode < |MODES| && m == MODES[mode] && 28160 <= length <= |xs| && n < length
    requires Ticking(t) && Progress(t, out, m, mode, xs, length, n)
    ensures var (u, o) := Step(t, xs[n]); Progress(u, out + o, m, mode, xs, length, n + 1)
  {
    if t.stage == Data {
      ProgressData(t, out, m, mode, xs, length, n);
    } else {
      Countdown(t, xs[n]);
      QuietStep(t, xs[n]);
      assert DataSamples(m, xs, length, 0) == [];
      DemuxNone(m);
      assert out + [] == out;
    }
    hide Demux, DataSamples, Step, Remaining, ValidState;
  }

  /** The mode of the frame whose sync stage lasted `d` samples. */
  ghost function FrameMode(s: State, xs: seq<Symbol>, d: nat): (mode: nat)
    requires d <= |xs|
    ensures mode < |MODES|
  {
    Run(Step, s, xs[..d]).0.mode
  }

  lemma {:induction false} FrameProgress(s: State, xs: seq<Symbol>, d: nat, n: nat)
    requires LeavesSyncing(s, xs, d)
    requires d <= n <= FrameLength(FrameMode(s, xs, d), d) <= |xs|
    ensures var mode := FrameMode(s, xs, d);
            var (t, out) := Run(Step, s, xs[..n]);
            && Progress(t, out, MODES[mode], mode, xs, FrameLength(mode, d), n)
            && (Ticking(t) <==> n < FrameLength(mode, d))
    decreases n
  {
    hide Step, Remaining, ValidState, DataSamples, Demux, Run;
    BitCentre(s, xs, d);
    var mode := FrameMode(s, xs, d);
    if n == d {
    } else {
      FrameProgress(s, xs, d, n - 1);
      var (t, out) := Run(Step, s, xs[..n - 1]);
      assert xs[..n] == xs[..n - 1] + [xs[n - 1]];
      RunSnoc(Step, s, xs[..n - 1], xs[n - 1]);
      Countdown(t, xs[n - 1]);
      ProgressStep(t, out, MODES[mode], mode, xs, FrameLength(mode, d), n - 1);
    }
  }

  /** Frame timing and content, whatever samples follow the sync: the machine is busy until exactly
      `FrameLength` samples after entering the sync stage and idle at that point, and the phases have
      received exactly the bits carried by the samples at the bit centres. */
  lemma WholeFrame(s: State, xs: seq<Symbol>, d: nat)
    requires LeavesSyncing(s, xs, d)
    requires FrameLength(FrameMode(s, xs, d), d) <= |xs|
    ensures var mode := FrameMode(s, xs, d);
            var length := FrameLength(mode, d);
            && (forall n :: 0 <= n < length ==> Run(Step, s, xs[..n]).0.stage != Idle)
            && Run(Step, s, xs[..length]).0.stage == Idle
            && Run(Step, s, xs[..length]).1 ==
               Demux(MODES[mode], DataSamples(MODES[mode], xs, length, DataSymbols(MODES[mode])))
  {
    hide Step, Remaining, ValidState, DataSamples, Demux, Run;
    var length := FrameLength(FrameMode(s, xs, d), d);
    BitCentre(s, xs, d);
    FrameProgress(s, xs, d, length);
    forall n | 0 <= n < length ensures Run(Step, s, xs[..n]).0.stage != Idle {
      if n >= d {
        FrameProgress(s, xs, d, n);
      }
    }
  }

  /** A frame puts exactly 2816 bits on each phase, and nothing but zeros on the phases its mode does not use. */
  lemma FrameOutput(m: Mode, ys: seq<Symbol>)
    requires m in MODES && |ys| == DataSymbols(m)
    ensures |Demux(m, ys)| == FRAME_BITS
    ensures forall k :: 0 <= k < FRAME_BITS ==>
              && (m.levels == 2 ==> !Demux(m, ys)[k].b && !Demux(m, ys)[k].d)
              && (m.baud == 1600 ==> !Demux(m, ys)[k].c && !Demux(m, ys)[k].d)
  {
  }

  // ---- liveness ----

  const LONGEST := 29052

  /** A bound on the samples until the machine is idle. */
  ghost function Bound(s: State): int {
    if s.stage == Syncing then SyncingLeft(s) + LONGEST - TRIALS else Remaining(s)
  }

  lemma BoundRange(s: State)
    ensures 0 <= Bound(s) <= LONGEST
    ensures s.stage == Sync1 ==> Bound(s) <= LONGEST - TRIALS
    ensures Bound(s) == 0 <==> s.stage == Idle
  {
    if Ticking(s) {
      TickAdvance(s);
    }
  }

  lemma BoundStep(s: State, sym: Symbol)
    requires s.stage != Idle
    ensures Bound(Step(s, sym).0) < Bound(s)
  {
    hide Step, Remaining, ValidState;
    if s.stage == Syncing {
      SyncingStep(s, sym);
      BoundRange(Step(s, sym).0);
    } else {
      Countdown(s, sym);
    }
  }

  lemma RunOne(s: State, sym: Symbol)
    ensures Run(Step, s, [sym]).0 == Step(s, sym).0
  {
    hide Step, ValidState;
    assert [sym] == [] + [sym];
    RunSnoc(Step, s, [], sym);
  }

  /** From any state the machine is idle within 29052 samples, for every input. */
  lemma {:induction false} BackToIdle(s: State, xs: seq<Symbol>) returns (n: nat)
    requires |xs| >= Bound(s)
    ensures n <= Bound(s) <= LONGEST && Run(Step, s, xs[..n]).0.stage == Idle
    decreases Bound(s)
  {
    hide Step, Remaining, ValidState, Bound;
    BoundRange(s);
    assert xs[..0] == [];
    if s.stage == Idle {
      n := 0;
    } else {
      BoundStep(s, xs[0]);
      var s1, rest := Step(s, xs[0]).0, xs[1..];
      BoundRange(s1);
      var k := BackToIdle(s1, rest);
      n := k + 1;
      assert xs[..n] == [xs[0]] + rest[..k];
      RunOne(s, xs[0]);
      RunAppend(Step, s, [xs[0]], rest[..k]);
    }
  }

  // ---- what every run keeps ----

  /** Bits of the frame in progress already on each phase. */
  function Produced(s: SyncState): int {
    if s.stage == Data then (if s.baud == 3200 then s.count / 2 else s.count) else 0
  }

  lemma ProducedTick(s: State, sym: Symbol)
    requires s.stage == Data && TickIn(s) == 1
    ensures var (t, o) := Step(s, sym);
            0 <= Produced(t) < FRAME_BITS && (Produced(s) + |o| - Produced(t)) % FRAME_BITS == 0
  {
    DataTotals(s);
    DataTick(s, sym);
    DataIsReady(s);
    OutputCount(Advance(s), sym);
    hide Step, OutputSymbol, TickIn, ValidState;
  }

  /** At 3200 baud every second symbol produces a bit on each phase. */
  lemma OutputCount(t: SyncState, sym: Symbol)
    requires DataReady(t, MODES[0]) || DataReady(t, MODES[1]) || DataReady(t, MODES[2]) || DataReady(t, MODES[3])
    ensures var (u, o) := OutputSymbol(t, sym);
            && u.stage == t.stage && u.baud == t.baud
            && |o| == if t.baud == 3200 && t.count % 2 == 0 then 0 else 1
  {
  }

  lemma ProducedBetween(s: State, sym: Symbol)
    requires s.stage == Data && TickIn(s) != 1
    ensures var (t, o) := Step(s, sym); o == [] && 0 <= Produced(t) == Produced(s) < FRAME_BITS
  {
    DataTotals(s);
    DataBetween(s, sym);
    hide Step, TickIn, ValidState;
  }

  lemma ProducedStep(s: State, sym: Symbol)
    ensures var (t, o) := Step(s, sym);
            0 <= Produced(t) < FRAME_BITS && (Produced(s) + |o| - Produced(t)) % FRAME_BITS == 0
  {
    hide Step, TickIn, ValidState, Produced;
    if s.stage != Data {
      ProducedNothing(s, sym);
    } else if TickIn(s) == 1 {
      ProducedTick(s, sym);
    } else {
      ProducedBetween(s, sym);
    }
  }

  lemma ProducedNothing(s: State, sym: Symbol)
    requires s.stage != Data
    ensures var (t, o) := Step(s, sym); o == [] && Produced(s) == 0 && Produced(t) == 0
  {
    hide ShiftIn, SyncMode;
  }

  ghost predicate WholeFrames(s: SyncState, out: seq<Quad>) {
    0 <= Produced(s) < FRAME_BITS && (|out| - Produced(s)) % FRAME_BITS == 0
  }

  lemma WholeFramesStep(s: State, out: seq<Quad>, sym: Symbol)
    requires WholeFrames(s, out)
    ensures WholeFrames(Step(s, sym).0, out + Step(s, sym).1)
  {
    hide Step, ValidState, Produced;
    ProducedStep(s, sym);
  }

  /** Conservation: in every run the phases have received a whole number of frames
      plus the part of the frame in progress; in particular a whole number when idle. */
  lemma {:induction false} Conservation(s: State, xs: seq<Symbol>)
    requires Produced(s) == 0
    ensures var (t, out) := Run(Step, s, xs); WholeFrames(t, out)
    decreases |xs|
  {
    if xs == [] {
      hide Step, ValidState, Produced;
    } else {
      hide Step, ValidState, Produced, WholeFrames, Run;
      var front, sym := xs[..|xs| - 1], xs[|xs| - 1];
      Conservation(s, front);
      assert xs == front + [sym];
      RunSnoc(Step, s, front, sym);
      var r := Run(Step, s, front);
      WholeFramesStep(r.0, r.1, sym);
      assert Run(Step, s, xs).0 == Step(r.0, sym).0;
      assert Run(Step, s, xs).1 == r.1 + Step(r.0, sym).1;
    }
  }
}
