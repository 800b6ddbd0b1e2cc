/** The FLEX synchroniser: ten trial shift registers, one per sample position of a
    1600 baud bit, find the sync word; the machine then samples the frame at the
    centre of each bit and deals the bits out to four phases. */
module FlexSync {
  import opened Machine
  import opened ShiftRegister
  import opened FlexModes
  import opened FlexDistance

  /** A sliced sample; the slicer produces 0..3. */
  type Symbol = s: nat | s < 256

  datatype Quad = Quad(a: bool, b: bool, c: bool, d: bool)

  datatype Stage = Idle | Syncing | Sync1 | Sync2 | Data

  datatype SyncState = SyncState(stage: Stage, index: int, start: int, center: int, end: int, count: int,
                                 mode: nat, baud: nat, levels: nat, spb: nat, hibit: bool, fiw: bv64,
                                 bits: Quad, sync: seq<bv64>)

  const TRIALS := 10
  const FRAME_BITS := 2816

  /** Remainder with the sign of the dividend. */
  function Rem(a: int, n: nat): int
    requires n > 0
  {
    if a >= 0 then a % n else -((-a) % n)
  }

  // ---- recognising the sync word ----

  predicate IsOne(sym: Symbol) { sym < 2 }

  predicate IsOuter(sym: Symbol) { sym == 0 || sym == 3 }

  /** Shift one sample into the current trial register and test it. */
  function TestSync(s: SyncState, sym: Symbol): (SyncState, bool)
    requires 0 <= s.index < |s.sync|
  {
    var r := ShiftIn(s.sync[s.index], IsOne(sym));
    var m := SyncMode(r);
    var t := s.(sync := s.sync[s.index := r]);
    if m != -1 then (t.(mode := m), true) else (t, false)
  }

  // ---- stage changes ----

  function IndexAvg(start: int, end: int, spb: nat): int
    requires spb > 0
  {
    if start < end then (end + start) / 2 else Rem((end + start) / 2 + spb / 2, spb)
  }

  function EnterIdle(s: SyncState): SyncState {
    s.(stage := Idle, index := 0, start := 0, center := 0, end := 0, count := 0, mode := 0,
       baud := 1600, levels := 2, spb := 16000 / 1600, bits := Quad(false, false, false, false), hibit := false)
  }

  function EnterSyncing(s: SyncState): SyncState {
    s.(start := s.index, stage := Syncing)
  }

  function EnterSync1(s: SyncState): SyncState
    requires s.spb > 0
  {
    s.(stage := Sync1, end := s.index, center := IndexAvg(s.start, s.index, s.spb), count := 0)
  }

  function EnterSync2(s: SyncState): SyncState
    requires s.mode < |MODES|
  {
    var m := MODES[s.mode];
    var t := s.(stage := Sync2, count := 0, baud := m.baud, levels := m.levels, spb := 16000 / m.baud);
    if m.baud == 3200 then t.(center := s.center / 2, index := s.index / 2 - t.spb / 2, count := -1) else t
  }

  function EnterData(s: SyncState): SyncState {
    s.(stage := Data, count := 0)
  }

  // ---- phases ----

  /** Distribute one symbol; at 3200 baud phases A, B and C, D take turns. */
  function OutputSymbol(s: SyncState, sym: Symbol): (SyncState, seq<Quad>) {
    var four := s.levels == 4;
    if s.baud == 1600 then
      var q := s.bits.(a := IsOne(sym), b := if four then IsOuter(sym) else s.bits.b);
      (s.(bits := q), [q])
    else if !s.hibit then
      var q := s.bits.(a := IsOne(sym), b := if four then IsOuter(sym) else s.bits.b);
      (s.(bits := q, hibit := true), [])
    else
      var q := s.bits.(c := IsOne(sym), d := if four then IsOuter(sym) else s.bits.d);
      (s.(bits := q, hibit := false), [q])
  }

  // ---- reachable states ----

  ghost predicate Ticking(s: SyncState) {
    s.stage == Sync1 || s.stage == Sync2 || s.stage == Data
  }

  const SILENCE := Quad(false, false, false, false)

  ghost predicate AtModeRate(s: SyncState) {
    && s.mode < |MODES|
    && s.baud == MODES[s.mode].baud && s.levels == MODES[s.mode].levels
    && s.spb == (if s.baud == 3200 then 5 else 10)
    && 0 <= s.center < s.spb
  }

  ghost predicate ValidState(s: SyncState) {
    && |s.sync| == TRIALS
    && s.mode < |MODES|
    && match s.stage
       case Idle => AtBaseRate(s)
       case Syncing => AtBaseRate(s) && 0 <= s.start < TRIALS && SyncMode(s.sync[s.start]) != -1
       case Sync1 => AtBaseRate(s) && 0 <= s.center < TRIALS && 0 <= s.count < 48
       case Sync2 => && AtModeRate(s) && -2 <= s.index < s.spb && s.bits == SILENCE && !s.hibit
                     && (s.index < 0 ==> s.index < s.center) && -1 <= s.count < s.baud / 40
       case Data => && AtModeRate(s) && -2 <= s.index < s.spb && (s.index < 0 ==> s.index < s.center)
                    && 0 <= s.count < s.baud * 1760 / 1000
                    && (s.hibit <==> s.baud == 3200 && s.count % 2 == 1)
                    && (s.levels == 2 ==> !s.bits.b && !s.bits.d)
                    && (s.baud == 1600 ==> !s.bits.c && !s.bits.d)
                    && (s.count == 0 ==> s.bits == SILENCE)
  }

  ghost predicate AtBaseRate(s: SyncState) {
    s.spb == TRIALS && s.baud == 1600 && s.levels == 2 && 0 <= s.index < TRIALS && !s.hibit && s.bits == SILENCE
  }

  type State = s: SyncState | ValidState(s)
    witness SyncState(Idle, 0, 0, 0, 0, 0, 0, 1600, 2, 10, false, 0, SILENCE, [0, 0, 0, 0, 0, 0, 0, 0, 0, 0])

  // ---- one sample ----

  function StepIdle(t: SyncState, sym: Symbol): SyncState
    requires 0 <= t.index < |t.sync|
  {
    var (u, found) := TestSync(t, sym);
    if found then EnterSyncing(u) else u
  }

  function StepSyncing(t: SyncState, sym: Symbol): SyncState
    requires 0 <= t.index < |t.sync| && t.spb > 0
  {
    var (u, found) := TestSync(t, sym);
    if !found then EnterSync1(u) else u
  }

  function TickSync1(t: SyncState, sym: Symbol): SyncState
    requires t.mode < |MODES|
  {
    var u := t.(fiw := ShiftIn32(t.fiw, sym > 1), count := t.count + 1);
    if u.count == 48 then EnterSync2(u) else u
  }

  function TickSync2(t: SyncState): SyncState {
    var u := t.(count := t.count + 1);
    if u.count == t.baud / 40 then EnterData(u) else u
  }

  function TickData(t: SyncState, sym: Symbol): (SyncState, seq<Quad>) {
    var (u, out) := OutputSymbol(t, sym);
    var v := u.(count := t.count + 1);
    (if v.count == t.baud * 1760 / 1000 then EnterIdle(v) else v, out)
  }

  function Advance(s: SyncState): SyncState
    requires s.spb > 0
  {
    s.(index := Rem(s.index + 1, s.spb))
  }

  function Sample(s: SyncState, sym: Symbol): (SyncState, seq<Quad>)
    requires s.spb > 0 && s.mode < |MODES|
    requires s.stage == Idle || s.stage == Syncing ==> 0 <= Advance(s).index < |s.sync|
  {
    var t := Advance(s);
    match s.stage
    case Idle => (StepIdle(t, sym), [])
    case Syncing => (StepSyncing(t, sym), [])
    case Sync1 => (if t.index == t.center then TickSync1(t, sym) else t, [])
    case Sync2 => (if t.index == t.center then TickSync2(t) else t, [])
    case Data => if t.index == t.center then TickData(t, sym) else (t, [])
  }

  function Step(s: State, sym: Symbol): (r: (State, seq<Quad>)) {
    SampleValid(s, sym);
    Sample(s, sym)
  }

  // ---- every sample keeps the state valid ----

  lemma MatchesOnceShifted(r: bv64, b: bool)
    requires SyncMode(r) != -1
    ensures SyncMode(ShiftIn(r, b)) == -1
  {
    hide SyncMode;
    if b {
      MatchesOnceOne(r);
    } else {
      MatchesOnceZero(r);
    }
  }

  lemma SampleValid(s: State, sym: Symbol)
    ensures ValidState(Sample(s, sym).0)
  {
    hide ShiftIn, SyncMode;
    match s.stage
    case Idle => IdleValid(s, sym);
    case Syncing => SyncingValid(s, sym);
    case Sync1 => Sync1Valid(s, sym);
    case Sync2 => Sync2Valid(s, sym);
    case Data => DataValid(s, sym);
  }

  lemma IdleValid(s: State, sym: Symbol)
    requires s.stage == Idle
    ensures ValidState(Sample(s, sym).0)
  {
    hide ShiftIn, SyncMode;
  }

  lemma SyncingValid(s: State, sym: Symbol)
    requires s.stage == Syncing
    ensures ValidState(Sample(s, sym).0)
  {
    hide ShiftIn, SyncMode;
    MatchesOnceShifted(s.sync[s.start], IsOne(sym));
  }

  lemma Sync1Valid(s: State, sym: Symbol)
    requires s.stage == Sync1
    ensures ValidState(Sample(s, sym).0)
  {
    hide ShiftIn, SyncMode;
  }

  lemma Sync2Valid(s: State, sym: Symbol)
    requires s.stage == Sync2
    ensures ValidState(Sample(s, sym).0)
  {
    hide ShiftIn, SyncMode;
  }

  lemma DataValid(s: State, sym: Symbol)
    requires s.stage == Data
    ensures ValidState(Sample(s, sym).0)
  {
    hide ShiftIn, SyncMode;
  }

  // ---- the block ----

  class Synchronizer {
    var stage: Stage
    var index: int
    var start: int
    var center: int
    var end: int
    var count: int
    var mode: nat
    var baud: nat
    var levels: nat
    var spb: nat
    var hibit: bool
    var fiw: bv64
    var bits: Quad
    var sync: seq<bv64>

    ghost function Abs(): SyncState
      reads this
    {
      SyncState(stage, index, start, center, end, count, mode, baud, levels, spb, hibit, fiw, bits, sync)
    }

    ghost predicate Valid()
      reads this
    {
      ValidState(Abs())
    }

    ghost function Current(): State
      requires Valid()
      reads this
    {
      Abs()
    }

    /** The source leaves the information word unset; it is a parameter here. */
    constructor (junk: bv64)
      ensures Valid() && stage == Idle
      ensures Abs() == EnterIdle(SyncState(Idle, 0, 0, 0, 0, 0, 0, 0, 0, 0, false, junk, SILENCE,
                                           [0, 0, 0, 0, 0, 0, 0, 0, 0, 0]))
    {
      stage, index, start, center, end, count, mode := Idle, 0, 0, 0, 0, 0, 0;
      baud, levels, spb, hibit, bits := 1600, 2, 10, false, Quad(false, false, false, false);
      fiw, sync := junk, [0, 0, 0, 0, 0, 0, 0, 0, 0, 0];
    }

    method ResetCounters()
      modifies this`index, this`start, this`center, this`end, this`count
      ensures index == 0 && start == 0 && center == 0 && end == 0 && count == 0
    {
      index, start, center, end, count := 0, 0, 0, 0, 0;
    }

    method ResetRate()
      modifies this`mode, this`baud, this`levels, this`spb
      ensures mode == 0 && baud == 1600 && levels == 2 && spb == 16000 / 1600
    {
      mode := 0;
      baud := 1600;
      levels := 2;
      spb := 16000 / baud;
    }

    method ResetBits()
      modifies this`bits, this`hibit
      ensures bits == Quad(false, false, false, false) && !hibit
    {
      bits := Quad(false, false, false, false);
      hibit := false;
    }

    method ToIdle()
      modifies this
      ensures Abs() == EnterIdle(old(Abs()))
    {
      ghost var s := Abs();
      stage := Idle;
      ResetCounters();
      assert Abs() == s.(stage := Idle, index := 0, start := 0, center := 0, end := 0, count := 0);
      ResetRate();
      ResetBits();
    }

    method ToSyncing()
      modifies this
      ensures Abs() == EnterSyncing(old(Abs()))
    {
      start := index;
      stage := Syncing;
    }

    method ToSync1()
      requires spb > 0
      modifies this
      ensures Abs() == EnterSync1(old(Abs()))
    {
      stage := Sync1;
      end := index;
      center := IndexAvg(start, end, spb);
      count := 0;
    }

    method SetRate()
      requires mode < |MODES|
      modifies this`baud, this`levels, this`spb
      ensures baud == MODES[mode].baud && levels == MODES[mode].levels && spb == 16000 / MODES[mode].baud
    {
      baud := MODES[mode].baud;
      levels := MODES[mode].levels;
      spb := 16000 / baud;
    }

    method ToSync2()
      requires mode < |MODES|
      modifies this
      ensures Abs() == EnterSync2(old(Abs()))
    {
      ghost var s := Abs();
      stage := Sync2;
      count := 0;
      SetRate();
      var m := MODES[mode];
      assert Abs() == s.(stage := Sync2, count := 0, baud := m.baud, levels := m.levels, spb := 16000 / m.baud);
      if baud == 3200 {
        center := center / 2;
        index := index / 2 - spb / 2;
        count := -1;
      }
    }

    method ToData()
      modifies this
      ensures Abs() == EnterData(old(Abs()))
    {
      stage := Data;
      count := 0;
    }

    /** The search of the mode table. */
    static method FindNear(code: bv32) returns (m: int)
      ensures m == FirstNear(code, 0)
    {
      hide Near;
      for i := 0 to |MODES|
        invariant FirstNear(code, 0) == FirstNear(code, i)
      {
        if Near(code, MODES[i].sync) {
          return i;
        }
      }
      return -1;
    }

    /** A mode is found exactly when the register is within three wrong bits of its marker and of its code. */
    static method FindMode(r: bv64) returns (m: int)
      ensures m == SyncMode(r)
      ensures forall i :: 0 <= i < |SYNC_WORDS| ==> (m == i <==> CloseTo(MsbBits(r, 64), i))
    {
      hide Near, FirstNear, CloseTo, MsbBits;
      forall i | 0 <= i < |SYNC_WORDS| ensures SyncMode(r) == i <==> CloseTo(MsbBits(r, 64), i) {
        Recognises(r, i);
      }
      m := -1;
      if Near(((r & 0x0000_FFFF_FFFF_0000) >> 16) as bv32, SYNC_MARKER) {
        m := FindNear((((r & 0xFFFF_0000_0000_0000) >> 32) | (r & 0xFFFF)) as bv32);
      }
    }

    /** Shift a bit into the current trial register; what is found is decided by its last 64 bits, of which three
        may be wrong in the marker and three in the code. */
    method Test(sym: Symbol) returns (found: bool)
      requires 0 <= index < |sync|
      modifies this`sync, this`mode
      ensures (Abs(), found) == TestSync(old(Abs()), sym)
      ensures |sync| == old(|sync|) && MsbBits(sync[index], 64) == MsbBits(old(sync[index]), 64)[1..] + [sym < 2]
      ensures found ==> mode < |SYNC_WORDS| && CloseTo(MsbBits(sync[index], 64), mode)
      ensures !found ==> mode == old(mode) && forall i :: 0 <= i < |SYNC_WORDS| ==> !CloseTo(MsbBits(sync[index], 64), i)
    {
      hide ShiftIn, SyncMode, CloseTo, MsbBits;
      found := false;
      Slide(sync[index], IsOne(sym), 64);
      var r := ShiftIn(sync[index], IsOne(sym));
      sync := sync[index := r];
      var m := FindMode(r);
      if m != -1 {
        mode := m;
        found := true;
      }
    }

    method Output(sym: Symbol) returns (out: seq<Quad>)
      modifies this`bits, this`hibit
      ensures (Abs(), out) == OutputSymbol(old(Abs()), sym)
    {
      out := [];
      if baud == 1600 {
        bits := bits.(a := sym < 2);
        if levels == 4 {
          bits := bits.(b := sym == 0 || sym == 3);
        }
        out := [bits];
      } else if !hibit {
        bits := bits.(a := sym < 2);
        if levels == 4 {
          bits := bits.(b := sym == 0 || sym == 3);
        }
        hibit := true;
      } else {
        bits := bits.(c := sym < 2);
        if levels == 4 {
          bits := bits.(d := sym == 0 || sym == 3);
        }
        hibit := false;
        out := [bits];
      }
    }

    // The cases of the work loop.

    method AtIdle(sym: Symbol)
      requires 0 <= index < |sync|
      modifies this
      ensures Abs() == StepIdle(old(Abs()), sym)
    {
      hide TestSync;
      var found := Test(sym);
      if found {
        ToSyncing();
      }
    }

    method AtSyncing(sym: Symbol)
      requires 0 <= index < |sync| && spb > 0
      modifies this
      ensures Abs() == StepSyncing(old(Abs()), sym)
    {
      TestKeeps(Abs(), sym);
      hide TestSync, IndexAvg;
      var found := Test(sym);
      if !found {
        ToSync1();
      }
    }

    method AtSync1(sym: Symbol)
      requires mode < |MODES|
      modifies this
      ensures Abs() == TickSync1(old(Abs()), sym)
    {
      hide ShiftIn32, EnterSync2;
      ghost var s := Abs();
      fiw := ShiftIn32(fiw, sym > 1);
      count := count + 1;
      assert Abs() == s.(fiw := ShiftIn32(s.fiw, sym > 1), count := s.count + 1);
      if count == 48 {
        ToSync2();
      }
    }

    method AtSync2()
      modifies this
      ensures Abs() == TickSync2(old(Abs()))
    {
      count := count + 1;
      if count == baud / 40 {
        ToData();
      }
    }

    method AtData(sym: Symbol) returns (out: seq<Quad>)
      modifies this
      ensures (Abs(), out) == TickData(old(Abs()), sym)
    {
      OutputKeeps(Abs(), sym);
      hide OutputSymbol, EnterIdle;
      ghost var s := Abs();
      out := Output(sym);
      count := count + 1;
      assert Abs() == OutputSymbol(s, sym).0.(count := s.count + 1);
      if count == baud * 1760 / 1000 {
        ToIdle();
      }
    }

    /** The body of the work loop; `out` is what it writes to the four phases. */
    method Take(sym: Symbol) returns (out: seq<Quad>)
      requires Valid()
      modifies this
      ensures (Abs(), out) == Sample(old(Abs()), sym)
    {
      SampleReady(Abs());
      hide StepIdle, StepSyncing, TickSync1, TickSync2, TickData, ValidState;
      out := [];
      ghost var s := Abs();
      index := Rem(index + 1, spb);
      assert Abs() == Advance(s);
      match stage {
        case Idle => AtIdle(sym);
        case Syncing => AtSyncing(sym);
        case Sync1 => if index == center { AtSync1(sym); }
        case Sync2 => if index == center { AtSync2(); }
        case Data => if index == center { out := AtData(sym); }
      }
    }

    method GeneralWork(noutputItems: nat, input: seq<Symbol>) returns (consumed: nat, out: seq<Quad>)
      requires Valid()
      modifies this
      ensures Valid() && consumed <= |input| && |out| <= noutputItems
      ensures consumed < |input| ==> |out| == noutputItems
      ensures (Current(), out) == Run(Step, old(Current()), input[..consumed])
    {
      hide Sample, ValidState;
      consumed, out := 0, [];
      while consumed < |input| && |out| < noutputItems
        invariant Valid() && consumed <= |input| && |out| <= noutputItems
        invariant (Current(), out) == Run(Step, old(Current()), input[..consumed])
      {
        ghost var before := Current();
        var sym := input[consumed];
        RunSnoc(Step, old(Current()), input[..consumed], sym);
        assert input[..consumed + 1] == input[..consumed] + [sym];
        AtMostOne(before, sym);
        SampleReady(before);
        consumed := consumed + 1;
        var o := Take(sym);
        out := out + o;
        assert Current() == Step(before, sym).0;
      }
    }
  }

  lemma AtMostOne(s: State, sym: Symbol)
    ensures |Step(s, sym).1| <= 1
  {
  }

  lemma TestKeeps(s: SyncState, sym: Symbol)
    requires 0 <= s.index < |s.sync|
    ensures TestSync(s, sym).0.spb == s.spb
  {
    hide SyncMode, ShiftIn;
  }

  lemma OutputKeeps(t: SyncState, sym: Symbol)
    ensures var u := OutputSymbol(t, sym).0; u == t.(bits := u.bits, hibit := u.hibit)
  {
  }

  lemma SampleReady(s: State)
    ensures s.spb > 0 && s.mode < |MODES|
    ensures s.stage == Idle || s.stage == Syncing ==> 0 <= Advance(s).index < |s.sync|
  {
  }
}
