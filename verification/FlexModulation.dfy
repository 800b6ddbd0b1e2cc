/** The FLEX transmitter's symbols: the receiver's demultiplexing inverts them, and samples
    them inside the right symbol. */
module FlexModulation {
  import opened FlexModes
  import opened FlexSync
  import opened FlexTiming
  import opened FlexFrame

  // ---- symbols ----

  /** The Gray code of a dibit. */
  function Gray(a: bool, b: bool): Symbol {
    if a then (if b then 0 else 1) else (if b then 3 else 2)
  }

  /** Two-level transmission uses the outer symbols only. */
  function Level(m: Mode, a: bool, b: bool): Symbol {
    Gray(a, m.levels == 2 || b)
  }

  /** The data symbols of a frame: at 3200 baud phases A, B and phases C, D take turns. */
  function Modulate(m: Mode, qs: seq<Quad>): (ys: seq<Symbol>)
    ensures |ys| == if m.baud == 1600 then |qs| else 2 * |qs|
  {
    if m.baud == 1600 then
      seq<Symbol>(|qs|, k requires 0 <= k < |qs| => Level(m, qs[k].a, qs[k].b))
    else
      seq<Symbol>(2 * |qs|, k requires 0 <= k < 2 * |qs| =>
        if k % 2 == 0 then Level(m, qs[k / 2].a, qs[k / 2].b) else Level(m, qs[k / 2].c, qs[k / 2].d))
  }

  /** The phases a mode carries. */
  function Carried(m: Mode, qs: seq<Quad>): (r: seq<Quad>)
    ensures |r| == |qs|
  {
    var two, four := m.baud != 1600, m.levels == 4;
    seq(|qs|, k requires 0 <= k < |qs| => Quad(qs[k].a, four && qs[k].b, two && qs[k].c, two && four && qs[k].d))
  }

  lemma LevelBits(m: Mode, a: bool, b: bool)
    requires m.levels == 2 || m.levels == 4
    ensures var y := Level(m, a, b);
            IsOne(y) == a && (m.levels == 4 && IsOuter(y)) == (m.levels == 4 && b)
  {
  }

  /** What the receiver makes of the transmitted symbols is what was sent; phases the mode does not carry are zero. */
  lemma DemuxModulate(m: Mode, qs: seq<Quad>)
    requires m in MODES
    ensures Demux(m, Modulate(m, qs)) == Carried(m, qs)
  {
    assert (m.baud == 1600 || m.baud == 3200) && (m.levels == 2 || m.levels == 4);
    hide Level, IsOne, IsOuter;
    forall k | 0 <= k < |qs| ensures Demux(m, Modulate(m, qs))[k] == Carried(m, qs)[k] {
      LevelBits(m, qs[k].a, qs[k].b);
      if m.baud == 3200 {
        LevelBits(m, qs[k].c, qs[k].d);
        TwoSymbols(m, qs, k);
      }
    }
  }

  lemma TwoSymbols(m: Mode, qs: seq<Quad>, k: nat)
    requires m.baud == 3200 && k < |qs|
    ensures var ys := Modulate(m, qs);
            ys[2 * k] == Level(m, qs[k].a, qs[k].b) && ys[2 * k + 1] == Level(m, qs[k].c, qs[k].d)
  {
    assert (2 * k) / 2 == k && (2 * k + 1) / 2 == k && (2 * k) % 2 == 0 && (2 * k + 1) % 2 == 1;
    hide Level;
  }

  ghost predicate Symbols(m: Mode, ys: seq<Symbol>) {
    && (m.baud != 1600 ==> |ys| % 2 == 0)
    && forall k :: 0 <= k < |ys| ==> ys[k] < 4 && (m.levels == 2 ==> IsOuter(ys[k]))
  }

  /** The output streams are exactly the bits whose Gray-coded dibits gave the symbols. */
  lemma ModulateDemux(m: Mode, ys: seq<Symbol>)
    requires m in MODES && Symbols(m, ys)
    ensures Modulate(m, Demux(m, ys)) == ys
  {
    var qs := Demux(m, ys);
    forall k | 0 <= k < |ys| ensures Modulate(m, qs)[k] == ys[k] {
      if m.baud != 1600 {
        assert 2 * (k / 2) + k % 2 == k;
        var q := qs[k / 2];
        assert q == Quad(IsOne(ys[2 * (k / 2)]), m.levels == 4 && IsOuter(ys[2 * (k / 2)]),
                         IsOne(ys[2 * (k / 2) + 1]), m.levels == 4 && IsOuter(ys[2 * (k / 2) + 1]));
      }
    }
  }

  // ---- where the symbols are sampled ----

  /** Samples from the start of the last sync bit to the start of the data: that bit, 16 bits of dotting and
      the 32 bits of the information word, and 25 ms of idle bits, all at ten samples per 1600 baud bit. */
  const HEADER := 10 * (1 + 16 + 32 + 40)

  /** Position of the first sample of data symbol `k`, counted from just after sample `o` of the last sync bit. */
  function SymbolStart(m: Mode, o: int, k: nat): int {
    HEADER - (o + 1) + SamplesPerSymbol(m) * k
  }

  /** The place inside each data symbol where it is sampled, if the sync word was seen at
      `d` samples from sample `o` of its last bit on. */
  function SampledAt(m: Mode, o: int, d: nat): int {
    if m.baud == 3200 then o + d / 2 - 3 else o + d / 2
  }

  lemma SamplePosition(mode: nat, o: int, d: nat, k: nat)
    requires mode < |MODES| && k < DataSymbols(MODES[mode])
    ensures var m := MODES[mode];
            DataPosition(m, FrameLength(mode, d), k) == SymbolStart(m, o, k) + SampledAt(m, o, d)
  {
  }

  ghost predicate Inside(m: Mode, o: int, k: nat, n: int) {
    SymbolStart(m, o, k) <= n < SymbolStart(m, o, k) + SamplesPerSymbol(m)
  }

  /** Exactly when every data symbol is sampled inside itself. */
  lemma SamplesOwnSymbol(mode: nat, o: nat, d: nat)
    requires mode < |MODES|
    ensures var m := MODES[mode];
            (forall k :: 0 <= k < DataSymbols(m) ==> Inside(m, o, k, DataPosition(m, FrameLength(mode, d), k)))
            <==> (if m.baud == 3200 then 3 <= o + d / 2 < 8 else o + d / 2 < 10)
  {
    var m := MODES[mode];
    SamplePosition(mode, o, d, 0);
    assert Inside(m, o, 0, DataPosition(m, FrameLength(mode, d), 0)) <==> 0 <= SampledAt(m, o, d) < SamplesPerSymbol(m);
    forall k | 0 <= k < DataSymbols(m)
      ensures Inside(m, o, k, DataPosition(m, FrameLength(mode, d), k)) <==> 0 <= SampledAt(m, o, d) < SamplesPerSymbol(m)
    {
      SamplePosition(mode, o, d, k);
    }
  }

  /** Every data symbol is held for its whole duration. */
  ghost predicate Held(m: Mode, xs: seq<Symbol>, o: int, ys: seq<Symbol>)
    requires 0 <= o < 10
  {
    && SymbolStart(m, o, |ys|) <= |xs|
    && forall k, n :: 0 <= k < |ys| && Inside(m, o, k, n) && n < |xs| ==> xs[n] == ys[k]
  }

  /** The sampled symbols are the transmitted ones. */
  lemma SamplesAreSymbols(mode: nat, xs: seq<Symbol>, o: int, d: nat, ys: seq<Symbol>)
    requires mode < |MODES| && 0 <= o < 10 && |ys| == DataSymbols(MODES[mode])
    requires if MODES[mode].baud == 3200 then 3 <= o + d / 2 < 8 else o + d / 2 < 10
    requires Held(MODES[mode], xs, o, ys) && FrameLength(mode, d) <= |xs|
    ensures DataSamples(MODES[mode], xs, FrameLength(mode, d), |ys|) == ys
  {
    var m, length := MODES[mode], FrameLength(mode, d);
    forall k | 0 <= k < |ys| ensures DataSamples(m, xs, length, |ys|)[k] == ys[k] {
      SamplePosition(mode, o, d, k);
      assert Inside(m, o, k, DataPosition(m, length, k));
    }
  }
}
