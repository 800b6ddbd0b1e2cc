/** A FLEX transmitter, sample by sample, and delivery of any number of its frames from power-up,
    without further conditions. */
module FlexTransmitter {
  import opened Machine
  import opened Sequences
  import opened ShiftRegister
  import opened FlexModes
  import opened FlexSync
  import opened FlexTiming
  import opened FlexFrame
  import opened FlexModulation
  import opened FlexAcquire
  import opened FlexQuiet
  import opened FlexReady
  import opened FlexDeinterleave
  import opened FlexParse
  import opened FlexBroadcast
  import opened FlexChain
  import opened FlexReception
  import opened FlexEndToEnd

  /** Each symbol for `n` samples. */
  function Stretched(ys: seq<Symbol>, n: nat): (xs: seq<Symbol>)
    requires n == 5 || n == 10
    ensures |xs| == n * |ys|
  {
    seq<Symbol>(n * |ys|, k requires 0 <= k < n * |ys| => ys[k / n])
  }

  /** The sync word on the outer two levels. */
  function SyncSymbols(w: bv64): (ys: seq<Symbol>)
    ensures |ys| == 64
  {
    seq<Symbol>(64, k requires 0 <= k < 64 => if MsbBits(w, 64)[k] then 0 else 3)
  }

  /** The bits of the four phases. */
  function Quads(ws: Phase -> FramePayload, check: Payload -> CheckBits): (qs: seq<Quad>)
    ensures |qs| == FRAME_BITS
  {
    seq(FRAME_BITS, k requires 0 <= k < FRAME_BITS =>
      Quad(PhaseBits(ws(A), check)[k], PhaseBits(ws(B), check)[k], PhaseBits(ws(C), check)[k], PhaseBits(ws(D), check)[k]))
  }

  lemma QuadsCarry(ws: Phase -> FramePayload, check: Payload -> CheckBits)
    ensures Carries(Quads(ws, check), ws, check)
  {
    hide PhaseBits;
    forall c: Phase ensures PhaseOf(Quads(ws, check), c) == PhaseBits(ws(c), check) {
      assert forall k :: 0 <= k < FRAME_BITS ==> PhaseOf(Quads(ws, check), c)[k] == PhaseBits(ws(c), check)[k];
    }
  }

  /** Everything between the sync word and the data: dotting, information word and second sync. */
  const HEADER_SAMPLES := 880

  /** Sync word, header and data, each symbol held for its duration. */
  function Transmit(mode: nat, header: seq<Symbol>, qs: seq<Quad>): (xs: seq<Symbol>)
    requires mode < |MODES| && |header| == HEADER_SAMPLES && |qs| == FRAME_BITS
    ensures |xs| == 29680
  {
    var m := MODES[mode];
    Stretched(SyncSymbols(SYNC_WORDS[mode]), 10) + header + Stretched(Modulate(m, qs), SamplesPerSymbol(m))
  }

  lemma SyncSent(mode: nat, xs: seq<Symbol>, rest: seq<Symbol>)
    requires mode < |SYNC_WORDS| && xs == Stretched(SyncSymbols(SYNC_WORDS[mode]), 10) + rest
    ensures Oversampled(xs, MsbBits(SYNC_WORDS[mode], 64))
  {
    hide MsbBits;
    forall n | 0 <= n < 640 ensures IsOne(xs[n]) == MsbBits(SYNC_WORDS[mode], 64)[n / 10] {
      assert xs[n] == Stretched(SyncSymbols(SYNC_WORDS[mode]), 10)[n];
    }
  }

  lemma DataSent(m: Mode, before: seq<Symbol>, ys: seq<Symbol>)
    requires m in MODES && |before| == 889
    ensures Held(m, before + Stretched(ys, SamplesPerSymbol(m)), 0, ys)
  {
    var n := SamplesPerSymbol(m);
    var xs := before + Stretched(ys, n);
    forall k, i | 0 <= k < |ys| && Inside(m, 0, k, i) && i < |xs| ensures xs[i] == ys[k] {
      InsideSymbol(n, i - 889, k);
      assert xs[i] == Stretched(ys, n)[i - 889];
    }
  }

  lemma InsideSymbol(n: nat, i: int, k: nat)
    requires (n == 5 || n == 10) && n * k <= i < n * k + n
    ensures 0 <= i && i / n == k
  {
  }

  /** The transmitter's output is a clean transmission to a receiver that is ready. */
  lemma TransmitIsClean(s: State, mode: nat, header: seq<Symbol>, qs: seq<Quad>)
    requires Ready(s) && mode < |MODES| && |header| == HEADER_SAMPLES && |qs| == FRAME_BITS
    ensures Transmission(s, Transmit(mode, header, qs), mode, qs)
  {
    hide Stretched, SyncSymbols, Modulate, ValidState, Held, CleanSync, Settled;
    var m := MODES[mode];
    var ys, n := Modulate(m, qs), SamplesPerSymbol(m);
    var xs, sync := Transmit(mode, header, qs), Stretched(SyncSymbols(SYNC_WORDS[mode]), 10);
    assert xs == sync + (header + Stretched(ys, n));
    SyncSent(mode, xs, header + Stretched(ys, n));
    ReadyIsEnough(s, xs, mode);
    assert xs[631..] == (sync[631..] + header) + Stretched(ys, n);
    DataSent(m, sync[631..] + header, ys);
  }

  /** At the end of the frame the trial registers still hold the sync word. */
  lemma FrameLeaves(s: State, xs: seq<Symbol>, mode: nat, qs: seq<Quad>)
    requires Transmission(s, xs, mode, qs)
    ensures var e := Run(Step, s, xs[..TransmissionLength(mode)]).0;
            e.stage == Idle && e.index == 0 && AllJustHeld(e)
  {
    hide Step, ValidState, Run, Held, LeavesSyncing, Oversampled, StillIdle, MsbBits, JustHeld;
    Acquires(s, xs, mode);
    AfterSync(s, xs, mode);
    var t, rest, n := Run(Step, s, xs[..631]).0, xs[631..], FrameLength(mode, 10);
    FrozenRun(t, rest, 10, n);
    assert xs[..641] == xs[..631] + rest[..10];
    RunAppend(Step, s, xs[..631], rest[..10]);
    assert xs[..631 + n] == xs[..631] + rest[..n];
    RunAppend(Step, s, xs[..631], rest[..n]);
  }

  /** One transmission to a ready receiver: it receives the frame and is ready again. */
  lemma TransmitReceived(s: State, mode: nat, header: seq<Symbol>, qs: seq<Quad>)
    requires Ready(s) && mode < |MODES| && |header| == HEADER_SAMPLES && |qs| == FRAME_BITS
    ensures var (t, out) := Run(Step, s, Transmit(mode, header, qs));
            Ready(t) && out == Carried(MODES[mode], qs)
  {
    hide Step, ValidState, Run, Transmission, Transmit, Carried, JustHeld, Settled;
    var xs, n := Transmit(mode, header, qs), TransmissionLength(mode);
    TransmitIsClean(s, mode, header, qs);
    TransmissionReceived(s, xs, mode, qs);
    FrameLeaves(s, xs, mode, qs);
    TrailingReady(Run(Step, s, xs[..n]).0, xs[n..]);
    assert xs == xs[..n] + xs[n..];
    RunAppend(Step, s, xs[..n], xs[n..]);
    assert Carried(MODES[mode], qs) + [] == Carried(MODES[mode], qs);
  }

  // ---- any number of frames ----

  /** What is sent in one frame: a mode, any header, the words of the four phases and their check bits. */
  datatype FrameFields =
    FrameFields(mode: nat, header: seq<Symbol>, ws: Phase -> FramePayload, check: Payload -> CheckBits)

  ghost predicate Transmittable(b: FrameFields) {
    b.mode < |MODES| && |b.header| == HEADER_SAMPLES
  }

  type Broadcast = b: FrameFields | Transmittable(b)
    witness FrameFields(0, seq<Symbol>(HEADER_SAMPLES, _ => 0), _ => seq<Payload>(FRAME_WORDS, _ => 0),
                        _ => seq(CODE_BITS - DATA_BITS, _ => false))

  function Signal(b: Broadcast): seq<Symbol> {
    Transmit(b.mode, b.header, Quads(b.ws, b.check))
  }

  /** Frames sent one after the other. */
  function Signals(bs: seq<Broadcast>): seq<Symbol> {
    if bs == [] then [] else Signals(bs[..|bs| - 1]) + Signal(bs[|bs| - 1])
  }

  function Received(b: Broadcast): (qs: seq<Quad>)
    ensures |qs| == FRAME_BITS
  {
    Carried(MODES[b.mode], Quads(b.ws, b.check))
  }

  function AllReceived(bs: seq<Broadcast>): (qs: seq<Quad>)
    ensures |qs| % BLOCK_BITS == 0
  {
    if bs == [] then [] else AllReceived(bs[..|bs| - 1]) + Received(bs[|bs| - 1])
  }

  /** Any number of frames, in any mixture of modes, are received exactly, one after the other. */
  lemma {:induction false} SignalsReceived(s: State, bs: seq<Broadcast>)
    requires Ready(s)
    ensures var (t, out) := Run(Step, s, Signals(bs)); Ready(t) && out == AllReceived(bs)
    decreases |bs|
  {
    hide Step, ValidState, Run, Ready, Signal, Received, Transmit, Carried, Quads;
    if bs == [] {
      RunNone(s);
    } else {
      var front, last := bs[..|bs| - 1], bs[|bs| - 1];
      SignalsReceived(s, front);
      RunAppend(Step, s, Signals(front), Signal(last));
      LastReceived(Run(Step, s, Signals(front)).0, last);
    }
  }

  lemma LastReceived(s: State, b: Broadcast)
    requires Ready(s)
    ensures var (t, out) := Run(Step, s, Signal(b)); Ready(t) && out == Received(b)
  {
    hide Step, ValidState, Run, Ready, Transmit, Carried, Quads;
    TransmitReceived(s, b.mode, b.header, Quads(b.ws, b.check));
  }

  /** The words of a frame on phase `c`: idle words if the mode does not carry it. */
  function FrameOn(b: Broadcast, c: Phase): FrameData {
    if Uses(MODES[b.mode], c) then b.ws(c) else seq<Word>(FRAME_WORDS, _ => IDLE_WORD)
  }

  function FramesOn(bs: seq<Broadcast>, c: Phase): (frames: seq<FrameData>)
    ensures |frames| == |bs|
    ensures forall k :: 0 <= k < |bs| ==> frames[k] == FrameOn(bs[k], c)
  {
    seq(|bs|, k requires 0 <= k < |bs| => FrameOn(bs[k], c))
  }

  lemma WordsReceived(b: Broadcast, c: Phase)
    ensures DataWords(PhaseOf(Received(b), c)) == FrameOn(b, c)
  {
    hide Carried, Quads, PhaseOf, Uses, PhaseBits, DataWords, Zeros;
    var qs := Quads(b.ws, b.check);
    CarriedPhase(MODES[b.mode], qs, c);
    QuadsCarry(b.ws, b.check);
    if Uses(MODES[b.mode], c) {
      assert PhaseOf(qs, c) == PhaseBits(b.ws(c), b.check);
      PhaseRoundTrip(b.ws(c), b.check);
    } else {
      NoBitsSet(FRAME_BITS);
      SilentPhase(Zeros(FRAME_BITS));
    }
  }

  lemma NoBitsSet(n: nat)
    ensures forall k :: 0 <= k < n ==> !Zeros(n)[k]
  {
  }

  lemma PhaseAppend(a: seq<Quad>, b: seq<Quad>, c: Phase)
    ensures PhaseOf(a + b, c) == PhaseOf(a, c) + PhaseOf(b, c)
  {
  }

  lemma {:induction false} AllWordsReceived(bs: seq<Broadcast>, c: Phase)
    ensures DataWords(PhaseOf(AllReceived(bs), c)) == Flatten(FramesOn(bs, c))
    decreases |bs|
  {
    hide Received, PhaseOf, DataWords, FrameOn, Flatten;
    if bs == [] {
      NoFrames(c);
    } else {
      var front, last := bs[..|bs| - 1], bs[|bs| - 1];
      AllWordsReceived(front, c);
      PhaseAppend(AllReceived(front), Received(last), c);
      DataWordsAppend(PhaseOf(AllReceived(front), c), PhaseOf(Received(last), c));
      WordsReceived(last, c);
      assert FramesOn(bs, c) == FramesOn(front, c) + [FrameOn(last, c)];
      FlattenSnoc<Word>(FramesOn(front, c), FrameOn(last, c));
    }
  }

  lemma NoFrames(c: Phase)
    ensures DataWords(PhaseOf([], c)) == [] && Flatten<Word>([]) == []
  {
    assert PhaseOf([], c) == [];
  }

  /** From any number of frames in any modes, sent to a ready receiver, the parser of each phase reports the pages
      of that phase's words, frame by frame, and nothing from frames whose mode does not carry the phase. */
  lemma FramesDelivered(s: State, bs: seq<Broadcast>, c: Phase, p: ParserState, beyond: nat -> Word)
    requires Ready(s) && p.count == 0
    ensures var (t, out) := Run(Step, s, Signals(bs));
            && Ready(t) && |out| % BLOCK_BITS == 0
            && var q := Parsed(p, beyond, DataWords(PhaseOf(out, c)));
            && q.count == 0
            && q.queue == p.queue + PagesOfAll(FramesOn(bs, c), beyond)
  {
    hide Step, ValidState, Run, Ready, Signals, AllReceived, PhaseOf, DataWords, Parsed, FramesOn, PagesOfAll, Flatten;
    SignalsReceived(s, bs);
    AllWordsReceived(bs, c);
    FramesParsed(p, beyond, FramesOn(bs, c));
  }

  // ---- messages ----

  /** The messages that frame by frame make up the words on phase `c`, and what fills the frames up. */
  ghost predicate SendsAll(bs: seq<Broadcast>, c: Phase, css: seq<seq<Notice>>, fills: seq<seq<Payload>>) {
    && |css| == |fills| == |bs|
    && forall k :: 0 <= k < |bs| ==> Uses(MODES[bs[k].mode], c) && Sends(bs[k].ws, c, css[k], fills[k])
  }

  function AllDelivered(css: seq<seq<Notice>>): seq<Page> {
    if css == [] then []
    else AllDelivered(css[..|css| - 1]) + Delivered(css[|css| - 1], Start(css[|css| - 1]))
  }

  lemma {:induction false} PagesAreMessages(bs: seq<Broadcast>, c: Phase, css: seq<seq<Notice>>,
                                            fills: seq<seq<Payload>>, beyond: nat -> Word)
    requires SendsAll(bs, c, css, fills)
    ensures PagesOfAll(FramesOn(bs, c), beyond) == AllDelivered(css)
    decreases |bs|
  {
    hide PagesOf, Delivered, BroadcastWords, Uses, Fits;
    if bs != [] {
      var n := |bs| - 1;
      PagesAreMessages(bs[..n], c, css[..n], fills[..n], beyond);
      assert FramesOn(bs, c)[..n] == FramesOn(bs[..n], c);
      BroadcastRoundTrip(css[n], fills[n], beyond);
      assert FramesOn(bs, c)[n] == FrameOn(bs[n], c) == BroadcastWords(css[n], fills[n]);
    }
  }

  /** From power-up, for any number of frames of messages, in any modes, with any headers and check bits: the parser
      of a phase reports exactly the messages whose vectors it accepts, in the order in which they were sent. */
  lemma DeliveredFromPowerUp(s: State, bs: seq<Broadcast>, c: Phase, p: ParserState, beyond: nat -> Word,
                             css: seq<seq<Notice>>, fills: seq<seq<Payload>>)
    requires Cold(s) && p.count == 0 && SendsAll(bs, c, css, fills)
    ensures var (t, out) := Run(Step, s, Signals(bs));
            && Ready(t) && |out| % BLOCK_BITS == 0
            && Parsed(p, beyond, DataWords(PhaseOf(out, c))).queue == p.queue + AllDelivered(css)
  {
    hide Step, ValidState, Run, Ready, Signals, PhaseOf, DataWords, Parsed, FramesOn, SendsAll, AllDelivered, PagesOfAll;
    ColdIsReady(s);
    FramesDelivered(s, bs, c, p, beyond);
    PagesAreMessages(bs, c, css, fills, beyond);
  }
}
