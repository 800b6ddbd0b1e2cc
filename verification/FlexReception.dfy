/** The whole FLEX receive chain: a transmitted frame comes out as the pages that were put in,
    and the chain never loses its alignment. */
module FlexReception {
  import opened Machine
  import opened Sequences
  import opened FlexModes
  import opened FlexSync
  import opened FlexTiming
  import opened FlexFrame
  import opened FlexModulation
  import opened FlexAcquire
  import opened FlexDeinterleave
  import opened FlexParse
  import opened FlexChain

  // ---- samples to phases ----

  /** A frame received after any sync stage that saw the sync word from sample `o` of its last bit on, for `d` samples. */
  lemma FrameReceived(s: State, xs: seq<Symbol>, o: int, d: nat, mode: nat, qs: seq<Quad>)
    requires LeavesSyncing(s, xs, d) && mode == FrameMode(s, xs, d) && 0 <= o < 10
    requires |qs| == FRAME_BITS && FrameLength(mode, d) <= |xs|
    requires Held(MODES[mode], xs, o, Modulate(MODES[mode], qs))
    requires if MODES[mode].baud == 3200 then 3 <= o + d / 2 < 8 else o + d / 2 < 10
    ensures var (t, out) := Run(Step, s, xs[..FrameLength(mode, d)]);
            t.stage == Idle && out == Carried(MODES[mode], qs)
  {
    hide Step, ValidState, Run, Demux, Modulate, Carried, DataSamples, Held, LeavesSyncing;
    var m := MODES[mode];
    assert |Modulate(m, qs)| == DataSymbols(m);
    WholeFrame(s, xs, d);
    SamplesAreSymbols(mode, xs, o, d, Modulate(m, qs));
    DemuxModulate(m, qs);
  }

  /** A clean sync word followed by a frame. */
  ghost predicate Transmission(s: State, xs: seq<Symbol>, mode: nat, qs: seq<Quad>) {
    && CleanSync(s, xs, mode) && |qs| == FRAME_BITS
    && 631 + FrameLength(mode, 10) <= |xs|
    && Held(MODES[mode], xs[631..], 0, Modulate(MODES[mode], qs))
  }

  /** Samples from the start of the sync word to the end of the frame. */
  function TransmissionLength(mode: nat): nat
    requires mode < |MODES|
  {
    631 + FrameLength(mode, 10)
  }

  /** The four phases receive exactly the bits sent. */
  lemma TransmissionReceived(s: State, xs: seq<Symbol>, mode: nat, qs: seq<Quad>)
    requires Transmission(s, xs, mode, qs)
    ensures var (t, out) := Run(Step, s, xs[..TransmissionLength(mode)]);
            t.stage == Idle && out == Carried(MODES[mode], qs)
  {
    hide Step, ValidState, Run, Modulate, Carried, Held, LeavesSyncing, CleanSync;
    Acquires(s, xs, mode);
    var t, rest := Run(Step, s, xs[..631]).0, xs[631..];
    FrameReceived(t, rest, 0, 10, mode, qs);
    var n := FrameLength(mode, 10);
    assert xs[..631 + n] == xs[..631] + rest[..n];
    RunAppend(Step, s, xs[..631], rest[..n]);
    assert [] + Carried(MODES[mode], qs) == Carried(MODES[mode], qs);
  }

  // ---- phases to pages ----

  datatype Phase = A | B | C | D

  function BitOf(q: Quad, c: Phase): bool {
    match c
    case A => q.a
    case B => q.b
    case C => q.c
    case D => q.d
  }

  function PhaseOf(qs: seq<Quad>, c: Phase): (bits: seq<bool>)
    ensures |bits| == |qs|
  {
    seq(|qs|, k requires 0 <= k < |qs| => BitOf(qs[k], c))
  }

  predicate Uses(m: Mode, c: Phase) {
    match c
    case A => true
    case B => m.levels == 4
    case C => m.baud != 1600
    case D => m.levels == 4 && m.baud != 1600
  }

  /** The table of modes, by what each one carries: phase A always, B in all but the first, C and D in the last two. */
  lemma PhasesCarried(mode: nat, c: Phase)
    requires mode < |MODES|
    ensures Uses(MODES[mode], c) <==> c == A || (c == B && mode >= 1) || mode >= 2
    ensures MODES[mode].baud == if mode <= 1 then 1600 else 3200
    ensures MODES[mode].levels == 2 <==> mode == 0
  {
  }

  lemma CarriedPhase(m: Mode, qs: seq<Quad>, c: Phase)
    ensures PhaseOf(Carried(m, qs), c) == if Uses(m, c) then PhaseOf(qs, c) else Zeros(|qs|)
  {
  }

  type FramePayload = ws: seq<Payload> | |ws| == FRAME_WORDS witness seq<Payload>(FRAME_WORDS, _ => 0)

  /** Each phase of the frame carries the words `ws(c)`. */
  ghost predicate Carries(qs: seq<Quad>, ws: Phase -> FramePayload, check: Payload -> CheckBits) {
    |qs| == FRAME_BITS && forall c: Phase :: PhaseOf(qs, c) == PhaseBits(ws(c), check)
  }

  lemma PhaseReceived(m: Mode, qs: seq<Quad>, ws: Phase -> FramePayload, check: Payload -> CheckBits, c: Phase,
                      p: ParserState, beyond: nat -> Word)
    requires Carries(qs, ws, check) && p.count == 0
    ensures var bits := PhaseOf(Carried(m, qs), c);
            var q := Parsed(p, beyond, DataWords(bits));
            && q.count == 0
            && (Uses(m, c) ==> q.queue == p.queue + PagesOf(Frame(ws(c), beyond)))
            && (!Uses(m, c) ==> q.queue == p.queue)
  {
    hide PhaseOf, Carried, Uses, PhaseBits, DataWords, PagesOf, Parsed;
    CarriedPhase(m, qs, c);
    var words := DataWords(PhaseOf(Carried(m, qs), c));
    FrameParsed(p, beyond, words);
    if Uses(m, c) {
      assert PhaseOf(qs, c) == PhaseBits(ws(c), check);
      PhaseRoundTrip(ws(c), check);
    } else {
      SilentPhase(Zeros(|qs|));
      IdleFrame(Frame(words, beyond));
      assert p.queue + [] == p.queue;
    }
  }

  /** End to end: whatever words a transmitter puts on the phases, in any mode and with any check bits, a clean
      transmission makes the parser of each phase the mode carries report exactly the pages of those words, and
      the parsers of the other phases nothing. */
  lemma FrameToPages(s: State, xs: seq<Symbol>, mode: nat, qs: seq<Quad>,
                     ws: Phase -> FramePayload, check: Payload -> CheckBits,
                     c: Phase, p: ParserState, beyond: nat -> Word)
    requires Transmission(s, xs, mode, qs) && Carries(qs, ws, check) && p.count == 0
    ensures var (t, out) := Run(Step, s, xs[..TransmissionLength(mode)]);
            && t.stage == Idle && |out| % BLOCK_BITS == 0
            && var q := Parsed(p, beyond, DataWords(PhaseOf(out, c)));
            && q.count == 0
            && q.queue == p.queue + if Uses(MODES[mode], c) then PagesOf(Frame(ws(c), beyond)) else []
  {
    hide Step, ValidState, Run, Carried, Uses, PhaseOf, DataWords, PagesOf, Parsed, Carries;
    TransmissionReceived(s, xs, mode, qs);
    PhaseReceived(MODES[mode], qs, ws, check, c, p, beyond);
    assert p.queue + [] == p.queue;
  }

  // ---- alignment, for every run ----

  /** The part of a phase that the deinterleaver has consumed. */
  function WholeBlocks(bits: seq<bool>): (r: seq<bool>)
    ensures |r| % BLOCK_BITS == 0 && |r| / 32 == |bits| / BLOCK_BITS * BLOCK_WORDS
    ensures |bits| % BLOCK_BITS == 0 ==> r == bits
  {
    bits[..|bits| / BLOCK_BITS * BLOCK_BITS]
  }

  lemma BlockDivision(n: nat, k: nat, r: nat)
    requires n == BLOCK_BITS * k + r && r < BLOCK_BITS
    ensures n / BLOCK_BITS == k
  {
  }

  lemma FrameRemainder(n: nat, k: nat, r: nat)
    requires n == FRAME_WORDS * k + r && r < FRAME_WORDS
    ensures n % FRAME_WORDS == r
  {
  }

  lemma CountAligned(n: nat, produced: int)
    requires 0 <= produced < FRAME_BITS && (n - produced) % FRAME_BITS == 0 && produced <= n
    ensures n / BLOCK_BITS * BLOCK_WORDS % FRAME_WORDS == produced / BLOCK_BITS * BLOCK_WORDS
  {
    var q, k := (n - produced) / FRAME_BITS, produced / BLOCK_BITS;
    assert n == FRAME_BITS * q + produced;
    BlockDivision(n, 11 * q + k, produced - BLOCK_BITS * k);
    FrameRemainder(n / BLOCK_BITS * BLOCK_WORDS, q, k * BLOCK_WORDS);
  }

  /** In every run, whatever is received, each parser's word count is eight for every block of the frame in
      progress; so it is zero whenever the synchroniser is idle, and nothing is left in the deinterleaver. */
  lemma ChainAligned(s: State, xs: seq<Symbol>, c: Phase, p: ParserState, beyond: nat -> Word)
    requires s.stage == Idle && p.count == 0
    ensures var (t, out) := Run(Step, s, xs);
            var q := Parsed(p, beyond, DataWords(WholeBlocks(PhaseOf(out, c))));
            && q.count == Produced(t) / BLOCK_BITS * BLOCK_WORDS
            && (t.stage == Idle ==> q.count == 0 && WholeBlocks(PhaseOf(out, c)) == PhaseOf(out, c))
  {
    hide Step, ValidState, Run, PhaseOf, DataWords, Parsed, WholeBlocks, Produced;
    IdleProduces(s);
    Conservation(s, xs);
    var (t, out) := Run(Step, s, xs);
    var bits := WholeBlocks(PhaseOf(out, c));
    var words := DataWords(bits);
    ParserCount(p, beyond, words);
    WordsAligned(|out|, Produced(t), |bits|, |words|);
    IdleProduces(t);
    if t.stage == Idle {
      WholeNumber(|out|);
    }
  }

  lemma WordsAligned(n: nat, produced: int, bits: nat, words: nat)
    requires 0 <= produced < FRAME_BITS && (n - produced) % FRAME_BITS == 0 && produced <= n
    requires words * 32 == bits && bits / 32 == n / BLOCK_BITS * BLOCK_WORDS
    ensures words % FRAME_WORDS == produced / BLOCK_BITS * BLOCK_WORDS
  {
    CountAligned(n, produced);
    assert words == bits / 32;
  }

  lemma WholeNumber(n: nat)
    requires n % FRAME_BITS == 0
    ensures n % BLOCK_BITS == 0
  {
  }

  lemma IdleProduces(s: State)
    ensures s.stage == Idle ==> Produced(s) == 0
  {
  }
}
