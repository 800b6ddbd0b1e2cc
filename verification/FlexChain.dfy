/** From phase bits to data words to pages, and back: the transmitter's interleaving and
    what the receive chain makes of it. */
module FlexChain {
  import opened Integers
  import opened Sequences
  import opened ShiftRegister
  import opened FlexUtil
  import opened FlexDeinterleave
  import opened FlexParse
  import opened FlexMessages

  // ---- data words as integers ----

  lemma {:induction false} ValueOfBits(w: nat, n: nat)
    requires w < Pow2(n)
    ensures Value(LsbBits(w, n)) == w
    decreases n
  {
    if n > 0 {
      ValueOfBits(w / 2, n - 1);
      assert LsbBits(w, n)[1..] == LsbBits(w / 2, n - 1);
    }
  }

  lemma {:induction false} ValueZeros(bits: seq<bool>, n: nat)
    ensures Value(bits + Zeros(n)) == Value(bits)
    decreases |bits| + n
  {
    if bits != [] {
      ValueZeros(bits[1..], n);
      assert (bits + Zeros(n))[1..] == bits[1..] + Zeros(n);
    } else if n > 0 {
      ValueZeros([], n - 1);
      assert ([] + Zeros(n))[1..] == [] + Zeros(n - 1);
    }
  }

  /** The data word carried by a codeword. */
  function DataWord(code: seq<bool>): Payload
    requires |code| == CODE_BITS
  {
    WordFits();
    Value(Complement(code[..DATA_BITS]))
  }

  /** A register read as an integer: its bits, from the least significant. */
  function Reading(r: bv64): nat {
    Value(Mirror(MsbBits(r, CODE_BITS)))
  }

  /** The deinterleaver's output register, read as an integer, is the data word of its codeword. */
  lemma ReadingIsDataWord(r: bv64, code: seq<bool>)
    requires |code| == CODE_BITS && MsbBits(r, CODE_BITS) == DataWindow(code)
    ensures Reading(r) == DataWord(code)
  {
    hide MsbBits, Value;
    assert Mirror(DataWindow(code)) == Complement(code[..DATA_BITS]) + Zeros(CODE_BITS - DATA_BITS);
    ValueZeros(Complement(code[..DATA_BITS]), CODE_BITS - DATA_BITS);
  }

  // ---- blocks ----

  type Block = b: seq<bool> | |b| == BLOCK_BITS witness seq(BLOCK_BITS, _ => false)

  function BlockWords(block: Block): (words: seq<Word>)
    ensures |words| == BLOCK_WORDS
  {
    seq<Word>(BLOCK_WORDS, j requires 0 <= j < BLOCK_WORDS => DataWord(Column(block, j)))
  }

  /** The data words of a phase. */
  function DataWords(bits: seq<bool>): (words: seq<Word>)
    requires |bits| % BLOCK_BITS == 0
    ensures |words| * 32 == |bits|
    decreases |bits|
  {
    if bits == [] then []
    else
      var n := |bits| - BLOCK_BITS;
      DataWords(bits[..n]) + BlockWords(bits[n..])
  }

  lemma DataWordsSnoc(bits: seq<bool>, block: Block)
    requires |bits| % BLOCK_BITS == 0
    ensures |bits + block| % BLOCK_BITS == 0 && DataWords(bits + block) == DataWords(bits) + BlockWords(block)
  {
    hide BlockWords;
    assert (bits + block)[..|bits|] == bits && (bits + block)[|bits|..] == block;
  }

  lemma {:induction false} DataWordsAppend(a: seq<bool>, b: seq<bool>)
    requires |a| % BLOCK_BITS == 0 && |b| % BLOCK_BITS == 0
    ensures |a + b| % BLOCK_BITS == 0 && DataWords(a + b) == DataWords(a) + DataWords(b)
    decreases |b|
  {
    hide BlockWords, DataWords;
    if b == [] {
      assert a + b == a;
      NoWords();
    } else {
      var front, block: Block := b[..|b| - BLOCK_BITS], b[|b| - BLOCK_BITS..];
      assert b == front + block && a + b == (a + front) + block;
      DataWordsAppend(a, front);
      DataWordsSnoc(front, block);
      DataWordsSnoc(a + front, block);
    }
  }

  lemma NoWords()
    ensures DataWords([]) == []
  {
  }

  /** The deinterleaver's outputs, read as integers, over a number of blocks. */
  function Readings(registers: seq<bv64>): (words: seq<nat>)
    ensures |words| == |registers|
  {
    seq(|registers|, k requires 0 <= k < |registers| => Reading(registers[k]))
  }

  lemma BlockReadings(registers: seq<bv64>, block: Block)
    requires |registers| == BLOCK_WORDS
    requires forall j :: 0 <= j < BLOCK_WORDS ==> MsbBits(registers[j], CODE_BITS) == DataWindow(Column(block, j))
    ensures Readings(registers) == BlockWords(block)
  {
    hide MsbBits, DataWindow, Column, Reading, DataWord;
    forall j | 0 <= j < BLOCK_WORDS ensures Readings(registers)[j] == BlockWords(block)[j] {
      ReadingIsDataWord(registers[j], Column(block, j));
    }
  }

  /** The deinterleaver called once for every block of a phase, whatever it held before: what it puts out are the
      data words of the phase. */
  method DeinterleavePhase(d: Deinterleaver, bits: seq<bool>) returns (registers: seq<bv64>)
    requires d.Valid() && |bits| % BLOCK_BITS == 0
    modifies d.codewords
    ensures Readings(registers) == DataWords(bits)
  {
    hide MsbBits, DataWindow, Column, Reading, BlockWords, DataWords;
    registers := [];
    var n := 0;
    NoWords();
    assert bits[..0] == [];
    while n < |bits|
      invariant n <= |bits| && n % BLOCK_BITS == 0
      invariant Readings(registers) == DataWords(bits[..n])
    {
      var block: Block := bits[n..n + BLOCK_BITS];
      var out := d.Work(block);
      BlockReadings(out, block);
      DataWordsSnoc(bits[..n], block);
      assert bits[..n + BLOCK_BITS] == bits[..n] + block;
      assert Readings(registers + out) == Readings(registers) + Readings(out);
      registers := registers + out;
      n := n + BLOCK_BITS;
    }
    assert bits[..n] == bits;
  }

  // ---- the transmitter ----

  type CheckBits = s: seq<bool> | |s| == CODE_BITS - DATA_BITS witness seq(CODE_BITS - DATA_BITS, _ => false)

  /** A data word is sent least significant bit first, inverted, and followed by check bits. */
  function CodeBits(w: Payload, check: Payload -> CheckBits): (code: seq<bool>)
    ensures |code| == CODE_BITS
  {
    Complement(LsbBits(w, DATA_BITS)) + check(w)
  }

  /** Eight codewords, sent bit by bit in turn. */
  function Interleaved(words: seq<Payload>, check: Payload -> CheckBits): Block
    requires |words| == BLOCK_WORDS
  {
    seq(BLOCK_BITS, n requires 0 <= n < BLOCK_BITS => CodeBits(words[n % BLOCK_WORDS], check)[n / BLOCK_WORDS])
  }

  lemma ColumnOfInterleaved(words: seq<Payload>, check: Payload -> CheckBits, j: nat)
    requires |words| == BLOCK_WORDS && j < BLOCK_WORDS
    ensures Column(Interleaved(words, check), j) == CodeBits(words[j], check)
  {
    hide CodeBits;
    forall i | 0 <= i < CODE_BITS ensures Column(Interleaved(words, check), j)[i] == CodeBits(words[j], check)[i] {
      assert (BLOCK_WORDS * i + j) % BLOCK_WORDS == j && (BLOCK_WORDS * i + j) / BLOCK_WORDS == i;
    }
  }

  lemma DataWordOfCode(w: Payload, check: Payload -> CheckBits)
    ensures DataWord(CodeBits(w, check)) == w
  {
    hide LsbBits, Value;
    WordFits();
    ValueOfBits(w, DATA_BITS);
    assert Complement(CodeBits(w, check)[..DATA_BITS]) == LsbBits(w, DATA_BITS);
  }

  /** Deinterleaving undoes interleaving, whatever the check bits. */
  lemma BlockRoundTrip(words: seq<Payload>, check: Payload -> CheckBits)
    requires |words| == BLOCK_WORDS
    ensures BlockWords(Interleaved(words, check)) == words
  {
    hide DataWord, Column, Interleaved, CodeBits;
    forall j | 0 <= j < BLOCK_WORDS ensures BlockWords(Interleaved(words, check))[j] == words[j] {
      ColumnOfInterleaved(words, check, j);
      DataWordOfCode(words[j], check);
    }
  }

  function PhaseBits(words: seq<Payload>, check: Payload -> CheckBits): (bits: seq<bool>)
    requires |words| % BLOCK_WORDS == 0
    ensures |bits| == 32 * |words| && |bits| % BLOCK_BITS == 0
    decreases |words|
  {
    if words == [] then []
    else
      var n := |words| - BLOCK_WORDS;
      PhaseBits(words[..n], check) + Interleaved(words[n..], check)
  }

  lemma OneBlock(block: Block)
    ensures DataWords(block) == BlockWords(block)
  {
    hide BlockWords;
    assert block[0..] == block && block[..0] == [];
    assert DataWords([]) == [];
  }

  lemma LastBlock(words: seq<Payload>, check: Payload -> CheckBits)
    requires |words| % BLOCK_WORDS == 0 && words != []
    ensures var n := |words| - BLOCK_WORDS;
            PhaseBits(words, check) == PhaseBits(words[..n], check) + Interleaved(words[n..], check)
  {
    hide Interleaved;
  }

  lemma PhaseStep(front: seq<Payload>, last: seq<Payload>, check: Payload -> CheckBits)
    requires |front| % BLOCK_WORDS == 0 && |last| == BLOCK_WORDS && |front + last| % BLOCK_WORDS == 0
    requires DataWords(PhaseBits(front, check)) == front
    ensures DataWords(PhaseBits(front + last, check)) == front + last
  {
    hide BlockWords, Interleaved, DataWords, PhaseBits;
    var words := front + last;
    assert words[..|front|] == front && words[|front|..] == last;
    LastBlock(words, check);
    DataWordsAppend(PhaseBits(front, check), Interleaved(last, check));
    OneBlock(Interleaved(last, check));
    BlockRoundTrip(last, check);
  }

  /** Any number of blocks. */
  lemma {:induction false} PhaseRoundTrip(words: seq<Payload>, check: Payload -> CheckBits)
    requires |words| % BLOCK_WORDS == 0
    ensures DataWords(PhaseBits(words, check)) == words
    decreases |words|
  {
    hide DataWords, PhaseBits;
    if words == [] {
      NoPhaseBits(check);
    } else {
      var n := |words| - BLOCK_WORDS;
      PhaseRoundTrip(words[..n], check);
      assert words == words[..n] + words[n..];
      PhaseStep(words[..n], words[n..], check);
    }
  }

  lemma NoPhaseBits(check: Payload -> CheckBits)
    ensures PhaseBits([], check) == [] && DataWords([]) == []
  {
  }

  // ---- a phase with nothing on it ----

  lemma SilentBlock(block: Block)
    requires forall k :: 0 <= k < |block| ==> !block[k]
    ensures BlockWords(block) == seq(BLOCK_WORDS, _ => IDLE_WORD)
  {
    hide Value;
    forall j | 0 <= j < BLOCK_WORDS ensures BlockWords(block)[j] == IDLE_WORD {
      assert Complement(Column(block, j)[..DATA_BITS]) == Ones(DATA_BITS);
      OnesValue(DATA_BITS);
      WordFits();
    }
  }

  function Ones(n: nat): (r: seq<bool>)
    ensures |r| == n
  {
    seq(n, _ => true)
  }

  lemma {:induction false} OnesValue(n: nat)
    ensures Value(Ones(n)) == Pow2(n) - 1
    decreases n
  {
    if n > 0 {
      OnesValue(n - 1);
      assert Ones(n)[1..] == Ones(n - 1);
    }
  }

  /** The zeros on an unused phase decode to idle words. */
  lemma {:induction false} SilentPhase(bits: seq<bool>)
    requires |bits| % BLOCK_BITS == 0
    requires forall k :: 0 <= k < |bits| ==> !bits[k]
    ensures forall k :: 0 <= k < |DataWords(bits)| ==> DataWords(bits)[k] == IDLE_WORD
    decreases |bits|
  {
    hide BlockWords;
    if bits != [] {
      SilentPhase(bits[..|bits| - BLOCK_BITS]);
      SilentBlock(bits[|bits| - BLOCK_BITS..]);
    }
  }

  // ---- the parser stays aligned ----

  /** The count of words in the parser's array. */
  lemma {:induction false} ParserCount(s: ParserState, beyond: nat -> Word, input: seq<Word>)
    ensures Parsed(s, beyond, input).count == (s.count + |input|) % FRAME_WORDS
    decreases |input|
  {
    hide PagesOf;
    if input != [] {
      ParserCount(s, beyond, input[..|input| - 1]);
    }
  }

  lemma {:induction false} ParsedAppend(s: ParserState, beyond: nat -> Word, a: seq<Word>, b: seq<Word>)
    ensures Parsed(s, beyond, a + b) == Parsed(Parsed(s, beyond, a), beyond, b)
    decreases |b|
  {
    hide ParseWord;
    if b == [] {
      assert a + b == a;
    } else {
      assert (a + b)[..|a + b| - 1] == a + b[..|b| - 1];
      ParsedAppend(s, beyond, a, b[..|b| - 1]);
    }
  }

  /** A frame's words fill the array in order. */
  lemma {:induction false} Filling(s: ParserState, beyond: nat -> Word, input: seq<Word>)
    requires s.count == 0 && |input| < FRAME_WORDS
    ensures Parsed(s, beyond, input) == Collector(input + s.words[|input|..], |input|, s.queue)
    decreases |input|
  {
    hide PagesOf;
    if input == [] {
      assert [] + s.words[0..] == s.words;
    } else {
      var front, w := input[..|input| - 1], input[|input| - 1];
      Filling(s, beyond, front);
      assert (front + s.words[|front|..])[|front| := w] == input + s.words[|input|..];
    }
  }

  /** One aligned frame is one look at its pages. */
  lemma FrameParsed(s: ParserState, beyond: nat -> Word, words: seq<Word>)
    requires s.count == 0 && |words| == FRAME_WORDS
    ensures Parsed(s, beyond, words) == Collector(words, 0, s.queue + PagesOf(Frame(words, beyond)))
  {
    hide PagesOf;
    var front, w := words[..FRAME_WORDS - 1], words[FRAME_WORDS - 1];
    Filling(s, beyond, front);
    assert (front + s.words[|front|..])[|front| := w] == words;
  }

  /** A frame's worth of words. */
  type FrameData = ws: seq<Word> | |ws| == FRAME_WORDS witness seq<Word>(FRAME_WORDS, _ => 0)

  function PagesOfAll(frames: seq<FrameData>, beyond: nat -> Word): seq<Page> {
    if frames == [] then []
    else PagesOfAll(frames[..|frames| - 1], beyond) + PagesOf(Frame(frames[|frames| - 1], beyond))
  }

  /** Any number of frames: each is looked at by itself, and nothing of one is left for the next. */
  lemma {:induction false} FramesParsed(s: ParserState, beyond: nat -> Word, frames: seq<FrameData>)
    requires s.count == 0
    ensures var t := Parsed(s, beyond, Flatten(frames));
            t.count == 0 && t.queue == s.queue + PagesOfAll(frames, beyond)
    decreases |frames|
  {
    hide PagesOf, Parsed;
    if frames == [] {
      NoneParsed(s, beyond);
    } else {
      var front, last := frames[..|frames| - 1], frames[|frames| - 1];
      FramesParsed(s, beyond, front);
      ParsedAppend(s, beyond, Flatten(front), last);
      FrameParsed(Parsed(s, beyond, Flatten(front)), beyond, last);
    }
  }

  lemma NoneParsed(s: ParserState, beyond: nat -> Word)
    ensures Parsed(s, beyond, []) == s
  {
  }

  /** An idle frame holds no pages. */
  lemma IdleFrame(f: Frame)
    requires |f.words| == FRAME_WORDS && f.words[0] == IDLE_WORD
    ensures PagesOf(f) == []
  {
  }
}
