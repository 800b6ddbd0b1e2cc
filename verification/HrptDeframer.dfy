/** The HRPT deframer: split-phase (Manchester) bit recovery, search for the
    60-bit frame sync, and output of the 10-bit words of each minor frame. */
module HrptDeframer {
  import opened Machine
  import opened ShiftRegister

  /** An unsigned short. */
  type Word = w: nat | w < 0x1_0000

  const SYNC1: Word := 0x0284
  const SYNC2: Word := 0x016F
  const SYNC3: Word := 0x035C
  const SYNC4: Word := 0x019D
  const SYNC5: Word := 0x020F
  const SYNC6: Word := 0x0095
  const MINOR_FRAME_SYNC: bv64 := 0x0A11_6FD7_19D8_3C95
  const SYNC_MASK: bv64 := 0x0FFF_FFFF_FFFF_FFFF
  const SYNC_WORDS := 6
  const MINOR_FRAME_WORDS := 11090
  const BITS_PER_WORD := 10

  const SYNC: seq<Word> := [SYNC1, SYNC2, SYNC3, SYNC4, SYNC5, SYNC6]

  /** Bit clock: whether the next half-bit may be a data half, and the last half-bit seen. */
  datatype Clock = Clock(midBit: bool, lastBit: bool)

  /** Framing state, advanced once per recovered bit. */
  datatype FramerState = FramerState(synced: bool, bitCount: nat, wordCount: nat, shifter: bv64, word: Word)

  function ShiftWord(w: Word, bit: bool): Word {
    (2 * w + (if bit then 1 else 0)) % 0x1_0000
  }

  ghost predicate ValidFramer(f: FramerState) {
    f.synced ==>
      && 1 <= f.bitCount <= BITS_PER_WORD
      && 1 <= f.wordCount <= MINOR_FRAME_WORDS - SYNC_WORDS
  }

  type Framer = f: FramerState | ValidFramer(f) witness FramerState(false, 0, 0, 0, 0)

  datatype State = State(clock: Clock, framer: Framer)

  /** One recovered bit. */
  function TakeBit(f: Framer, bit: bool): (r: (Framer, seq<Word>)) {
    if !f.synced then
      var shifter := ShiftIn(f.shifter, bit);
      if shifter & SYNC_MASK == MINOR_FRAME_SYNC then
        (FramerState(true, BITS_PER_WORD, MINOR_FRAME_WORDS - SYNC_WORDS, shifter, 0), SYNC)
      else
        (f.(shifter := shifter), [])
    else
      var word := ShiftWord(f.word, bit);
      if f.bitCount == 1 then
        (f.(word := 0, bitCount := BITS_PER_WORD, wordCount := f.wordCount - 1, synced := f.wordCount != 1), [word])
      else
        (f.(word := word, bitCount := f.bitCount - 1), [])
  }

  /** One half-bit: wait for a transition if not synced, otherwise take every second half. */
  function Step(s: State, half: bool): (r: (State, seq<Word>)) {
    var diff := half != s.clock.lastBit;
    if s.clock.midBit && (diff || s.framer.synced) then
      var (framer, out) := TakeBit(s.framer, half);
      (State(Clock(false, half), framer), out)
    else
      (State(Clock(true, half), s.framer), [])
  }

  class Deframer {
    var synced: bool
    var midBit: bool
    var lastBit: bool
    var bitCount: nat
    var wordCount: nat
    var shifter: bv64
    var word: Word

    ghost predicate Valid()
      reads this
    {
      ValidFramer(FramerState(synced, bitCount, wordCount, shifter, word))
    }

    ghost function Abs(): State
      requires Valid()
      reads this
    {
      State(Clock(midBit, lastBit), FramerState(synced, bitCount, wordCount, shifter, word))
    }

    /** The source leaves the shifter and the counters unset; they are parameters here. */
    constructor (junk: bv64, bits: nat, words: nat, junkWord: Word)
      ensures Valid() && Abs() == State(Clock(true, false), FramerState(false, bits, words, junk, junkWord))
    {
      midBit, lastBit, synced := true, false, false;
      shifter, bitCount, wordCount, word := junk, bits, words, junkWord;
    }

    method EnterIdle()
      modifies this`synced
      ensures !synced
    {
      synced := false;
    }

    method EnterSynced()
      modifies this`synced, this`bitCount, this`wordCount, this`word
      ensures synced && bitCount == BITS_PER_WORD && wordCount == MINOR_FRAME_WORDS - SYNC_WORDS && word == 0
    {
      synced, bitCount, wordCount, word := true, BITS_PER_WORD, MINOR_FRAME_WORDS - SYNC_WORDS, 0;
    }

    /** The per-bit switch of the work loop; `words` is what it writes to the output. */
    method Recover(bit: bool) returns (words: seq<Word>)
      requires Valid()
      modifies this`synced, this`bitCount, this`wordCount, this`shifter, this`word
      ensures Valid()
      ensures (Abs().framer, words) == TakeBit(old(Abs()).framer, bit)
    {
      hide ShiftIn, ShiftWord;
      words := [];
      if !synced {
        shifter := ShiftIn(shifter, bit);
        if shifter & SYNC_MASK == MINOR_FRAME_SYNC {
          words := [SYNC1, SYNC2, SYNC3, SYNC4, SYNC5, SYNC6];
          EnterSynced();
        }
      } else {
        word := ShiftWord(word, bit);
        bitCount := bitCount - 1;
        if bitCount == 0 {
          words := [word];
          word := 0;
          bitCount := BITS_PER_WORD;
          wordCount := wordCount - 1;
          if wordCount == 0 {
            EnterIdle();
          }
        }
      }
    }

    method GeneralWork(noutputItems: nat, input: seq<bool>) returns (consumed: nat, out: seq<Word>)
      requires Valid()
      modifies this
      ensures Valid() && consumed <= |input|
      ensures consumed < |input| ==> noutputItems <= |out|
      ensures (Abs(), out) == Run(Step, old(Abs()), input[..consumed])
    {
      hide TakeBit;
      consumed, out := 0, [];
      while consumed < |input| && |out| < noutputItems
        invariant Valid() && consumed <= |input|
        invariant (Abs(), out) == Run(Step, old(Abs()), input[..consumed])
      {
        ghost var before := Abs();
        var bit := input[consumed];
        RunSnoc(Step, old(Abs()), input[..consumed], bit);
        assert input[..consumed + 1] == input[..consumed] + [bit];
        consumed := consumed + 1;
        var diff := bit != lastBit;
        lastBit := bit;
        if midBit && (diff || synced) {
          var words := Recover(bit);
          out := out + words;
          midBit := false;
        } else {
          midBit := true;
          assert out + [] == out;
        }
        assert Abs() == Step(before, bit).0;
      }
    }
  }
}
