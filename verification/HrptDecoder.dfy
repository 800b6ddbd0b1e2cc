/** The HRPT decoder: it counts its way through the minor frames it is given and
    picks the frame number, address, day and time out of fixed word positions. */
module HrptDecoder {
  import opened Integers
  import opened HrptDeframer

  datatype DecoderState = DecoderState(wordNum: nat, framesSeen: nat, currentMf: nat, expectedMf: nat, seqErrs: nat,
                                       address: nat, dayOfYear: nat, milliseconds: nat, lastTime: nat)

  const POWER_UP := DecoderState(0, 0, 0, 0, 0, 0, 0, 0, 0)

  /** Minor frames are numbered 1, 2, 3, 1, ... */
  function NextMf(mf: nat): nat {
    if mf == 3 then 1 else mf + 1
  }

  function MfOf(word: nat): nat { word / 128 % 4 }

  function AddressOf(word: nat): nat { word / 8 % 16 }

  // ---- the format: frame numbers and addresses, bit by bit ----

  /** The minor frame number: bits 7 and 8 of a word, counted from the least significant. */
  function FrameNumber(word: nat): (n: nat)
    ensures n < 4
  {
    (if IntBit(word, 7) then 1 else 0) + (if IntBit(word, 8) then 2 else 0)
  }

  /** The spacecraft address: bits 3 to 6. */
  function Spacecraft(word: nat): (n: nat)
    ensures n < 16
  {
    (if IntBit(word, 3) then 1 else 0) + (if IntBit(word, 4) then 2 else 0)
    + (if IntBit(word, 5) then 4 else 0) + (if IntBit(word, 6) then 8 else 0)
  }

  /** Frame numbers run through 1, 2, 3 in a circle; the number 0, which is not used, is taken to come before 1. */
  predicate InSequence(number: nat, next: nat) {
    if number == 0 then next == 1 else next != 0 && (next - number) % 3 == 1
  }

  lemma HalvedTwice(word: nat)
    ensures IntBit(word, 3) == (word / 8 % 2 == 1) && IntBit(word, 4) == (word / 16 % 2 == 1)
    ensures IntBit(word, 5) == (word / 32 % 2 == 1) && IntBit(word, 6) == (word / 64 % 2 == 1)
    ensures IntBit(word, 7) == (word / 128 % 2 == 1) && IntBit(word, 8) == (word / 256 % 2 == 1)
  {
    var a := word / 8;
    assert word / 2 / 2 / 2 == a;
    assert a / 2 == word / 16 && word / 16 / 2 == word / 32 && word / 32 / 2 == word / 64;
    assert word / 64 / 2 == word / 128 && word / 128 / 2 == word / 256;
  }

  lemma TwoBits(q: nat)
    ensures q % 4 == (if q % 2 == 1 then 1 else 0) + (if q / 2 % 2 == 1 then 2 else 0)
  {
  }

  lemma FourBits(q: nat, q1: nat, q2: nat, q3: nat)
    requires q1 == q / 2 && q2 == q1 / 2 && q3 == q2 / 2
    ensures q % 16 == (if q % 2 == 1 then 1 else 0) + (if q1 % 2 == 1 then 2 else 0)
                      + (if q2 % 2 == 1 then 4 else 0) + (if q3 % 2 == 1 then 8 else 0)
  {
  }

  lemma NumberBits(word: nat)
    ensures MfOf(word) == FrameNumber(word)
  {
    HalvedTwice(word);
    hide IntBit;
    assert word / 128 / 2 == word / 256;
    TwoBits(word / 128);
  }

  lemma AddressBits(word: nat)
    ensures AddressOf(word) == Spacecraft(word)
  {
    HalvedTwice(word);
    hide IntBit;
    assert word / 8 / 2 == word / 16 && word / 16 / 2 == word / 32 && word / 32 / 2 == word / 64;
    FourBits(word / 8, word / 16, word / 32, word / 64);
  }

  lemma NextInSequence(number: nat, next: nat)
    requires number < 4 && next < 4
    ensures InSequence(number, next) <==> next == NextMf(number)
  {
  }

  /** The fields read at word number `n` of a frame. */
  function ReadField(s: DecoderState, n: nat, word: nat): DecoderState {
    if n == 7 then
      var mf := MfOf(word);
      s.(currentMf := mf,
         seqErrs := if mf != s.expectedMf && s.framesSeen > 0 then s.seqErrs + 1 else s.seqErrs,
         expectedMf := NextMf(mf),
         address := AddressOf(word))
    else if n == 9 then s.(dayOfYear := word / 2)
    else if n == 10 then s.(milliseconds := word % 128 * 0x10_0000)
    else if n == 11 then s.(milliseconds := Or(s.milliseconds, word * 0x400))
    else if n == 12 then
      var ms := Or(s.milliseconds, word);
      s.(milliseconds := ms, lastTime := ms)
    else s
  }

  function DecodeWord(s: DecoderState, input: Word): DecoderState {
    var n := s.wordNum + 1;
    var t := ReadField(s, n, input % 1024);
    if n == MINOR_FRAME_WORDS then t.(framesSeen := s.framesSeen + 1, wordNum := 0)
    else t.(wordNum := n)
  }

  function Decoded(s: DecoderState, words: seq<Word>): DecoderState {
    if words == [] then s else DecodeWord(Decoded(s, words[..|words| - 1]), words[|words| - 1])
  }

  class Decoder {
    var wordNum: nat
    var framesSeen: nat
    var currentWord: nat
    var currentMf: nat
    var expectedMf: nat
    var seqErrs: nat
    var address: nat
    var dayOfYear: nat
    var milliseconds: nat
    var lastTime: nat

    ghost function Abs(): DecoderState
      reads this
    {
      DecoderState(wordNum, framesSeen, currentMf, expectedMf, seqErrs, address, dayOfYear, milliseconds, lastTime)
    }

    constructor ()
      ensures Abs() == POWER_UP
    {
      wordNum, framesSeen, currentMf, expectedMf, seqErrs := 0, 0, 0, 0, 0;
      address, dayOfYear, milliseconds, lastTime := 0, 0, 0, 0;
    }

    method ProcessMfnum()
      modifies this`currentMf, this`expectedMf, this`seqErrs
      ensures currentMf == MfOf(currentWord) == FrameNumber(currentWord)
      ensures expectedMf == NextMf(currentMf)
      ensures forall next :: 0 <= next < 4 ==> (next == expectedMf <==> InSequence(currentMf, next))
      ensures seqErrs == old(seqErrs) + if currentMf != old(expectedMf) && framesSeen > 0 then 1 else 0
    {
      NumberBits(currentWord);
      hide FrameNumber;
      currentMf := currentWord / 128 % 4;
      if currentMf != expectedMf && framesSeen > 0 {
        seqErrs := seqErrs + 1;
      }
      expectedMf := if currentMf == 3 then 1 else currentMf + 1;
    }

    /** The per-word switch of the work loop. */
    method ProcessWord()
      modifies this`currentMf, this`expectedMf, this`seqErrs, this`address, this`dayOfYear, this`milliseconds, this`lastTime
      ensures Abs() == ReadField(old(Abs()), wordNum, currentWord)
    {
      hide Or, MfOf, NextMf;
      match wordNum {
        case 7 =>
          ProcessMfnum();
          address := currentWord / 8 % 16;
        case 9 => dayOfYear := currentWord / 2;
        case 10 => milliseconds := currentWord % 128 * 0x10_0000;
        case 11 => milliseconds := Or(milliseconds, currentWord * 0x400);
        case 12 =>
          milliseconds := Or(milliseconds, currentWord);
          lastTime := milliseconds;
        case _ =>
      }
    }

    method Work(input: seq<Word>) returns (consumed: nat)
      modifies this
      ensures consumed == |input|
      ensures Abs() == Decoded(old(Abs()), input)
    {
      hide Or, MfOf, NextMf;
      consumed := 0;
      while consumed < |input|
        invariant consumed <= |input|
        invariant Abs() == Decoded(old(Abs()), input[..consumed])
      {
        ghost var before := Abs();
        assert input[..consumed + 1][..consumed] == input[..consumed];
        currentWord := input[consumed] % 1024;
        consumed := consumed + 1;
        wordNum := wordNum + 1;
        ProcessWord();
        assert Abs() == ReadField(before.(wordNum := wordNum), wordNum, currentWord);
        if wordNum == MINOR_FRAME_WORDS {
          framesSeen := framesSeen + 1;
          wordNum := 0;
        }
      }
      assert input[..consumed] == input;
    }
  }

  // ---- what the decoder has computed after any stream of words ----

  /** Word number `n` (from 1) of frame `i`. */
  function FrameWord(words: seq<Word>, i: nat, n: nat): nat
    requires 1 <= n && i * MINOR_FRAME_WORDS + n <= |words|
  {
    words[i * MINOR_FRAME_WORDS + n - 1] % 1024
  }

  /** Frames whose frame-number word has been received. */
  function Numbered(words: seq<Word>): nat {
    (|words| + MINOR_FRAME_WORDS - 7) / MINOR_FRAME_WORDS
  }

  function MfAt(words: seq<Word>, i: nat): nat
    requires i < Numbered(words)
  {
    FrameNumber(FrameWord(words, i, 7))
  }

  /** Among the first `n` frames, those after the first that are out of sequence. */
  function Gaps(words: seq<Word>, n: nat): nat
    requires n <= Numbered(words)
  {
    if n <= 1 then 0
    else Gaps(words, n - 1) + if InSequence(MfAt(words, n - 2), MfAt(words, n - 1)) then 0 else 1
  }

  lemma {:induction false} GapsPrefix(words: seq<Word>, w: Word, n: nat)
    requires n <= Numbered(words)
    ensures Numbered(words) <= Numbered(words + [w])
    ensures Gaps(words + [w], n) == Gaps(words, n)
    decreases n
  {
    if n > 1 {
      GapsPrefix(words, w, n - 1);
    }
  }

  ghost predicate Counts(s: DecoderState, words: seq<Word>) {
    && s.wordNum == |words| % MINOR_FRAME_WORDS
    && s.framesSeen == |words| / MINOR_FRAME_WORDS
    && s.seqErrs == Gaps(words, Numbered(words))
    && s.expectedMf == (if Numbered(words) == 0 then 0 else NextMf(MfAt(words, Numbered(words) - 1)))
  }

  lemma NumberedStep(words: seq<Word>, w: Word)
    ensures Numbered(words + [w]) == Numbered(words) + if |words| % MINOR_FRAME_WORDS == 6 then 1 else 0
    ensures |words| % MINOR_FRAME_WORDS == 6 ==> Numbered(words) == |words| / MINOR_FRAME_WORDS
  {
  }

  /** What one word does to the counts. */
  lemma Decodes(s: DecoderState, w: Word)
    ensures var t, number := DecodeWord(s, w), FrameNumber(w % 1024);
            && t.wordNum == (if s.wordNum + 1 == MINOR_FRAME_WORDS then 0 else s.wordNum + 1)
            && t.framesSeen == s.framesSeen + (if s.wordNum + 1 == MINOR_FRAME_WORDS then 1 else 0)
            && t.expectedMf == (if s.wordNum == 6 then NextMf(number) else s.expectedMf)
            && t.seqErrs == s.seqErrs + if s.wordNum == 6 && s.framesSeen > 0 && number != s.expectedMf then 1 else 0
  {
    NumberBits(w % 1024);
    hide Or, FrameNumber, NextMf, MfOf, AddressOf;
  }

  lemma CountStep(s: DecoderState, words: seq<Word>, w: Word)
    requires Counts(s, words)
    ensures Counts(DecodeWord(s, w), words + [w])
  {
    hide Gaps, DecodeWord, InSequence, NextMf, FrameNumber;
    var all, n := words + [w], Numbered(words);
    Decodes(s, w);
    NumberedStep(words, w);
    GapsPrefix(words, w, n);
    if |words| % MINOR_FRAME_WORDS == 6 {
      assert FrameWord(all, n, 7) == w % 1024;
      GapsStep(all, n + 1);
      if n > 0 {
        assert MfAt(all, n - 1) == MfAt(words, n - 1);
        NextInSequence(MfAt(words, n - 1), MfAt(all, n));
      }
    } else if n > 0 {
      assert MfAt(all, n - 1) == MfAt(words, n - 1);
    }
  }

  lemma GapsStep(words: seq<Word>, n: nat)
    requires 0 < n <= Numbered(words)
    ensures Gaps(words, n) == Gaps(words, n - 1) +
                              if n <= 1 || InSequence(MfAt(words, n - 2), MfAt(words, n - 1)) then 0 else 1
  {
  }

  /** The decoder is never out of step: it knows the position in the frame, the number of frames,
      and the number of breaks in the frame numbering, for every stream. */
  lemma {:induction false} DecoderCounts(words: seq<Word>)
    ensures Counts(Decoded(POWER_UP, words), words)
    decreases |words|
  {
    if words == [] {
    } else {
      hide Counts, DecodeWord;
      var front, w := words[..|words| - 1], words[|words| - 1];
      assert words == front + [w];
      DecoderCounts(front);
      CountStep(Decoded(POWER_UP, front), front, w);
    }
  }

  /** The fields of the frame being received, once their words have come. */
  ghost predicate Fields(s: DecoderState, words: seq<Word>) {
    HeaderFields(s, words) && TimeFields(s, words)
  }

  ghost predicate HeaderFields(s: DecoderState, words: seq<Word>) {
    var i, n := |words| / MINOR_FRAME_WORDS, |words| % MINOR_FRAME_WORDS;
    && s.wordNum == n
    && (n >= 7 ==> s.currentMf == FrameNumber(FrameWord(words, i, 7)) && s.address == Spacecraft(FrameWord(words, i, 7)))
    && (n >= 9 ==> s.dayOfYear == FrameWord(words, i, 9) / 2)
  }

  ghost predicate TimeFields(s: DecoderState, words: seq<Word>) {
    var i, n := |words| / MINOR_FRAME_WORDS, |words| % MINOR_FRAME_WORDS;
    && s.wordNum == n
    && (n == 10 ==> s.milliseconds == FrameWord(words, i, 10) % 128 * 0x10_0000)
    && (n == 11 ==> s.milliseconds == FrameWord(words, i, 10) % 128 * 0x10_0000 + FrameWord(words, i, 11) * 0x400)
    && (n >= 12 ==> s.lastTime == s.milliseconds == FrameWord(words, i, 10) % 128 * 0x10_0000
                                                  + FrameWord(words, i, 11) * 0x400 + FrameWord(words, i, 12))
  }

  lemma OrTimestamp(high: nat, mid: nat, low: nat)
    requires mid < 1024 && low < 1024
    ensures Or(high * 0x10_0000, mid * 0x400) == high * 0x10_0000 + mid * 0x400
    ensures Or(high * 0x10_0000 + mid * 0x400, low) == high * 0x10_0000 + mid * 0x400 + low
  {
    hide Or;
    assert Pow2(5) == 32 && Pow2(10) == 1024;
    assert Pow2(15) == 0x8000 && Pow2(20) == 0x10_0000;
    OrDisjoint(high, mid * 0x400, 20);
    OrDisjoint(high * 1024 + mid, low, 10);
  }

  lemma FrameWordKept(words: seq<Word>, w: Word, n: nat)
    requires 1 <= n <= |words| % MINOR_FRAME_WORDS < MINOR_FRAME_WORDS - 1
    ensures var i := |words| / MINOR_FRAME_WORDS;
            i == |words + [w]| / MINOR_FRAME_WORDS && FrameWord(words + [w], i, n) == FrameWord(words, i, n)
  {
  }

  lemma HeaderStep(s: DecoderState, words: seq<Word>, w: Word)
    requires HeaderFields(s, words)
    ensures HeaderFields(DecodeWord(s, w), words + [w])
  {
    NumberBits(w % 1024);
    AddressBits(w % 1024);
    hide Or, MfOf, AddressOf, FrameNumber, Spacecraft, NextMf;
    var i, n := |words| / MINOR_FRAME_WORDS, |words| % MINOR_FRAME_WORDS;
    if n + 1 < MINOR_FRAME_WORDS {
      assert FrameWord(words + [w], i, n + 1) == w % 1024;
      if n >= 7 { FrameWordKept(words, w, 7); }
      if n >= 9 { FrameWordKept(words, w, 9); }
    }
  }

  lemma TimeStep(s: DecoderState, words: seq<Word>, w: Word)
    requires TimeFields(s, words)
    ensures TimeFields(DecodeWord(s, w), words + [w])
  {
    hide Or, MfOf, AddressOf, NextMf;
    var i, n := |words| / MINOR_FRAME_WORDS, |words| % MINOR_FRAME_WORDS;
    if n + 1 < MINOR_FRAME_WORDS {
      assert FrameWord(words + [w], i, n + 1) == w % 1024;
      if n >= 10 { FrameWordKept(words, w, 10); }
      if n >= 11 { FrameWordKept(words, w, 11); }
      if n >= 12 { FrameWordKept(words, w, 12); }
      if n == 10 { OrTimestamp(FrameWord(words, i, 10) % 128, w % 1024, 0); }
      if n == 11 { OrTimestamp(FrameWord(words, i, 10) % 128, FrameWord(words, i, 11), w % 1024); }
    }
  }

  lemma FieldStep(s: DecoderState, words: seq<Word>, w: Word)
    requires Fields(s, words)
    ensures Fields(DecodeWord(s, w), words + [w])
  {
    HeaderStep(s, words, w);
    TimeStep(s, words, w);
    hide HeaderFields, TimeFields, DecodeWord;
  }

  /** At every point of every stream, the fields shown are those of the frame in progress;
      the timestamp is rebuilt from the 7 + 10 + 10 bits of words 10, 11 and 12. */
  lemma {:induction false} DecoderFields(words: seq<Word>)
    ensures Fields(Decoded(POWER_UP, words), words)
    decreases |words|
  {
    if words == [] {
    } else {
      hide Fields, DecodeWord;
      var front, w := words[..|words| - 1], words[|words| - 1];
      assert words == front + [w];
      DecoderFields(front);
      FieldStep(Decoded(POWER_UP, front), front, w);
    }
  }
}
