/** A continuous split-phase transmission of minor frames is received exactly. */
module HrptEndToEnd {
  import opened Machine
  import opened Sequences
  import opened Integers
  import opened ShiftRegister
  import opened HrptDeframer
  import opened HrptReception

  // ---- searching for the sync ----

  lemma {:induction false} SearchRun(f: Framer, bits: seq<bool>)
    requires !f.synced && Run(TakeBit, f, bits).1 == []
    ensures Run(TakeBit, f, bits).0 == f.(shifter := Shifted(f.shifter, bits))
    decreases |bits|
  {
    hide ShiftIn;
    if bits != [] {
      SearchRun(f, bits[..|bits| - 1]);
    }
  }

  lemma SearchStep(f: Framer, bit: bool)
    requires !f.synced
    ensures var r := ShiftIn(f.shifter, bit);
            TakeBit(f, bit) == if Matches(r)
              then (FramerState(true, BITS_PER_WORD, MINOR_FRAME_WORDS - SYNC_WORDS, r, 0), SYNC)
              else (f.(shifter := r), [])
  {
    hide ShiftIn;
  }

  lemma {:induction false} SearchSilent(f: Framer, bits: seq<bool>)
    requires !f.synced
    requires forall k :: 0 < k <= |bits| ==> !Matches(Shifted(f.shifter, bits[..k]))
    ensures Run(TakeBit, f, bits) == (f.(shifter := Shifted(f.shifter, bits)), [])
    decreases |bits|
  {
    if bits == [] {
    } else {
      hide ShiftIn, TakeBit, Matches, Run, Shifted;
      var front, bit := bits[..|bits| - 1], bits[|bits| - 1];
      forall k | 0 < k <= |front| ensures !Matches(Shifted(f.shifter, front[..k])) {
        assert front[..k] == bits[..k];
      }
      SearchSilent(f, front);
      assert bits[..|bits|] == bits == front + [bit];
      SearchStep(f.(shifter := Shifted(f.shifter, front)), bit);
      ShiftedSnoc(f.shifter, front, bit);
      RunSnoc(TakeBit, f, front, bit);
      var silence: seq<Word> := [];
      assert silence + silence == silence;
    }
  }

  /** The sixtieth bit of the sync completes it. */
  lemma FindSync(f: Framer)
    requires !f.synced && Run(TakeBit, f, PATTERN[..59]).1 == []
    ensures var (g, out) := Run(TakeBit, f, PATTERN);
            && out == SYNC && Matches(g.shifter)
            && g == FramerState(true, BITS_PER_WORD, MINOR_FRAME_WORDS - SYNC_WORDS, g.shifter, 0)
  {
    hide ShiftIn, MsbBits, TakeBit, Matches;
    var front, bit := PATTERN[..59], PATTERN[59];
    SearchRun(f, front);
    assert PATTERN == front + [bit];
    RunSnoc(TakeBit, f, front, bit);
    ShiftedSnoc(f.shifter, front, bit);
    SearchStep(f.(shifter := Shifted(f.shifter, front)), bit);
    CompletePattern(f.shifter);
    assert [] + SYNC == SYNC;
  }

  lemma CompletePattern(r: bv64)
    ensures Matches(Shifted(r, PATTERN))
  {
    hide ShiftIn, MsbBits, Matches;
    SlideAll(r, PATTERN, 60);
    assert (MsbBits(r, 60) + PATTERN)[60..] == PATTERN;
    MatchWindow(Shifted(r, PATTERN));
  }

  lemma Rotated(p: seq<bool>, k: nat)
    requires k <= |p|
    ensures (p + p[..k])[k..] == p[k..] + p[..k]
  {
  }

  /** After a frame the shifter still holds the old sync; it cannot match before the next sync is complete. */
  lemma StaleSilent(f: Framer)
    requires !f.synced && Matches(f.shifter)
    ensures Run(TakeBit, f, PATTERN[..59]).1 == []
  {
    hide ShiftIn, MsbBits, Matches, TakeBit;
    var bits := PATTERN[..59];
    MatchWindow(f.shifter);
    forall k | 0 < k <= |bits| ensures !Matches(Shifted(f.shifter, bits[..k])) {
      assert bits[..k] == PATTERN[..k];
      SlideAll(f.shifter, PATTERN[..k], 60);
      Rotated(PATTERN, k);
      SyncIsPrimitive(k);
      MatchWindow(Shifted(f.shifter, PATTERN[..k]));
    }
    SearchSilent(f, bits);
  }

  // ---- the words of a frame ----

  ghost predicate AtWordStart(f: Framer) {
    f.synced && f.bitCount == BITS_PER_WORD && f.word == 0
  }

  lemma CollectStep(f: Framer, bit: bool)
    requires f.synced
    ensures TakeBit(f, bit) == if f.bitCount == 1
      then (f.(word := 0, bitCount := BITS_PER_WORD, wordCount := f.wordCount - 1, synced := f.wordCount != 1),
            [ShiftWord(f.word, bit)])
      else (f.(word := ShiftWord(f.word, bit), bitCount := f.bitCount - 1), [])
  {
  }

  lemma {:induction false} CollectRun(f: Framer, bits: seq<bool>)
    requires AtWordStart(f) && |bits| < BITS_PER_WORD
    ensures Run(TakeBit, f, bits) == (f.(word := Collected(bits), bitCount := BITS_PER_WORD - |bits|), [])
    decreases |bits|
  {
    if bits == [] {
    } else {
      hide ShiftIn, ShiftWord, TakeBit;
      var front, b := bits[..|bits| - 1], bits[|bits| - 1];
      CollectRun(f, front);
      CollectStep(f.(word := Collected(front), bitCount := BITS_PER_WORD - |front|), b);
      RunSnoc(TakeBit, f, front, b);
      assert bits == front + [b];
      var silence: seq<Word> := [];
      assert silence + silence == silence;
    }
  }

  /** The framer when `n` more words have been output. */
  ghost function Advanced(f: Framer, n: nat): Framer
    requires AtWordStart(f) && n <= f.wordCount
  {
    f.(wordCount := f.wordCount - n, synced := n < f.wordCount)
  }

  lemma WordRun(f: Framer, n: nat, w: Word)
    requires AtWordStart(f) && n < f.wordCount && w < 1024
    ensures Run(TakeBit, Advanced(f, n), WordBits(w)) == (Advanced(f, n + 1), [w])
  {
    var bits, g := WordBits(w), Advanced(f, n);
    hide ShiftIn, ShiftWord, IntBits, TakeBit;
    var front, b := bits[..9], bits[9];
    assert bits == front + [b];
    CollectRun(g, front);
    RunSnoc(TakeBit, g, front, b);
    CollectStep(g.(word := Collected(front), bitCount := 1), b);
    assert Collected(bits) == ShiftWord(Collected(front), b);
    assert Collected(bits) == w by {
      assert Pow2(5) == 32 && Pow2(10) == 1024;
      CollectedValue(w, 10);
    }
    assert [] + [w] == [w];
  }

  lemma BodyStep(f: Framer, words: seq<Word>, w: Word)
    requires AtWordStart(f) && |words| < f.wordCount && w < 1024
    requires Run(TakeBit, f, FrameBits(words)) == (Advanced(f, |words|), words)
    ensures Run(TakeBit, f, FrameBits(words + [w])) == (Advanced(f, |words| + 1), words + [w])
  {
    hide TakeBit, WordBits, Run, Advanced;
    assert (words + [w])[..|words|] == words;
    RunAppend(TakeBit, f, FrameBits(words), WordBits(w));
    WordRun(f, |words|, w);
  }

  lemma {:induction false} BodyRun(f: Framer, words: seq<Word>)
    requires AtWordStart(f) && |words| <= f.wordCount
    requires forall k :: 0 <= k < |words| ==> words[k] < 1024
    ensures Run(TakeBit, f, FrameBits(words)) == (Advanced(f, |words|), words)
    decreases |words|
  {
    if words == [] {
    } else {
      hide TakeBit, WordBits, Run, Advanced, FrameBits;
      var front, w := words[..|words| - 1], words[|words| - 1];
      assert words == front + [w];
      BodyRun(f, front);
      BodyStep(f, front, w);
    }
  }

  ghost predicate Silent(f: Framer) {
    !f.synced && Run(TakeBit, f, PATTERN[..59]).1 == []
  }

  /** One minor frame, from a search that does not match before the sync is complete. */
  lemma FrameRun(f: Framer, frame: seq<Word>)
    requires Silent(f) && MinorFrame(frame)
    ensures var (g, out) := Run(TakeBit, f, FrameBits(frame));
            out == frame && !g.synced && Matches(g.shifter)
  {
    hide TakeBit, Run, Matches, FrameBits, MsbBits;
    FindSync(f);
    SyncWordsArePattern();
    var body := frame[SYNC_WORDS..];
    assert frame == SYNC + body;
    FrameBitsAppend(SYNC, body);
    RunAppend(TakeBit, f, FrameBits(SYNC), FrameBits(body));
    BodyRun(Run(TakeBit, f, PATTERN).0, body);
  }

  /** Any number of back-to-back minor frames. */
  lemma {:induction false} FramesRun(f: Framer, frames: seq<seq<Word>>)
    requires Silent(f) && forall k :: 0 <= k < |frames| ==> MinorFrame(frames[k])
    ensures var (g, out) := Run(TakeBit, f, FrameBits(Flatten(frames)));
            out == Flatten(frames) && Silent(g)
    decreases |frames|
  {
    if frames == [] {
    } else {
      hide TakeBit, Run, Matches, FrameBits, MsbBits;
      var front, last := frames[..|frames| - 1], frames[|frames| - 1];
      FramesRun(f, front);
      FrameBitsAppend(Flatten(front), last);
      RunAppend(TakeBit, f, FrameBits(Flatten(front)), FrameBits(last));
      var g := Run(TakeBit, f, FrameBits(Flatten(front))).0;
      FrameRun(g, last);
      StaleSilent(Run(TakeBit, g, FrameBits(last)).0);
    }
  }

  // ---- the whole transmission ----

  /** From any unlocked, searching state: a preamble in which some bit differs from the one before it, and
      in which no sync is found early, followed by any number of minor frames, gives exactly their words. */
  lemma EndToEnd(s: State, preamble: seq<bool>, frames: seq<seq<Word>>)
    requires !s.framer.synced
    requires !s.clock.midBit || HasChange([s.clock.lastBit] + preamble)
    requires Run(Step, s, Manchester(preamble + PATTERN[..59])).1 == []
    requires forall k :: 0 <= k < |frames| ==> MinorFrame(frames[k])
    ensures var (t, out) := Run(Step, s, Manchester(preamble + FrameBits(Flatten(frames))));
            out == Flatten(frames) && !t.framer.synced && !t.clock.midBit
  {
    hide Step, TakeBit, Run, Manchester, MsbBits, FrameBits, HasChange;
    var bits := FrameBits(Flatten(frames));
    ManchesterAppend(preamble, PATTERN[..59]);
    RunAppend(Step, s, Manchester(preamble), Manchester(PATTERN[..59]));
    SelfLocking(s, preamble);
    SilentIsIdle(s, Manchester(preamble));
    var t := Run(Step, s, Manchester(preamble)).0;
    LockedReception(t, PATTERN[..59]);
    FramesRun(t.framer, frames);
    LockedReception(t, bits);
    ManchesterAppend(preamble, bits);
    RunAppend(Step, s, Manchester(preamble), Manchester(bits));
  }
}
