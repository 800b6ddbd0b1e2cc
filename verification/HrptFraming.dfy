/** What the deframer's output looks like for every input, however corrupted. */
module HrptFraming {
  import opened Machine
  import opened Integers
  import opened HrptDeframer

  /** Whole minor frames followed by a prefix of one; the framer knows where in the frame it is. */
  ghost predicate Framed(out: seq<Word>, f: Framer) {
    && (forall k :: 0 <= k < |out| ==> out[k] < 1024)
    && (forall k :: 0 <= k < |out| && k % MINOR_FRAME_WORDS < SYNC_WORDS ==> out[k] == SYNC[k % MINOR_FRAME_WORDS])
    && |out| % MINOR_FRAME_WORDS == (if f.synced then MINOR_FRAME_WORDS - f.wordCount else 0)
  }

  ghost predicate SmallRegister(f: Framer) {
    f.synced ==> f.word < Pow2(BITS_PER_WORD - f.bitCount)
  }

  lemma SmallShift(w: Word, n: nat, bit: bool)
    requires n < BITS_PER_WORD && w < Pow2(n)
    ensures ShiftWord(w, bit) < Pow2(n + 1) <= 1024
  {
    assert Pow2(5) == 32 && Pow2(10) == 1024;
    Pow2Monotone(n + 1, 10);
  }

  lemma SmallStep(f: Framer, bit: bool)
    requires SmallRegister(f)
    ensures SmallRegister(TakeBit(f, bit).0)
    ensures f.synced ==> ShiftWord(f.word, bit) < 1024
  {
    if f.synced {
      SmallShift(f.word, BITS_PER_WORD - f.bitCount, bit);
    }
  }

  lemma FramedSync(out: seq<Word>, f: Framer, g: Framer)
    requires Framed(out, f) && !f.synced
    requires g.synced && g.wordCount == MINOR_FRAME_WORDS - SYNC_WORDS
    ensures Framed(out + SYNC, g)
  {
  }

  lemma FramedWord(out: seq<Word>, f: Framer, w: Word, g: Framer)
    requires Framed(out, f) && f.synced && w < 1024
    requires g.synced == (f.wordCount != 1) && g.wordCount == f.wordCount - 1
    ensures Framed(out + [w], g)
  {
  }

  lemma FramedBit(out: seq<Word>, f: Framer, bit: bool)
    requires Framed(out, f) && SmallRegister(f)
    ensures var (g, o) := TakeBit(f, bit); Framed(out + o, g) && SmallRegister(g)
  {
    SmallStep(f, bit);
    var (g, o) := TakeBit(f, bit);
    hide ShiftWord;
    if !f.synced && g.synced {
      FramedSync(out, f, g);
    } else if f.synced && f.bitCount == 1 {
      FramedWord(out, f, o[0], g);
    } else {
      assert out + o == out;
    }
  }

  /** For every half-bit input to a searching deframer, the output is a concatenation of minor frames
      and a prefix of one, every frame starts with the sync words, and every word has ten bits. */
  lemma {:induction false} OutputIsFramed(s: State, halves: seq<bool>)
    requires !s.framer.synced
    ensures var (t, out) := Run(Step, s, halves); Framed(out, t.framer) && SmallRegister(t.framer)
    decreases |halves|
  {
    if halves == [] {
    } else {
      hide TakeBit, Framed, SmallRegister;
      var front, h := halves[..|halves| - 1], halves[|halves| - 1];
      OutputIsFramed(s, front);
      var (t, out) := Run(Step, s, front);
      FramedBit(out, t.framer, h);
      assert out + [] == out;
    }
  }
}
