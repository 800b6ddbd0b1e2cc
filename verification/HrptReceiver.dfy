/** Deframer and decoder together: the decoder never loses its place in the frame, and a
    transmission is decoded as it was sent. */
module HrptReceiver {
  import opened Machine
  import opened Sequences
  import opened HrptDeframer
  import opened HrptReception
  import opened HrptEndToEnd
  import opened HrptFraming
  import opened HrptDecoder

  /** For every half-bit input, the decoder's word number is the deframer's position in the frame. */
  lemma ReceiverAligned(s: State, halves: seq<bool>)
    requires !s.framer.synced
    ensures var (t, out) := Run(Step, s, halves);
            var d := Decoded(POWER_UP, out);
            && d.wordNum == (if t.framer.synced then MINOR_FRAME_WORDS - t.framer.wordCount else 0)
            && d.framesSeen == |out| / MINOR_FRAME_WORDS
  {
    hide Step, Run, Decoded;
    OutputIsFramed(s, halves);
    DecoderCounts(Run(Step, s, halves).1);
  }

  // ---- frame numbers of a transmission ----

  ghost predicate MinorFrames(frames: seq<seq<Word>>) {
    forall k :: 0 <= k < |frames| ==> MinorFrame(frames[k])
  }

  /** The minor frame number sent in word 7. */
  function NumberOf(frame: seq<Word>): nat
    requires |frame| == MINOR_FRAME_WORDS
  {
    FrameNumber(frame[6])
  }

  /** Frames after the first that are out of sequence. */
  ghost function Breaks(frames: seq<seq<Word>>): nat
    requires MinorFrames(frames)
  {
    var n := |frames|;
    if n <= 1 then 0
    else Breaks(frames[..n - 1]) + if InSequence(NumberOf(frames[n - 2]), NumberOf(frames[n - 1])) then 0 else 1
  }

  lemma {:induction false} ConcatWord(frames: seq<seq<Word>>, i: nat, k: nat)
    requires MinorFrames(frames) && i < |frames| && k < MINOR_FRAME_WORDS
    ensures |Flatten(frames)| == |frames| * MINOR_FRAME_WORDS
    ensures i * MINOR_FRAME_WORDS + k < |Flatten(frames)| && Flatten(frames)[i * MINOR_FRAME_WORDS + k] == frames[i][k]
    decreases |frames|
  {
    var front := frames[..|frames| - 1];
    ConcatLength(front);
    if i < |front| {
      ConcatWord(front, i, k);
    }
  }

  lemma {:induction false} ConcatLength(frames: seq<seq<Word>>)
    requires MinorFrames(frames)
    ensures |Flatten(frames)| == |frames| * MINOR_FRAME_WORDS
  {
    if frames != [] {
      ConcatLength(frames[..|frames| - 1]);
    }
  }

  lemma AllNumbered(frames: seq<seq<Word>>)
    requires MinorFrames(frames)
    ensures Numbered(Flatten(frames)) == |frames|
  {
    hide Flatten;
    ConcatLength(frames);
  }

  lemma SentNumber(frames: seq<seq<Word>>, i: nat)
    requires MinorFrames(frames) && i < |frames|
    ensures i < Numbered(Flatten(frames)) && MfAt(Flatten(frames), i) == NumberOf(frames[i])
  {
    hide Flatten, Numbered, FrameNumber, MinorFrames, MinorFrame;
    AllNumbered(frames);
    ConcatWord(frames, i, 6);
    FrameShape(frames, i);
    assert FrameWord(Flatten(frames), i, 7) == frames[i][6];
  }

  lemma FrameShape(frames: seq<seq<Word>>, i: nat)
    requires MinorFrames(frames) && i < |frames|
    ensures |frames[i]| == MINOR_FRAME_WORDS && frames[i][6] < 1024
  {
  }

  lemma {:induction false} GapsAreBreaks(frames: seq<seq<Word>>, n: nat)
    requires MinorFrames(frames) && n <= |frames|
    ensures n <= Numbered(Flatten(frames)) && Gaps(Flatten(frames), n) == Breaks(frames[..n])
    decreases n
  {
    hide Flatten, NumberOf, MfAt, MinorFrame;
    if n > 0 {
      SentNumber(frames, n - 1);
    }
    if n > 1 {
      GapsAreBreaks(frames, n - 1);
      SentNumber(frames, n - 2);
      assert frames[..n][..n - 1] == frames[..n - 1];
    }
  }

  /** A transmission of any number of minor frames is decoded as that many frames, and the
      sequence errors counted are exactly the breaks in the numbers sent. */
  lemma TransmissionDecoded(s: State, preamble: seq<bool>, frames: seq<seq<Word>>)
    requires !s.framer.synced
    requires !s.clock.midBit || HasChange([s.clock.lastBit] + preamble)
    requires Run(Step, s, Manchester(preamble + PATTERN[..59])).1 == []
    requires MinorFrames(frames)
    ensures var d := Decoded(POWER_UP, Run(Step, s, Manchester(preamble + FrameBits(Flatten(frames)))).1);
            && d.framesSeen == |frames| && d.wordNum == 0
            && d.seqErrs == Breaks(frames)
  {
    hide Step, Run, Manchester, PATTERN, FrameBits, HasChange, Flatten, Gaps, Breaks, Decoded, Numbered;
    EndToEnd(s, preamble, frames);
    DecoderCounts(Flatten(frames));
    ConcatLength(frames);
    AllNumbered(frames);
    GapsAreBreaks(frames, |frames|);
    assert frames[..|frames|] == frames;
  }

  /** Frames numbered in a circle from 1 to 3. */
  ghost predicate Cyclic(frames: seq<seq<Word>>)
    requires MinorFrames(frames)
  {
    && (forall k :: 0 <= k < |frames| ==> NumberOf(frames[k]) != 0)
    && forall k :: 0 < k < |frames| ==> (NumberOf(frames[k]) - NumberOf(frames[k - 1])) % 3 == 1
  }

  lemma {:induction false} CyclicUnbroken(frames: seq<seq<Word>>)
    requires MinorFrames(frames) && Cyclic(frames)
    ensures Breaks(frames) == 0
    decreases |frames|
  {
    hide NumberOf, MinorFrame;
    if |frames| > 1 {
      var front := frames[..|frames| - 1];
      assert forall k :: 0 <= k < |front| ==> front[k] == frames[k];
      CyclicUnbroken(front);
    }
  }

  /** A transmission whose frames are numbered in a circle counts no sequence error. */
  lemma CyclicDecoded(s: State, preamble: seq<bool>, frames: seq<seq<Word>>)
    requires !s.framer.synced
    requires !s.clock.midBit || HasChange([s.clock.lastBit] + preamble)
    requires Run(Step, s, Manchester(preamble + PATTERN[..59])).1 == []
    requires MinorFrames(frames) && Cyclic(frames)
    ensures var d := Decoded(POWER_UP, Run(Step, s, Manchester(preamble + FrameBits(Flatten(frames)))).1);
            d.framesSeen == |frames| && d.seqErrs == 0
  {
    hide Step, Run, Manchester, PATTERN, FrameBits, HasChange, Flatten, Breaks, Decoded, Cyclic;
    TransmissionDecoded(s, preamble, frames);
    CyclicUnbroken(frames);
  }
}
