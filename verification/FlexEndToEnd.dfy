/** Messages in, messages out: the transmitter's frames of messages through the whole FLEX receive chain. */
module FlexEndToEnd {
  import opened Machine
  import opened FlexModes
  import opened FlexSync
  import opened FlexDeinterleave
  import opened FlexParse
  import opened FlexBroadcast
  import opened FlexChain
  import opened FlexReception

  /** The frame of messages `cs` is transmitted on phase `c`. */
  ghost predicate Sends(ws: Phase -> FramePayload, c: Phase, cs: seq<Notice>, fill: seq<Payload>) {
    Fits(cs, fill) && ws(c) == BroadcastWords(cs, fill)
  }

  /** A clean transmission, in any mode: the parser of a phase that carries the frame of messages `cs` reports
      exactly the messages whose vectors it accepts, in order, each with its own address, type and text;
      that is all of them unless the messages run into the last two words of the frame. */
  lemma MessagesDelivered(s: State, xs: seq<Symbol>, mode: nat, qs: seq<Quad>,
                          ws: Phase -> FramePayload, check: Payload -> CheckBits,
                          c: Phase, p: ParserState, beyond: nat -> Word, cs: seq<Notice>, fill: seq<Payload>)
    requires Transmission(s, xs, mode, qs) && Carries(qs, ws, check) && p.count == 0
    requires Uses(MODES[mode], c) && Sends(ws, c, cs, fill)
    ensures var (t, out) := Run(Step, s, xs[..TransmissionLength(mode)]);
            && t.stage == Idle && |out| % BLOCK_BITS == 0
            && Parsed(p, beyond, DataWords(PhaseOf(out, c))).queue == p.queue + Delivered(cs, Start(cs))
            && (Start(cs) + |Bodies(cs)| <= 86 ==> Delivered(cs, Start(cs)) == Sent(cs))
  {
    hide Step, ValidState, Run, PhaseOf, DataWords, PagesOf, Parsed, Carries, Transmission, Bodies, Uses, BroadcastWords;
    FrameToPages(s, xs, mode, qs, ws, check, c, p, beyond);
    BroadcastRoundTrip(cs, fill, beyond);
    if Start(cs) + |Bodies(cs)| <= 86 {
      NothingLost(cs, Start(cs));
    }
  }
}
