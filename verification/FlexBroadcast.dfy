/** Whole frames of messages: addresses, vectors and texts laid out by a transmitter are read back as sent. */
module FlexBroadcast {
  import opened FlexParse
  import opened FlexPages
  import opened FlexMessages

  datatype NoticeFields =
    NoticeFields(capcode: int, ptype: nat, text: string, header: Payload, signature: Slot, check: nat, high: nat)

  ghost predicate Sendable(c: NoticeFields) {
    && Encodable(c.capcode) && c.ptype < 8 && c.check < 16 && c.high < 16
    && (if SendsText(c.ptype) then Printable(c.text)
        else if SendsDigits(c.ptype) then Numeric(c.text) && |NumericMessage(c.ptype, c.header, c.text)| <= 8
        else c.text == "")
  }

  /** A message to send: a numeric one takes at most eight words, and may have any bits above its length. */
  type Notice = c: NoticeFields | Sendable(c) witness NoticeFields(1, 2, "", 0, 0, 0, 0)

  function MessageWords(c: Notice): seq<Payload> {
    if SendsText(c.ptype) then TextMessage(c.header, c.signature, c.text)
    else if SendsDigits(c.ptype) then NumericMessage(c.ptype, c.header, c.text)
    else []
  }

  /** The length field of the vector: it counts the words of an alphanumeric message,
      and one less than the words of a numeric one. */
  function Length(c: Notice): nat {
    if SendsDigits(c.ptype) then |MessageWords(c)| - 1 else |MessageWords(c)|
  }

  /** With a long address, the first word of the message goes beside the vector. */
  function SplitMessage(c: Notice): (r: (Payload, seq<Payload>))
    ensures |MessageWords(c)| <= |r.1| + 1
  {
    var words := MessageWords(c);
    if NeedsLong(c.capcode) && words != [] then (words[0], words[1..]) else (0, words)
  }

  function Bodies(cs: seq<Notice>): seq<Payload> {
    if cs == [] then [] else SplitMessage(cs[0]).1 + Bodies(cs[1..])
  }

  function AddressCount(cs: seq<Notice>): nat {
    if cs == [] then 0 else (if NeedsLong(cs[0].capcode) then 2 else 1) + AddressCount(cs[1..])
  }

  function Spec(c: Notice, at: nat): PageSpec
    requires at + |SplitMessage(c).1| <= FRAME_WORDS
  {
    PageFields(c.capcode, c.ptype, at, Length(c), if SendsDigits(c.ptype) then c.high else 0, c.check, SplitMessage(c).0)
  }

  /** Messages one after the other from word `at` on. */
  function Specs(cs: seq<Notice>, at: nat): (pages: seq<PageSpec>)
    requires at + |Bodies(cs)| <= FRAME_WORDS
    ensures |Addresses(pages)| == AddressCount(cs)
  {
    if cs == [] then [] else [Spec(cs[0], at)] + Specs(cs[1..], at + |SplitMessage(cs[0]).1|)
  }

  /** The page a receiver reports: a message whose length field points beyond word 87 is lost. */
  function DeliveredOne(c: Notice, at: nat): seq<Page> {
    if SendsTone(c.ptype) || at + Length(c) <= 87 then [Page(c.capcode, c.ptype, c.text)] else []
  }

  function Delivered(cs: seq<Notice>, at: nat): seq<Page> {
    if cs == [] then [] else DeliveredOne(cs[0], at) + Delivered(cs[1..], at + |SplitMessage(cs[0]).1|)
  }

  lemma RangeHolds(f: Frame, at: nat, words: seq<Word>)
    requires Holds(f, at, words)
    ensures f.Range(at, |words|) == words
  {
  }

  lemma HoldsTail(f: Frame, at: nat, words: seq<Word>)
    requires Holds(f, at, words) && words != []
    ensures f.At(at) == words[0] && f.Range(at + 1, |words| - 1) == words[1..]
  {
    assert f.At(at + 0) == words[0];
    forall k | 0 <= k < |words| - 1 ensures f.Range(at + 1, |words| - 1)[k] == words[1..][k] {
      assert f.At(at + (k + 1)) == words[k + 1];
    }
  }

  lemma NumericBody(f: Frame, c: Notice, at: nat)
    requires SendsDigits(c.ptype)
    requires 1 <= at && at + |SplitMessage(c).1| <= FRAME_WORDS && Holds(f, at, SplitMessage(c).1)
    ensures BodyOf(f, Spec(c, at)) == c.text
  {
    hide NumericMessage, NumericText, Holds;
    NumericRoundTrip(c.ptype, c.header, c.text);
    RangeHolds(f, at, SplitMessage(c).1);
    var words := NumericMessage(c.ptype, c.header, c.text);
    assert words == [words[0]] + words[1..];
  }

  lemma AlphaBody(f: Frame, c: Notice, at: nat)
    requires SendsText(c.ptype)
    requires 1 <= at && at + |SplitMessage(c).1| <= FRAME_WORDS && Holds(f, at, SplitMessage(c).1)
    ensures BodyOf(f, Spec(c, at)) == c.text
  {
    hide TextMessage, Text, Holds;
    TextRoundTrip(c.header, c.signature, c.text);
    if NeedsLong(c.capcode) {
      RangeHolds(f, at, SplitMessage(c).1);
    } else {
      HoldsTail(f, at, SplitMessage(c).1);
    }
  }

  lemma OneNotice(f: Frame, c: Notice, at: nat)
    requires 1 <= at && at + |SplitMessage(c).1| <= FRAME_WORDS && Holds(f, at, SplitMessage(c).1)
    ensures Message(f, Spec(c, at)) == DeliveredOne(c, at)
  {
    hide BodyOf, Length, SplitMessage, Holds;
    if SendsText(c.ptype) {
      AlphaBody(f, c, at);
    } else if SendsDigits(c.ptype) {
      NumericBody(f, c, at);
    } else {
      OtherBody(f, c, at);
    }
  }

  lemma OtherBody(f: Frame, c: Notice, at: nat)
    requires !SendsText(c.ptype) && !SendsDigits(c.ptype)
    requires at + |SplitMessage(c).1| <= FRAME_WORDS
    ensures BodyOf(f, Spec(c, at)) == c.text
  {
  }

  lemma FirstNotice(f: Frame, cs: seq<Notice>, at: nat)
    requires cs != [] && at + |Bodies(cs)| <= FRAME_WORDS
    ensures var c := cs[0];
            && Bodies(cs) == SplitMessage(c).1 + Bodies(cs[1..])
            && Messages(f, Specs(cs, at)) ==
               Message(f, Spec(c, at)) + Messages(f, Specs(cs[1..], at + |SplitMessage(c).1|))
            && Delivered(cs, at) == DeliveredOne(c, at) + Delivered(cs[1..], at + |SplitMessage(c).1|)
  {
    hide Message, SplitMessage, Spec, DeliveredOne;
    var pages := Specs(cs, at);
    assert pages[1..] == Specs(cs[1..], at + |SplitMessage(cs[0]).1|);
  }

  lemma NoNotices(f: Frame, at: nat)
    requires at <= FRAME_WORDS
    ensures Bodies([]) == [] && Messages(f, Specs([], at)) == Delivered([], at)
  {
    hide Message, DeliveredOne;
  }

  lemma NoticeStep(f: Frame, cs: seq<Notice>, at: nat)
    requires cs != [] && 1 <= at && at + |Bodies(cs)| <= FRAME_WORDS && Holds(f, at, Bodies(cs))
    requires Messages(f, Specs(cs[1..], at + |SplitMessage(cs[0]).1|)) == Delivered(cs[1..], at + |SplitMessage(cs[0]).1|)
    ensures Messages(f, Specs(cs, at)) == Delivered(cs, at)
  {
    FirstNotice(f, cs, at);
    hide Message, SplitMessage, Holds, Spec, Length, Specs, Messages, Bodies, Delivered, DeliveredOne, Sendable;
    HoldsSplit(f, at, SplitMessage(cs[0]).1, Bodies(cs[1..]));
    OneNotice(f, cs[0], at);
  }

  lemma FirstBody(cs: seq<Notice>)
    requires cs != []
    ensures Bodies(cs) == SplitMessage(cs[0]).1 + Bodies(cs[1..])
  {
    hide SplitMessage;
  }

  lemma TailFits(cs: seq<Notice>, at: nat)
    requires cs != [] && at + |Bodies(cs)| <= FRAME_WORDS
    ensures at + |SplitMessage(cs[0]).1| + |Bodies(cs[1..])| <= FRAME_WORDS
  {
    hide SplitMessage, Sendable;
  }

  lemma TailHolds(f: Frame, cs: seq<Notice>, at: nat)
    requires cs != [] && Holds(f, at, Bodies(cs))
    ensures Holds(f, at + |SplitMessage(cs[0]).1|, Bodies(cs[1..]))
  {
    hide SplitMessage, Holds, Sendable, Bodies, MessageWords;
    FirstBody(cs);
    HoldsSplit(f, at, SplitMessage(cs[0]).1, Bodies(cs[1..]));
  }

  lemma {:induction false} AllNotices(f: Frame, cs: seq<Notice>, at: nat)
    requires 1 <= at && at + |Bodies(cs)| <= FRAME_WORDS && Holds(f, at, Bodies(cs))
    ensures Messages(f, Specs(cs, at)) == Delivered(cs, at)
    decreases |cs|
  {
    hide Message, SplitMessage, Holds, Spec, Length, Specs, Messages, Bodies, Delivered, DeliveredOne;
    hide Sendable, MessageWords;
    if cs == [] {
      NoNotices(f, at);
    } else {
      TailFits(cs, at);
      TailHolds(f, cs, at);
      AllNotices(f, cs[1..], at + |SplitMessage(cs[0]).1|);
      NoticeStep(f, cs, at);
    }
  }

  /** Where the messages start. */
  function Start(cs: seq<Notice>): nat { 1 + 2 * AddressCount(cs) }

  ghost predicate Fits(cs: seq<Notice>, fill: seq<Payload>) {
    AddressCount(cs) < 63 && Start(cs) + |Bodies(cs)| + |fill| == FRAME_WORDS
  }

  function BroadcastWords(cs: seq<Notice>, fill: seq<Payload>): seq<Payload>
    requires Fits(cs, fill)
  {
    FrameWords([], 0, 0, Specs(cs, Start(cs)), Bodies(cs) + fill)
  }

  lemma BroadcastHolds(cs: seq<Notice>, fill: seq<Payload>, beyond: nat -> Word)
    requires Fits(cs, fill)
    ensures |BroadcastWords(cs, fill)| == FRAME_WORDS
    ensures Holds(Frame(BroadcastWords(cs, fill), beyond), Start(cs), Bodies(cs))
  {
    hide Specs, Bodies, Addresses, Vectors, BlockWord, AddressCount;
    var pages := Specs(cs, Start(cs));
    var before := [BlockWord(0, 1 + |Addresses(pages)|, 0, 0)] + [] + Addresses(pages) + Vectors(pages);
    assert BroadcastWords(cs, fill) == before + Bodies(cs) + fill;
    WordsHold(Frame(BroadcastWords(cs, fill), beyond), before, Bodies(cs), fill);
  }

  lemma FirstWord(cs: seq<Notice>, fill: seq<Payload>)
    requires Fits(cs, fill)
    ensures BroadcastWords(cs, fill)[0] < 0x1_0000
  {
    hide Specs, Bodies, Addresses, Vectors, AddressCount;
  }

  /** Whatever messages a frame holds, to whatever short and long addresses, the parser reports exactly those
      whose vectors it accepts, in order, each with its own address, type and text. */
  lemma BroadcastRoundTrip(cs: seq<Notice>, fill: seq<Payload>, beyond: nat -> Word)
    requires Fits(cs, fill)
    ensures PagesOf(Frame(BroadcastWords(cs, fill), beyond)) == Delivered(cs, Start(cs))
  {
    hide Specs, Bodies, Addresses, Vectors, Messages, Delivered, PagesOf, Holds, FrameWords;
    var f := Frame(BroadcastWords(cs, fill), beyond);
    FrameRoundTrip([], 0, 0, Specs(cs, Start(cs)), Bodies(cs) + fill, beyond);
    BroadcastHolds(cs, fill, beyond);
    FirstWord(cs, fill);
    AllNotices(f, cs, Start(cs));
  }

  function Sent(cs: seq<Notice>): seq<Page> {
    if cs == [] then [] else [Page(cs[0].capcode, cs[0].ptype, cs[0].text)] + Sent(cs[1..])
  }

  /** Nothing is lost if the last two words of the frame are left unused. */
  lemma {:induction false} NothingLost(cs: seq<Notice>, at: nat)
    requires at + |Bodies(cs)| <= 86
    ensures Delivered(cs, at) == Sent(cs)
    decreases |cs|
  {
    hide MessageWords;
    if cs != [] {
      NothingLost(cs[1..], at + |SplitMessage(cs[0]).1|);
    }
  }

  /** The last word of a frame cannot be used: an alphanumeric message to a short address
      that ends with the frame fits in it, but the parser reports nothing. */
  lemma LastWordIsLost(c: Notice, beyond: nat -> Word)
    requires SendsText(c.ptype) && !NeedsLong(c.capcode)
    requires Fits([c], [])
    ensures PagesOf(Frame(BroadcastWords([c], []), beyond)) == [] != Sent([c])
  {
    BroadcastRoundTrip([c], [], beyond);
    OneSent(c);
    hide BroadcastWords, PagesOf, MessageWords, Delivered, Sent, Bodies;
  }

  lemma OneSent(c: Notice)
    requires SendsText(c.ptype) && !NeedsLong(c.capcode)
    requires Fits([c], [])
    ensures Delivered([c], Start([c])) == [] != Sent([c])
  {
    hide MessageWords;
    var rest: seq<Notice> := [c][1..];
    assert rest == [] && Bodies(rest) == [] && AddressCount(rest) == 0;
    assert Bodies([c]) == SplitMessage(c).1 + Bodies(rest);
    assert Start([c]) == 3 && Start([c]) + Length(c) == FRAME_WORDS;
    assert Delivered([c], 3) == DeliveredOne(c, 3) + Delivered(rest, 3 + |SplitMessage(c).1|);
  }
}
