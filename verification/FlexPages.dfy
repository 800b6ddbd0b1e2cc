/** Encoders for FLEX frames and messages, and the proof that the parser inverts them. */
module FlexPages {
  import opened FlexParse

  // ---- addresses ----

  const FIRST_LONG := 0x1F_9001

  ghost predicate Encodable(capcode: int) {
    1 <= capcode <= 0x1D_8000 || FIRST_LONG <= capcode < 0x8000_0000
  }

  predicate NeedsLong(capcode: int) { capcode >= FIRST_LONG }

  function AddressWords(capcode: int): (words: seq<Payload>)
    requires Encodable(capcode)
    ensures |words| == if NeedsLong(capcode) then 2 else 1
  {
    if NeedsLong(capcode) then
      [1 + (capcode - FIRST_LONG) % 0x8000, 0x1F_FFFF - (capcode - FIRST_LONG) / 0x8000]
    else [capcode + 0x8000]
  }

  /** Every short and long capcode is read back from its address words, whatever follows a short one. */
  lemma CapcodeRoundTrip(capcode: int, next: Word)
    requires Encodable(capcode)
    ensures var words := AddressWords(capcode);
            && words[0] != 0 && words[0] != IDLE_WORD
            && IsLongAddress(words[0]) == NeedsLong(capcode)
            && CapcodeOf(words[0], if NeedsLong(capcode) then words[1] else next) == capcode
  {
    if NeedsLong(capcode) {
      var x := (capcode - FIRST_LONG) / 0x8000;
      assert FlipLow21(0x1F_FFFF - x) == x;
      assert ToInt32(x * 0x8000) == x * 0x8000;
    }
  }

  /** Which words of 21 bits are read as the first of a long address, and what capcode any two words give: the
      number they stand for, brought into the range of a 32-bit integer. */
  lemma CapcodeOfWords(aw1: Payload, aw2: Payload)
    ensures IsLongAddress(aw1) <==> aw1 <= 0x8000 || 0x1E_0000 < aw1
    ensures 0x8000 < aw1 <= 0x1E_0000 ==> CapcodeOf(aw1, aw2) == aw1 - 0x8000 > 0
    ensures aw1 <= 0x8000 || 0x1E_0000 < aw1 ==>
              var exact := aw1 + 0x1F_9000 + 0x8000 * (0x1F_FFFF - aw2);
              && (CapcodeOf(aw1, aw2) - exact) % 0x1_0000_0000 == 0
              && (CapcodeOf(aw1, aw2) < 0 <==> exact / 0x8000_0000 % 2 == 1)
  {
    assert FlipLow21(aw2) == 0x1F_FFFF - aw2;
    var shifted := (0x1F_FFFF - aw2) * 0x8000;
    Int32(shifted);
    Int32(aw1 + ToInt32(shifted) + 0x1F_9000);
    if IsLongAddress(aw1) {
      SameResidue(CapcodeOf(aw1, aw2), ToInt32(shifted), shifted, aw1 + 0x1F_9000);
      SignOf(CapcodeOf(aw1, aw2), aw1 + 0x1F_9000 + shifted);
    }
  }

  lemma Int32(x: int)
    ensures (ToInt32(x) - x) % 0x1_0000_0000 == 0
  {
  }

  lemma SameResidue(c: int, t: int, s: int, a: int)
    requires (c - (a + t)) % 0x1_0000_0000 == 0 && (t - s) % 0x1_0000_0000 == 0
    ensures (c - (a + s)) % 0x1_0000_0000 == 0
  {
  }

  lemma SignOf(c: Word, x: int)
    requires (c - x) % 0x1_0000_0000 == 0
    ensures c < 0 <==> x / 0x8000_0000 % 2 == 1
  {
    var k := (c - x) / 0x1_0000_0000;
    assert c == x + 0x1_0000_0000 * k;
    assert c / 0x8000_0000 == x / 0x8000_0000 + 2 * k;
  }

  // ---- pages ----

  // The page types, by their numbers in a vector word.

  predicate SendsText(ptype: nat) { ptype == 0 || ptype == 5 }

  predicate SendsTone(ptype: nat) { ptype == 2 }

  predicate SendsDigits(ptype: nat) { ptype == 3 || ptype == 4 || ptype == 7 }

  /** A page as a transmitter sees it: the fields of its vector word, and its second vector word. */
  datatype PageFields =
    PageFields(capcode: int, ptype: nat, mw1: nat, len: nat, high: nat, check: nat, second: Payload)

  type PageSpec = p: PageFields | WellFormed(p) witness PageFields(1, 2, 1, 0, 0, 0, 0)

  ghost predicate WellFormed(p: PageFields) {
    && Encodable(p.capcode)
    && p.ptype < 8 && p.check < 16 && p.mw1 < 128 && p.high < 16
    && (if SendsDigits(p.ptype) then p.len < 8 else p.len < 128 && p.high == 0)
  }

  function VectorWord(p: PageSpec): Payload {
    p.check + p.ptype * 0x10 + p.mw1 * 0x80 + p.len * 0x4000 + p.high * 0x2_0000
  }

  function VectorWords(p: PageSpec): (words: seq<Payload>)
    ensures |words| == if NeedsLong(p.capcode) then 2 else 1
  {
    if NeedsLong(p.capcode) then [VectorWord(p), p.second] else [VectorWord(p)]
  }

  lemma VectorFields(check: nat, t: nat, mw1: nat, len: nat)
    requires check < 16 && t < 8 && mw1 < 128 && len < 128
    ensures var w := check + t * 0x10 + mw1 * 0x80 + len * 0x4000;
            w / 0x10 % 8 == t && w / 0x80 % 128 == mw1 && w / 0x4000 % 128 == len
  {
    var w := check + t * 0x10 + mw1 * 0x80 + len * 0x4000;
    assert w / 0x10 == t + (mw1 + len * 128) * 8;
    assert w / 0x80 == mw1 + len * 128;
    assert w / 0x4000 == len;
  }

  /** Type, start and length are read back; of a numeric page the four bits above the length do not matter. */
  lemma VectorRoundTrip(p: PageSpec)
    ensures VectorOf(VectorWord(p)) == Vector(p.ptype, p.mw1, p.len)
  {
    VectorFields(p.check, p.ptype, p.mw1, p.len + p.high * 8);
    hide VectorWord;
    assert VectorWord(p) == p.check + p.ptype * 0x10 + p.mw1 * 0x80 + (p.len + p.high * 8) * 0x4000 by {
      WholeVector(p);
    }
  }

  lemma WholeVector(p: PageSpec)
    ensures VectorWord(p) == p.check + p.ptype * 0x10 + p.mw1 * 0x80 + (p.len + p.high * 8) * 0x4000
  {
  }

  function Addresses(pages: seq<PageSpec>): (words: seq<Payload>) {
    if pages == [] then [] else AddressWords(pages[0].capcode) + Addresses(pages[1..])
  }

  function Vectors(pages: seq<PageSpec>): (words: seq<Payload>)
    ensures |words| == |Addresses(pages)|
  {
    if pages == [] then [] else VectorWords(pages[0]) + Vectors(pages[1..])
  }

  /** Whether a receiver can use the vector of a page: the end of the message must not be beyond word 87. */
  predicate Reported(p: PageSpec) {
    (p.mw1 != 0 || p.len != 0) && (SendsTone(p.ptype) || p.mw1 + p.len <= 87)
  }

  /** The body a receiver must report: a numeric message with a long address starts in the page's own
      second vector word, and so does the header of an alphanumeric one. */
  function BodyOf(f: Frame, p: PageSpec): string {
    var long, mw2 := NeedsLong(p.capcode), p.mw1 + p.len;
    if SendsText(p.ptype) then
      var from, to := if long then p.mw1 else p.mw1 + 1, if long then mw2 - 1 else mw2;
      Text(f.Range(from, if to > from then to - from else 0),
           (if long then p.second else f.At(p.mw1)) / 0x800 % 4 != 3)
    else if SendsDigits(p.ptype) then
      NumericText(p.ptype, if long then [p.second] + f.Range(p.mw1, p.len) else f.Range(p.mw1, p.len + 1))
    else ""
  }

  function Messages(f: Frame, pages: seq<PageSpec>): seq<Page> {
    if pages == [] then [] else Message(f, pages[0]) + Messages(f, pages[1..])
  }

  function Message(f: Frame, p: PageSpec): seq<Page> {
    if Reported(p) then [Page(p.capcode, p.ptype, BodyOf(f, p))] else []
  }

  /** Words from `i` on are those of `words`. */
  ghost predicate Holds(f: Frame, i: nat, words: seq<Word>) {
    forall k :: 0 <= k < |words| ==> f.At(i + k) == words[k]
  }

  lemma OnePage(f: Frame, a: nat, v: nat, i: nat, p: PageSpec)
    requires 1 <= a <= i
    requires Holds(f, i, AddressWords(p.capcode)) && Holds(f, v + i - a, VectorWords(p))
    ensures Visit(f, a, v, i) == (Message(f, p), i + |AddressWords(p.capcode)|)
  {
    hide Text, NumericText, CapcodeOf, IsLongAddress, VectorOf;
    CapcodeRoundTrip(p.capcode, f.At(i + 1));
    VectorRoundTrip(p);
    var aw, vw, j := AddressWords(p.capcode), VectorWords(p), v + i - a;
    assert f.At(i + 0) == aw[0] && f.At(j + 0) == vw[0];
    if NeedsLong(p.capcode) {
      assert f.At(i + 1) == aw[1] && f.At(j + 1) == vw[1] == p.second;
    }
  }

  /** An address word of all zeros or all ones is passed over, and its vector with it. */
  lemma IdleAddress(f: Frame, a: nat, v: nat, i: nat)
    requires 1 <= a <= i < v && (f.At(i) == 0 || f.At(i) == 0x1F_FFFF)
    ensures PagesFrom(f, a, v, i) == PagesFrom(f, a, v, i + 1)
  {
    assert [] + PagesFrom(f, a, v, i + 1) == PagesFrom(f, a, v, i + 1);
  }

  /** So is a long address whose number, as a 32-bit integer, is negative: both its words and both its vector words. */
  lemma NegativeAddress(f: Frame, a: nat, v: nat, i: nat)
    requires 1 <= a <= i < v && 0 < f.At(i) < 0x1F_FFFF && 0 <= f.At(i + 1) < 0x20_0000
    requires f.At(i) <= 0x8000 || 0x1E_0000 < f.At(i)
    requires (f.At(i) + 0x1F_9000 + 0x8000 * (0x1F_FFFF - f.At(i + 1))) / 0x8000_0000 % 2 == 1
    ensures PagesFrom(f, a, v, i) == PagesFrom(f, a, v, i + 2)
  {
    hide PagesFrom, Visit, CapcodeOf, IsLongAddress;
    CapcodeOfWords(f.At(i), f.At(i + 1));
    NegativeVisit(f, a, v, i);
    FirstVisit(f, a, v, i);
    assert [] + PagesFrom(f, a, v, i + 2) == PagesFrom(f, a, v, i + 2);
  }

  lemma NegativeVisit(f: Frame, a: nat, v: nat, i: nat)
    requires 1 <= a <= i && f.At(i) != 0 && f.At(i) != IDLE_WORD
    requires IsLongAddress(f.At(i)) && CapcodeOf(f.At(i), f.At(i + 1)) < 0
    ensures Visit(f, a, v, i) == ([], i + 2)
  {
    hide BodyAt, CapcodeOf, IsLongAddress, VectorOf;
  }

  lemma HoldsSplit(f: Frame, i: nat, a: seq<Word>, b: seq<Word>)
    requires Holds(f, i, a + b)
    ensures Holds(f, i, a) && Holds(f, i + |a|, b)
  {
    forall k | 0 <= k < |a| ensures f.At(i + k) == a[k] {
      assert (a + b)[k] == a[k];
    }
    forall k | 0 <= k < |b| ensures f.At(i + |a| + k) == b[k] {
      assert (a + b)[|a| + k] == b[k];
      assert f.At(i + (|a| + k)) == (a + b)[|a| + k];
    }
  }

  lemma FirstPage(f: Frame, pages: seq<PageSpec>)
    requires pages != []
    ensures Addresses(pages) == AddressWords(pages[0].capcode) + Addresses(pages[1..])
    ensures Vectors(pages) == VectorWords(pages[0]) + Vectors(pages[1..])
    ensures Messages(f, pages) == Message(f, pages[0]) + Messages(f, pages[1..])
  {
    hide AddressWords, VectorWords, Message;
  }

  lemma FirstVisit(f: Frame, a: nat, v: nat, i: nat)
    requires 1 <= a <= i < v
    ensures PagesFrom(f, a, v, i) == Visit(f, a, v, i).0 + PagesFrom(f, a, v, Visit(f, a, v, i).1)
  {
    hide Visit;
  }

  /** The page loop visits exactly the pages laid out from word `i`, in order, each with its own vector. */
  lemma {:induction false} WalkPages(f: Frame, a: nat, v: nat, i: nat, pages: seq<PageSpec>)
    requires 1 <= a <= i && i + |Addresses(pages)| == v
    requires Holds(f, i, Addresses(pages)) && Holds(f, v + i - a, Vectors(pages))
    ensures PagesFrom(f, a, v, i) == Messages(f, pages)
    decreases |pages|
  {
    if pages == [] {
      hide Visit, Message, AddressWords, VectorWords, Holds;
    } else {
      hide Visit, Message, AddressWords, VectorWords, Holds, Addresses, Vectors, Messages, PagesFrom;
      var p, rest := pages[0], pages[1..];
      FirstPage(f, pages);
      FirstVisit(f, a, v, i);
      HoldsSplit(f, i, AddressWords(p.capcode), Addresses(rest));
      HoldsSplit(f, v + i - a, VectorWords(p), Vectors(rest));
      OnePage(f, a, v, i, p);
      WalkPages(f, a, v, i + |AddressWords(p.capcode)|, rest);
    }
  }

  // ---- frames ----

  /** The block information word of a frame whose addresses start after `extra` more words. */
  function BlockWord(extra: nat, v: nat, low: nat, high: nat): Payload
    requires extra < 4 && v < 64 && low < 0x100 && high < 0x20
  {
    low + extra * 0x100 + v * 0x400 + high * 0x1_0000
  }

  lemma BlockFields(extra: nat, v: nat, low: nat, high: nat)
    requires extra < 4 && 0 < v < 64 && low < 0x100 && high < 0x20
    ensures var w := BlockWord(extra, v, low, high);
            VectorOffset(w) == v && AddressOffset(w) == extra + 1 && w != 0
  {
    var w := BlockWord(extra, v, low, high);
    assert w / 0x400 == v + high * 64;
    assert w / 0x100 == extra + (v + high * 64) * 4;
  }

  /** A frame: block information, extra block words, addresses, vectors, and the messages. */
  function FrameWords(extra: seq<Payload>, low: nat, high: nat, pages: seq<PageSpec>, rest: seq<Payload>): seq<Payload>
    requires |extra| < 4 && low < 0x100 && high < 0x20 && 1 + |extra| + |Addresses(pages)| < 64
  {
    [BlockWord(|extra|, 1 + |extra| + |Addresses(pages)|, low, high)] + extra + Addresses(pages) + Vectors(pages) + rest
  }

  /** A frame built from any list of pages is parsed back into exactly those pages, in order, whatever the other
      bits of its block information word, unless that word has all its bits set. */
  lemma FrameRoundTrip(extra: seq<Payload>, low: nat, high: nat, pages: seq<PageSpec>, rest: seq<Payload>,
                       beyond: nat -> Word)
    requires |extra| < 4 && low < 0x100 && high < 0x20 && 1 + |extra| + |Addresses(pages)| < 64
    ensures var f := Frame(FrameWords(extra, low, high, pages, rest), beyond);
            PagesOf(f) == if f.words[0] == 0x1F_FFFF then [] else Messages(f, pages)
  {
    hide Addresses, Vectors, PagesFrom, Messages, BlockWord, VectorOffset, AddressOffset;
    var f := Frame(FrameWords(extra, low, high, pages, rest), beyond);
    var a := 1 + |extra|;
    var v := a + |Addresses(pages)|;
    BlockFields(|extra|, v, low, high);
    WordsHold(f, [BlockWord(|extra|, v, low, high)] + extra, Addresses(pages), Vectors(pages) + rest);
    WordsHold(f, [BlockWord(|extra|, v, low, high)] + extra + Addresses(pages), Vectors(pages), rest);
    WalkPages(f, a, v, a, pages);
  }

  lemma WordsHold(f: Frame, before: seq<Word>, words: seq<Word>, after: seq<Word>)
    requires f.words == before + words + after
    ensures Holds(f, |before|, words)
  {
  }

  // ---- reads past the end of the array ----

  lemma {:induction false} PagesAgree(f: Frame, g: Frame, a: nat, v: nat, i: nat)
    requires 1 <= a <= i && 2 * v - a < FRAME_WORDS
    requires |f.words| == FRAME_WORDS && f.words == g.words
    ensures PagesFrom(f, a, v, i) == PagesFrom(g, a, v, i)
    decreases v - i
  {
    if i < v {
      hide BodyAt, Visit, PagesFrom;
      FirstVisit(f, a, v, i);
      FirstVisit(g, a, v, i);
      VisitAgrees(f, g, a, v, i);
      PagesAgree(f, g, a, v, Visit(f, a, v, i).1);
    }
  }

  lemma VisitAgrees(f: Frame, g: Frame, a: nat, v: nat, i: nat)
    requires 1 <= a <= i < v && 2 * v - a < FRAME_WORDS
    requires |f.words| == FRAME_WORDS && f.words == g.words
    ensures Visit(f, a, v, i) == Visit(g, a, v, i)
  {
    hide BodyAt, CapcodeOf, IsLongAddress, VectorOf;
    BodyAgrees(f, g, IsLongAddress(f.At(i)), v + i - a);
  }

  lemma BodyAgrees(f: Frame, g: Frame, long: bool, j: nat)
    requires |f.words| == FRAME_WORDS && f.words == g.words && j < FRAME_WORDS - 1
    ensures BodyAt(f, long, j) == BodyAt(g, long, j)
  {
    hide Text, NumericText, VectorOf;
    var vec := VectorOf(f.At(j));
    if vec.mw1 + vec.len <= 87 {
      RangeAgrees(f, g, vec.mw1, vec.len);
      RangeAgrees(f, g, vec.mw1, vec.len + 1);
      AlphaAgrees(f, g, long, vec.mw1, vec.mw1 + vec.len, j);
    }
  }

  lemma RangeAgrees(f: Frame, g: Frame, from: nat, n: nat)
    requires |f.words| == FRAME_WORDS && f.words == g.words && from + n <= FRAME_WORDS
    ensures f.Range(from, n) == g.Range(from, n)
  {
    forall k | 0 <= k < n ensures f.Range(from, n)[k] == g.Range(from, n)[k] {
      assert f.At(from + k) == g.At(from + k);
    }
  }

  lemma AlphaAgrees(f: Frame, g: Frame, long: bool, mw1: nat, mw2: nat, j: nat)
    requires |f.words| == FRAME_WORDS && f.words == g.words && mw1 <= mw2 <= 87 && j < FRAME_WORDS - 1
    ensures AlphaText(f, long, mw1, mw2, j) == AlphaText(g, long, mw1, mw2, j)
  {
    hide Text;
    var from, to := if long then mw1 else mw1 + 1, if long then mw2 - 1 else mw2;
    if to > from {
      RangeAgrees(f, g, from, to - from);
    }
  }

  /** Words beyond the array do not matter when the last vector lies inside it, although the word
      after the array is loaded for a short numeric message that ends with the frame. */
  lemma BeyondDoesNotMatter(f: Frame, g: Frame)
    requires |f.words| == FRAME_WORDS && f.words == g.words
    requires 2 * VectorOffset(f.words[0]) - AddressOffset(f.words[0]) < FRAME_WORDS
    ensures PagesOf(f) == PagesOf(g)
  {
    hide PagesFrom, VectorOffset;
    PagesAgree(f, g, AddressOffset(f.words[0]), VectorOffset(f.words[0]), AddressOffset(f.words[0]));
  }
}
