/** Encoders for numeric and alphanumeric messages, and the proof that the parser reads back their text. */
module FlexMessages {
  import opened Integers
  import opened FlexParse

  // ---- packing bits into words ----

  /** The word with the given bits, least significant first. */
  function Value(bits: seq<bool>): (w: nat)
    ensures w < Pow2(|bits|)
    decreases |bits|
  {
    if bits == [] then 0 else (if bits[0] then 1 else 0) + 2 * Value(bits[1..])
  }

  lemma {:induction false} ValueBits(bits: seq<bool>)
    ensures LsbBits(Value(bits), |bits|) == bits
    decreases |bits|
  {
    if bits == [] {
    } else {
      ValueBits(bits[1..]);
      assert bits == [bits[0]] + bits[1..];
    }
  }

  lemma WordFits()
    ensures Pow2(WORD_BITS) == 0x20_0000
  {
    assert Pow2(5) == 32 && Pow2(10) == 1024 && Pow2(15) == 0x8000;
    assert Pow2(20) == 0x10_0000;
  }

  /** A bit string as data words. */
  function Packed(bits: seq<bool>): (words: seq<Payload>)
    requires |bits| % WORD_BITS == 0
    ensures |words| * WORD_BITS == |bits|
    decreases |bits|
  {
    WordFits();
    if bits == [] then [] else Packed(bits[..|bits| - WORD_BITS]) + [Value(bits[|bits| - WORD_BITS..])]
  }

  lemma PackedSnoc(front: seq<bool>, last: seq<bool>)
    requires |front| % WORD_BITS == 0 && |last| == WORD_BITS
    ensures Value(last) < 0x20_0000 && |front + last| % WORD_BITS == 0
    ensures Packed(front + last) == Packed(front) + [Value(last)]
  {
    hide Value;
    WordFits();
    assert (front + last)[..|front|] == front && (front + last)[|front|..] == last;
  }

  lemma WordBitsSnoc(words: seq<Word>, w: Word)
    ensures WordBits(words + [w]) == WordBits(words) + LsbBits(w, WORD_BITS)
  {
    hide LsbBits;
    assert (words + [w])[..|words|] == words;
  }

  lemma {:induction false} PackedBits(bits: seq<bool>)
    requires |bits| % WORD_BITS == 0
    ensures WordBits(Packed(bits)) == bits
    decreases |bits|
  {
    if bits == [] {
    } else {
      hide LsbBits, Value, Packed, WordBits;
      var front, last := bits[..|bits| - WORD_BITS], bits[|bits| - WORD_BITS..];
      assert bits == front + last;
      PackedBits(front);
      ValueBits(last);
      PackedSnoc(front, last);
      WordBitsSnoc(Packed(front), Value(last));
    }
  }

  // ---- numeric messages ----

  /** The digit that stands for a character of the numeric alphabet. */
  function DigitOf(c: char): (d: nat)
    requires c in BCD
    ensures d < 16 && d != FILL_DIGIT && BCD[d] == c
  {
    if '0' <= c <= '9' then c as int - '0' as int
    else if c == ' ' then 10 else if c == 'U' then 11 else if c == '-' then 13 else if c == ']' then 14 else 15
  }

  ghost predicate Numeric(text: string) {
    forall k :: 0 <= k < |text| ==> text[k] in BCD
  }

  function DigitBits(text: string): (bits: seq<bool>)
    requires Numeric(text)
    ensures |bits| == 4 * |text|
  {
    if text == [] then [] else LsbBits(DigitOf(text[0]), 4) + DigitBits(text[1..])
  }

  /** Fill digits, the last of them possibly cut off. */
  function Fill(n: nat): (bits: seq<bool>)
    ensures |bits| == n
  {
    seq(n, k requires 0 <= k < n => k % 4 >= 2)
  }

  lemma NibbleBits(d: nat)
    requires d < 16
    ensures Nibble(LsbBits(d, 4)) == d
  {
    assert LsbBits(d, 4) == [d % 2 == 1, d / 2 % 2 == 1, d / 2 / 2 % 2 == 1, d / 2 / 2 / 2 % 2 == 1];
  }

  lemma {:induction false} FillIsSilent(n: nat)
    ensures Digits(Fill(n)) == []
    decreases n
  {
    if n < 4 {
      DigitsShort(Fill(n));
    } else {
      FillIsSilent(n - 4);
      DigitsCons(Fill(n));
      assert Fill(n)[4..] == Fill(n - 4);
      assert Fill(n)[..4] == [false, false, true, true];
    }
  }

  lemma DigitOfText(c: char, rest: seq<bool>)
    requires c in BCD
    ensures Digits(LsbBits(DigitOf(c), 4) + rest) == [c] + Digits(rest)
  {
    hide Digits, Nibble, LsbBits, DigitOf;
    var d := DigitOf(c);
    var bits := LsbBits(d, 4) + rest;
    DigitsCons(bits);
    assert bits[..4] == LsbBits(d, 4) && bits[4..] == rest;
    NibbleBits(d);
  }

  lemma SameOrder<T>(a: seq<T>, b: seq<T>, c: seq<T>)
    ensures a + b + c == a + (b + c)
  {
  }

  lemma {:induction false} DigitsOfText(text: string, rest: seq<bool>)
    requires Numeric(text)
    ensures Digits(DigitBits(text) + rest) == text + Digits(rest)
    decreases |text|
  {
    hide Digits, LsbBits, DigitOf;
    if text == [] {
      assert DigitBits(text) + rest == rest;
    } else {
      var bits, tail := DigitBits(text[1..]), text[1..];
      DigitsOfText(tail, rest);
      DigitOfText(text[0], bits + rest);
      assert DigitBits(text) == LsbBits(DigitOf(text[0]), 4) + bits;
      SameOrder(LsbBits(DigitOf(text[0]), 4), bits, rest);
      assert text == [text[0]] + tail;
      SameOrder([text[0]], tail, Digits(rest));
    }
  }

  /** Fill up to a whole number of words. */
  function Filled(bits: seq<bool>): (r: seq<bool>)
    ensures |r| % WORD_BITS == 0 && |r| > |bits|
  {
    bits + Fill(WORD_BITS - |bits| % WORD_BITS)
  }

  /** Header bits, ten for page type 7 and two for the other numeric types, digits and fill. */
  function NumericBits(t: nat, header: nat, text: string): (bits: seq<bool>)
    requires Numeric(text)
    ensures |bits| % WORD_BITS == 0 && bits != []
  {
    Filled(LsbBits(header, if t == 7 then 10 else 2) + DigitBits(text))
  }

  function NumericMessage(t: nat, header: nat, text: string): (words: seq<Payload>)
    requires Numeric(text)
    ensures words != []
  {
    Packed(NumericBits(t, header, text))
  }

  /** Every digit string, of any length, with any header, is read back from its words,
      although digits straddle the words. */
  lemma NumericRoundTrip(t: nat, header: nat, text: string)
    requires Numeric(text)
    ensures NumericText(t, NumericMessage(t, header, text)) == text
  {
    hide Packed, DigitBits, Digits, LsbBits, WordBits, Fill;
    var width := if t == 7 then 10 else 2;
    var bits, front := NumericBits(t, header, text), LsbBits(header, width) + DigitBits(text);
    var fill := Fill(WORD_BITS - |front| % WORD_BITS);
    PackedBits(bits);
    assert HeaderBits(t) == width && bits[width..] == DigitBits(text) + fill;
    DigitsOfText(text, fill);
    FillIsSilent(|fill|);
    assert text + [] == text;
  }

  // ---- alphanumeric messages ----

  ghost predicate Printable(text: string) {
    forall k :: 0 <= k < |text| ==> text[k] as int < 128 && text[k] as int != 3
  }

  /** A seven-bit character. */
  type Slot = c: nat | c < 128

  function ThreeSlots(a: Slot, b: Slot, c: Slot): Payload {
    var x: nat, y: nat, z: nat := a, b, c;
    x + y * 0x80 + z * 0x4000
  }

  /** Slots, three to a word. */
  function SlotWords(slots: seq<Slot>): (words: seq<Payload>)
    requires |slots| % 3 == 0
    ensures |words| * 3 == |slots|
    decreases |slots|
  {
    if slots == [] then []
    else
      var n := |slots|;
      SlotWords(slots[..n - 3]) + [ThreeSlots(slots[n - 3], slots[n - 2], slots[n - 1])]
  }

  function SlotText(slots: seq<Slot>): string
    decreases |slots|
  {
    if slots == [] then [] else SlotText(slots[..|slots| - 1]) + CharText(slots[|slots| - 1])
  }

  lemma {:induction false} SlotTextAppend(a: seq<Slot>, b: seq<Slot>)
    ensures SlotText(a + b) == SlotText(a) + SlotText(b)
    decreases |b|
  {
    hide CharText;
    if b == [] {
      assert a + b == a;
    } else {
      assert (a + b)[..|a + b| - 1] == a + b[..|b| - 1];
      SlotTextAppend(a, b[..|b| - 1]);
    }
  }

  lemma SlotTextOne(a: Slot)
    ensures SlotText([a]) == CharText(a)
  {
    assert [a][..0] == [];
  }

  lemma WordOfSlots(a: Slot, b: Slot, c: Slot, first: bool)
    ensures WordText(ThreeSlots(a, b, c), first) == SlotText(if first then [a, b, c] else [b, c])
  {
    hide CharText, SlotText;
    var w := ThreeSlots(a, b, c);
    assert w / 0x80 == b + c * 0x80;
    assert w / 0x4000 == c;
    SlotTextOne(a);
    SlotTextOne(b);
    SlotTextOne(c);
    SlotTextAppend([b], [c]);
    SlotTextAppend([a], [b, c]);
    assert [b] + [c] == [b, c] && [a] + [b, c] == [a, b, c];
  }

  lemma TextSnoc(words: seq<Word>, w: Word, firstUsed: bool)
    ensures Text(words + [w], firstUsed) == Text(words, firstUsed) + WordText(w, words != [] || firstUsed)
  {
    hide WordText;
    assert (words + [w])[..|words|] == words;
  }

  lemma SlotWordsSnoc(front: seq<Slot>, a: Slot, b: Slot, c: Slot)
    requires |front| % 3 == 0
    ensures SlotWords(front + [a, b, c]) == SlotWords(front) + [ThreeSlots(a, b, c)]
  {
    hide ThreeSlots;
    assert (front + [a, b, c])[..|front|] == front;
  }

  /** The text of packed slots is the text of the slots, less the first if that is not used. */
  lemma {:induction false} TextOfSlots(slots: seq<Slot>, firstUsed: bool)
    requires |slots| % 3 == 0 && slots != []
    ensures Text(SlotWords(slots), firstUsed) == SlotText(if firstUsed then slots else slots[1..])
    decreases |slots|
  {
    hide WordText, SlotText, Text, ThreeSlots, SlotWords;
    var n := |slots|;
    var front, a, b, c := slots[..n - 3], slots[n - 3], slots[n - 2], slots[n - 1];
    assert slots == front + [a, b, c];
    SlotWordsSnoc(front, a, b, c);
    TextSnoc(SlotWords(front), ThreeSlots(a, b, c), firstUsed);
    WordOfSlots(a, b, c, SlotWords(front) != [] || firstUsed);
    if n > 3 {
      TextOfSlots(front, firstUsed);
      SlotTextAppend(if firstUsed then front else front[1..], [a, b, c]);
      assert front[1..] + [a, b, c] == slots[1..];
    } else {
      FirstText(front, a, b, c, firstUsed);
    }
  }

  lemma FirstText(front: seq<Slot>, a: Slot, b: Slot, c: Slot, firstUsed: bool)
    requires front == []
    ensures var slots, some := front + [a, b, c], if firstUsed then [a, b, c] else [b, c];
            (if firstUsed then slots else slots[1..]) == some
    ensures Text(SlotWords(front), firstUsed) == [] && SlotWords(front) == []
  {
  }

  function Slots(text: string): (slots: seq<Slot>)
    requires Printable(text)
    ensures |slots| == |text|
  {
    seq(|text|, k requires 0 <= k < |text| => text[k] as int)
  }

  lemma {:induction false} SlotTextOf(text: string)
    requires Printable(text)
    ensures SlotText(Slots(text)) == text
    decreases |text|
  {
    if text == [] {
    } else {
      var front := text[..|text| - 1];
      SlotTextOf(front);
      assert Slots(text)[..|text| - 1] == Slots(front);
      assert text == front + [text[|text| - 1]];
    }
  }

  function FillSlots(n: nat): (slots: seq<Slot>)
    ensures |slots| == n
  {
    seq(n, _ => 3)
  }

  lemma {:induction false} FillSlotsSilent(n: nat)
    ensures SlotText(FillSlots(n)) == []
    decreases n
  {
    if n > 0 {
      FillSlotsSilent(n - 1);
      assert FillSlots(n)[..n - 1] == FillSlots(n - 1);
    }
  }

  /** Whether the first character of the first word is text; it is a signature when the fragment field is 3. */
  predicate FirstUsed(header: Word) { header / 0x800 % 4 != 3 }

  function TextSlots(signature: Slot, header: Word, text: string): (slots: seq<Slot>)
    requires Printable(text)
    ensures |slots| % 3 == 0 && slots != []
  {
    var body := if FirstUsed(header) then Slots(text) else [signature] + Slots(text);
    body + FillSlots(3 - |body| % 3)
  }

  /** The header word and the text, three characters to a word. */
  function TextMessage(header: Payload, signature: Slot, text: string): (words: seq<Payload>)
    requires Printable(text)
    ensures |words| >= 2 && words[0] == header
  {
    [header] + SlotWords(TextSlots(signature, header, text))
  }

  /** Every text is read back from its words, whether or not they start with a signature. */
  lemma TextRoundTrip(header: Payload, signature: Slot, text: string)
    requires Printable(text)
    ensures Text(TextMessage(header, signature, text)[1..], FirstUsed(header)) == text
  {
    hide SlotText, Text, Slots, FillSlots, FirstUsed, SlotWords;
    var slots := TextSlots(signature, header, text);
    assert TextMessage(header, signature, text)[1..] == SlotWords(slots);
    TextOfSlots(slots, FirstUsed(header));
    var n := |text| + if FirstUsed(header) then 0 else 1;
    SlotTextOf(text);
    FillSlotsSilent(3 - n % 3);
    SlotTextAppend(Slots(text), FillSlots(3 - n % 3));
    assert (if FirstUsed(header) then slots else slots[1..]) == Slots(text) + FillSlots(3 - n % 3);
    assert text + [] == text;
  }
}
