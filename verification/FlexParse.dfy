/** The FLEX page parser: collects the 88 data words of a frame, then decodes
    addresses, vectors and messages. */
module FlexParse {

  type Word = w: int | -0x8000_0000 <= w < 0x8000_0000

  /** A data word as the deinterleaver delivers it. */
  type Payload = w: Word | 0 <= w < 0x20_0000

  const FRAME_WORDS := 88
  const WORD_BITS := 21
  const IDLE_WORD := 0x1F_FFFF

  // ---- page types ----

  const SECURE := 0
  const TONE := 2
  const STANDARD_NUMERIC := 3
  const SPECIAL_NUMERIC := 4
  const ALPHANUMERIC := 5
  const NUMBERED_NUMERIC := 7

  predicate IsAlphanumericPage(t: nat) { t == ALPHANUMERIC || t == SECURE }

  predicate IsNumericPage(t: nat) { t == STANDARD_NUMERIC || t == SPECIAL_NUMERIC || t == NUMBERED_NUMERIC }

  predicate IsTonePage(t: nat) { t == TONE }

  const BCD: string := "0123456789 U -]["
  const FILL_DIGIT := 0x0C
  const FILL_CHAR := 0x03

  datatype Option<T> = None | Some(value: T)

  /** A decoded page; the body is what follows the fixed fields of the message. */
  datatype Page = Page(capcode: int, ptype: nat, body: string)

  // ---- words ----

  /** The words of a frame; a read past the end of the array gives whatever is there. */
  datatype Frame = Frame(words: seq<Word>, beyond: nat -> Word) {
    function At(k: nat): Word {
      if k < |words| then words[k] else beyond(k)
    }

    function Range(from: nat, n: nat): (r: seq<Word>)
      ensures |r| == n
    {
      seq<Word>(n, k requires 0 <= k < n => At(from + k))
    }
  }

  function ToInt32(x: int): Word {
    (x + 0x8000_0000) % 0x1_0000_0000 - 0x8000_0000
  }

  /** Exclusive or with 0x001FFFFF. */
  function FlipLow21(x: int): int {
    x - x % 0x20_0000 + (0x1F_FFFF - x % 0x20_0000)
  }

  /** The low `n` bits of a word, least significant first. */
  function LsbBits(w: int, n: nat): (bits: seq<bool>)
    ensures |bits| == n
    decreases n
  {
    if n == 0 then [] else [w % 2 == 1] + LsbBits(w / 2, n - 1)
  }

  // ---- addresses ----

  predicate IsLongAddress(aw1: int) {
    aw1 < 0x00_8001 || aw1 > 0x1E_0000 || aw1 > 0x1E_7FFE
  }

  function CapcodeOf(aw1: int, aw2: int): int {
    if IsLongAddress(aw1) then ToInt32(aw1 + ToInt32(FlipLow21(aw2) * 0x8000) + 0x1F_9000)
    else aw1 - 0x8000
  }

  // ---- numeric messages ----

  function HeaderBits(t: nat): nat {
    if t == NUMBERED_NUMERIC then 10 else 2
  }

  /** The words of a numeric message; with a long address the first is the second vector word. */
  function NumericWords(f: Frame, long: bool, mw1: nat, mw2: nat, j: nat): seq<Word>
    requires mw1 <= mw2
  {
    if long then [f.At(j + 1)] + f.Range(mw1, mw2 - mw1) else f.Range(mw1, mw2 - mw1 + 1)
  }

  function WordBits(words: seq<Word>): (bits: seq<bool>)
    ensures |bits| == WORD_BITS * |words|
  {
    if words == [] then [] else WordBits(words[..|words| - 1]) + LsbBits(words[|words| - 1], WORD_BITS)
  }

  function Nibble(bits: seq<bool>): (d: nat)
    requires |bits| == 4
    ensures d < 16
  {
    (if bits[0] then 1 else 0) + (if bits[1] then 2 else 0) + (if bits[2] then 4 else 0) + (if bits[3] then 8 else 0)
  }

  function DigitText(d: nat): string
    requires d < 16
  {
    if d != FILL_DIGIT then [BCD[d]] else []
  }

  /** A bit string cut into digits of four bits, fill digits and a last incomplete digit dropped. */
  function Digits(bits: seq<bool>): string {
    if |bits| < 4 then [] else DigitText(Nibble(bits[..4])) + Digits(bits[4..])
  }

  /** What a numeric message says. */
  function NumericText(t: nat, words: seq<Word>): string
    requires words != []
  {
    Digits(WordBits(words)[HeaderBits(t)..])
  }

  // ---- alphanumeric messages ----

  function CharText(c: int): string
    requires 0 <= c < 128
  {
    if c != FILL_CHAR then [c as char] else []
  }

  /** The three characters of a word; the first word of a message may not use its first character. */
  function WordText(w: int, first: bool): string {
    (if first then CharText(w % 128) else []) + CharText(w / 0x80 % 128) + CharText(w / 0x4000 % 128)
  }

  function Text(words: seq<Word>, firstUsed: bool): string {
    if words == [] then []
    else Text(words[..|words| - 1], firstUsed) + WordText(words[|words| - 1], |words| > 1 || firstUsed)
  }

  /** The header word and the text words of an alphanumeric message ending before `mw2`. */
  function AlphaText(f: Frame, long: bool, mw1: nat, mw2: nat, j: nat): string {
    var header := f.At(if long then j + 1 else mw1);
    var from, to := if long then mw1 else mw1 + 1, if long then mw2 - 1 else mw2;
    Text(f.Range(from, if to > from then to - from else 0), header / 0x800 % 4 != 3)
  }

  // ---- vectors ----

  datatype Vector = Vector(ptype: nat, mw1: nat, len: nat)

  function VectorOf(viw: int): Vector {
    var t := viw / 0x10 % 8;
    var len := viw / 0x4000 % 128;
    Vector(t, viw / 0x80 % 128, if IsNumericPage(t) then len % 8 else len)
  }

  /** The body of a page whose vector is at `j`, or nothing if the vector is not valid. */
  function BodyAt(f: Frame, long: bool, j: nat): Option<string> {
    var vec := VectorOf(f.At(j));
    var mw2 := vec.mw1 + vec.len;
    if vec.mw1 == 0 && mw2 == 0 then None
    else if IsTonePage(vec.ptype) then Some("")
    else if vec.mw1 > 87 || mw2 > 87 then None
    else if IsAlphanumericPage(vec.ptype) then Some(AlphaText(f, long, vec.mw1, mw2, j))
    else if IsNumericPage(vec.ptype) then Some(NumericText(vec.ptype, NumericWords(f, long, vec.mw1, mw2, j)))
    else Some("")
  }

  // ---- a frame ----

  function VectorOffset(biw: int): nat { biw / 0x400 % 64 }

  function AddressOffset(biw: int): nat { biw / 0x100 % 4 + 1 }

  /** The page, if any, addressed by word `i`, and the word of the next address. */
  function Visit(f: Frame, a: nat, v: nat, i: nat): (r: (seq<Page>, nat))
    requires 1 <= a <= i
    ensures i < r.1
  {
    if f.At(i) == 0 || f.At(i) == IDLE_WORD then ([], i + 1)
    else
      var long := IsLongAddress(f.At(i));
      var capcode := CapcodeOf(f.At(i), f.At(i + 1));
      var j := v + i - a;
      var body := BodyAt(f, long, j);
      (if capcode < 0 || body == None then [] else [Page(capcode, VectorOf(f.At(j)).ptype, body.value)],
       if long then i + 2 else i + 1)
  }

  /** The pages addressed from word `i` on. */
  function PagesFrom(f: Frame, a: nat, v: nat, i: nat): seq<Page>
    requires 1 <= a <= i
    decreases v - i
  {
    if i >= v then [] else Visit(f, a, v, i).0 + PagesFrom(f, a, v, Visit(f, a, v, i).1)
  }

  function PagesOf(f: Frame): seq<Page>
    requires f.words != []
  {
    var biw := f.At(0);
    if biw == 0 || biw == IDLE_WORD then []
    else PagesFrom(f, AddressOffset(biw), VectorOffset(biw), AddressOffset(biw))
  }

  // ---- the word stream ----

  /** The array, the count of words collected and the pages sent. */
  datatype Collector = Collector(words: seq<Word>, count: nat, queue: seq<Page>)

  type ParserState = s: Collector | |s.words| == FRAME_WORDS && s.count < FRAME_WORDS
    witness Collector(seq(FRAME_WORDS, _ => 0), 0, [])

  function ParseWord(s: ParserState, beyond: nat -> Word, w: Word): ParserState {
    var words := s.words[s.count := w];
    if s.count + 1 == FRAME_WORDS then Collector(words, 0, s.queue + PagesOf(Frame(words, beyond)))
    else Collector(words, s.count + 1, s.queue)
  }

  function Parsed(s: ParserState, beyond: nat -> Word, input: seq<Word>): ParserState
    decreases |input|
  {
    if input == [] then s
    else ParseWord(Parsed(s, beyond, input[..|input| - 1]), beyond, input[|input| - 1])
  }

  // ---- the numeric scanner ----

  /** The digit register, the bits still missing from it, and the text so far. */
  type Digit = d: nat | d < 16

  datatype Scan = Scan(digit: Digit, count: int, text: string)

  function ScanBit(s: Scan, bit: bool): Scan {
    var digit: Digit := s.digit / 2 % 16 + if bit then 8 else 0;
    if s.count == 1 then Scan(digit, 4, s.text + DigitText(digit))
    else Scan(digit, s.count - 1, s.text)
  }

  function Scanned(header: nat, bits: seq<bool>): Scan
    decreases |bits|
  {
    if bits == [] then Scan(0, 4 + header, [])
    else ScanBit(Scanned(header, bits[..|bits| - 1]), bits[|bits| - 1])
  }

  /** The digit register holds the last bits scanned. */
  function Register(bits: seq<bool>): (d: nat)
    ensures d < 16
    decreases |bits|
  {
    if bits == [] then 0 else Register(bits[..|bits| - 1]) / 2 + if bits[|bits| - 1] then 8 else 0
  }

  lemma RegisterTake(bits: seq<bool>, k: nat)
    requires 0 < k <= |bits|
    ensures Register(bits[..k]) == Register(bits[..k - 1]) / 2 + if bits[k - 1] then 8 else 0
  {
    assert bits[..k][..k - 1] == bits[..k - 1];
  }

  lemma RegisterNibble(bits: seq<bool>)
    requires |bits| >= 4
    ensures Register(bits) == Nibble(bits[|bits| - 4..])
  {
    hide Register;
    var n := |bits|;
    RegisterTake(bits, n - 3);
    RegisterTake(bits, n - 2);
    RegisterTake(bits, n - 1);
    RegisterTake(bits, n);
    assert bits[..n] == bits;
  }

  /** What one more bit adds to the text: a completed digit or nothing. */
  function NewText(all: seq<bool>): string {
    var n := |all|;
    if n >= 4 && n % 4 == 0 then DigitText(Nibble(all[n - 4..])) else []
  }

  lemma DigitsShort(bits: seq<bool>)
    requires |bits| < 4
    ensures Digits(bits) == []
  {
  }

  lemma DigitsCons(bits: seq<bool>)
    requires |bits| >= 4
    ensures Digits(bits) == DigitText(Nibble(bits[..4])) + Digits(bits[4..])
  {
  }

  lemma {:induction false} DigitsSnoc(a: seq<bool>, b: bool)
    ensures Digits(a + [b]) == Digits(a) + NewText(a + [b])
    decreases |a|
  {
    hide DigitText, Nibble, Digits, NewText;
    var all := a + [b];
    if |a| < 4 {
      DigitsShort(a);
      DigitsSnocShort(a, b);
    } else {
      DigitsCons(a);
      DigitsCons(all);
      assert all[..4] == a[..4];
      assert all[4..] == a[4..] + [b];
      DigitsSnoc(a[4..], b);
      NewTextTail(all);
    }
  }

  lemma DigitsSnocShort(a: seq<bool>, b: bool)
    requires |a| < 4
    ensures Digits(a + [b]) == NewText(a + [b])
  {
    var all := a + [b];
    if |a| == 3 {
      DigitsCons(all);
      DigitsShort(all[4..]);
      assert all[..4] == all[0..];
    }
    hide DigitText, Nibble;
  }

  lemma NewTextTail(all: seq<bool>)
    requires |all| > 4
    ensures NewText(all[4..]) == NewText(all)
  {
    hide DigitText, Nibble;
    if |all| % 4 == 0 {
      assert all[4..][|all| - 8..] == all[|all| - 4..];
    }
  }

  /** What the scanner's state must be after a flat bit string. */
  function Flat(header: nat, bits: seq<bool>): Scan {
    var n := |bits|;
    Scan(Register(bits),
         if n < header + 4 then header + 4 - n else 4 - (n - header) % 4,
         if n < header then [] else Digits(bits[header..]))
  }

  lemma FlatText(header: nat, bits: seq<bool>, b: bool)
    requires header <= |bits|
    ensures var all, n := bits + [b], |bits| + 1;
            Digits(all[header..]) == Digits(bits[header..]) +
              if n >= header + 4 && (n - header) % 4 == 0 then DigitText(Register(all)) else []
  {
    hide DigitText, Nibble, Digits, Register;
    var all, n := bits + [b], |bits| + 1;
    DigitsSnoc(bits[header..], b);
    assert all[header..] == bits[header..] + [b];
    if n >= header + 4 {
      RegisterNibble(all);
      assert all[header..][n - header - 4..] == all[n - 4..];
    }
  }

  lemma FlatStep(header: nat, bits: seq<bool>, b: bool)
    ensures ScanBit(Flat(header, bits), b) == Flat(header, bits + [b])
  {
    hide DigitText, Nibble, Digits;
    var all := bits + [b];
    assert all[..|bits|] == bits;
    if header <= |bits| {
      FlatText(header, bits, b);
    } else {
      DigitsShort(all[|all|..]);
      assert header == |all| ==> all[header..] == all[|all|..];
    }
  }

  /** Scanning bit by bit across word boundaries is cutting the flat bit string into digits. */
  lemma {:induction false} ScannedIsFlat(header: nat, bits: seq<bool>)
    ensures Scanned(header, bits) == Flat(header, bits)
    decreases |bits|
  {
    if bits == [] {
    } else {
      hide Flat, ScanBit;
      var front, b := bits[..|bits| - 1], bits[|bits| - 1];
      assert bits == front + [b];
      ScannedIsFlat(header, front);
      FlatStep(header, front, b);
    }
  }

  // ---- the block ----

  class Parser {
    const datawords: array<Word>
    const beyond: nat -> Word
    var count: nat
    var ptype: nat
    var capcode: int
    var laddr: bool
    var queue: seq<Page>

    ghost predicate Valid()
      reads this
    {
      datawords.Length == FRAME_WORDS && count < FRAME_WORDS
    }

    /** The frame as it stands in the array. */
    ghost function Current(): Frame
      reads datawords
    {
      Frame(datawords[..], beyond)
    }

    /** `words` is whatever the array held, `beyond` what lies after it. */
    constructor (words: array<Word>, beyond: nat -> Word)
      requires words.Length == FRAME_WORDS
      ensures Valid() && datawords == words && this.beyond == beyond && count == 0 && queue == []
    {
      datawords, this.beyond := words, beyond;
      count, ptype, capcode, laddr, queue := 0, 0, 0, false, [];
    }

    /** The block's state as a value. */
    ghost function Stream(): ParserState
      requires Valid()
      reads this, datawords
    {
      Collector(datawords[..], count, queue)
    }

    method At(k: nat) returns (w: Word)
      requires datawords.Length == FRAME_WORDS
      ensures w == Current().At(k)
    {
      w := if k < datawords.Length then datawords[k] else beyond(k);
    }

    method ParseCapcode(aw1: Word, aw2: Word)
      modifies this`laddr, this`capcode
      ensures laddr == IsLongAddress(aw1) && capcode == CapcodeOf(aw1, aw2)
    {
      laddr := aw1 < 0x00_8001 || aw1 > 0x1E_0000 || aw1 > 0x1E_7FFE;
      if laddr {
        capcode := ToInt32(aw1 + ToInt32(FlipLow21(aw2) * 0x8000) + 0x1F_9000);
      } else {
        capcode := aw1 - 0x8000;
      }
    }

    /** The inner loop: the 21 bits of a word, least significant first. */
    static method ScanWord(word: Word, s: Scan, ghost header: nat, ghost done: seq<bool>) returns (t: Scan)
      requires s == Scanned(header, done)
      ensures t == Scanned(header, done + LsbBits(word, WORD_BITS))
    {
      hide DigitText, Digits, Scanned, ScanBit, LsbBits;
      var digit: Digit, count, text := s.digit, s.count, s.text;
      var dw: int := word;
      ghost var bits := LsbBits(word, WORD_BITS);
      assert done + bits[..0] == done;
      for k := 0 to WORD_BITS
        invariant Scan(digit, count, text) == Scanned(header, done + bits[..k])
        invariant LsbBits(dw, WORD_BITS - k) == bits[k..]
      {
        LsbHead(dw, WORD_BITS - k);
        ScannedSnoc(header, done, bits, k);
        digit, count, text := ShiftDigit(digit, count, text, dw % 2 == 1);
        dw := dw / 2;
      }
      assert bits[..WORD_BITS] == bits;
      t := Scan(digit, count, text);
    }

    /** Shift a bit into the digit, and write the digit when it is complete. */
    static method ShiftDigit(d: Digit, c: int, s: string, bit: bool) returns (digit: Digit, count: int, text: string)
      ensures Scan(digit, count, text) == ScanBit(Scan(d, c, s), bit)
    {
      hide DigitText;
      digit, count, text := d / 2 % 16, c, s;
      if bit {
        digit := digit + 8;
      }
      count := count - 1;
      if count == 0 {
        var more := TextOf(digit);
        text := text + more;
        count := 4;
      }
    }

    static method TextOf(digit: Digit) returns (text: string)
      ensures text == DigitText(digit)
    {
      text := [];
      if digit != FILL_DIGIT {
        text := text + [BCD[digit]];
      }
    }

    method ParseNumeric(mw1: nat, mw2: nat, j: nat) returns (text: string)
      requires datawords.Length == FRAME_WORDS && mw1 <= mw2
      ensures text == NumericText(ptype, NumericWords(Current(), laddr, mw1, mw2, j))
    {
      hide Digits, ScanBit, Scanned, LsbBits, WordBits;
      ghost var words := NumericWords(Current(), laddr, mw1, mw2, j);
      var first, last := mw1, mw2;
      var dw: Word;
      if !laddr {
        dw := At(first);
        first := first + 1;
        last := last + 1;
      } else {
        dw := At(j + 1);
      }
      assert dw == words[0] && |words| == last + 1 - first;
      var count := 4;
      if ptype == NUMBERED_NUMERIC {
        count := count + 10;
      } else {
        count := count + 2;
      }
      var s := Scan(0, count, []);
      ghost var header := HeaderBits(ptype);
      ScannedNone(header);
      WordBitsNone();
      assert words[..0] == [];
      for i := first to last + 1
        invariant s == Scanned(header, WordBits(words[..i - first]))
        invariant i <= last ==> dw == words[i - first]
      {
        WordBitsTake(words, i - first);
        s := ScanWord(dw, s, header, WordBits(words[..i - first]));
        dw := At(i);
      }
      assert words[..|words|] == words;
      ScannedIsFlat(header, WordBits(words));
      text := s.text;
    }

    method PutChar(text: string, c: int) returns (longer: string)
      requires 0 <= c < 128
      ensures longer == text + CharText(c)
    {
      longer := text;
      if c != FILL_CHAR {
        longer := longer + [c as char];
      }
    }

    method PutWord(text: string, dw: Word, first: bool) returns (longer: string)
      ensures longer == text + WordText(dw, first)
    {
      hide CharText;
      longer := text;
      if first {
        longer := PutChar(longer, dw % 128);
      }
      longer := PutChar(longer, dw / 0x80 % 128);
      longer := PutChar(longer, dw / 0x4000 % 128);
    }

    /** As called, `mw2` is already one less than the end of the message. */
    method ParseAlphanumeric(mw1: nat, mw2: int, j: nat) returns (text: string)
      requires datawords.Length == FRAME_WORDS && mw2 >= -1
      ensures text == AlphaText(Current(), laddr, mw1, mw2 + 1, j)
    {
      hide Text, WordText;
      var first, last := mw1, mw2;
      var frag: int;
      if !laddr {
        var w := At(first);
        frag := w / 0x800 % 4;
        first := first + 1;
      } else {
        var w := At(j + 1);
        frag := w / 0x800 % 4;
        last := last - 1;
      }
      text := [];
      ghost var words := Current().Range(first, if last + 1 > first then last + 1 - first else 0);
      assert words[..0] == [];
      TextNone(frag != 3);
      var i := first;
      while i <= last
        invariant first <= i && (i <= last + 1 || i == first)
        invariant text == Text(words[..i - first], frag != 3)
      {
        TextTake(words, i - first, frag != 3);
        var dw := At(i);
        text := PutWord(text, dw, i > first || frag != 3);
        i := i + 1;
      }
      assert words[..|words|] == words;
    }

    /** The body of the page whose vector word is at `j`. */
    method ParsePage(j: nat) returns (body: Option<string>)
      requires datawords.Length == FRAME_WORDS
      modifies this`ptype
      ensures ptype == VectorOf(Current().At(j)).ptype
      ensures body == BodyAt(Current(), laddr, j)
    {
      hide AlphaText, NumericText;
      var viw := At(j);
      ptype := viw / 0x10 % 8;
      var mw1 := viw / 0x80 % 128;
      var len := viw / 0x4000 % 128;
      if IsNumericPage(ptype) {
        len := len % 8;
      }
      var mw2 := mw1 + len;
      if mw1 == 0 && mw2 == 0 {
        return None;
      }
      if IsTonePage(ptype) {
        mw1, mw2 := 0, 0;
      }
      if mw1 > 87 || mw2 > 87 {
        return None;
      }
      var text := [];
      if IsAlphanumericPage(ptype) {
        text := ParseAlphanumeric(mw1, mw2 - 1, j);
      } else if IsNumericPage(ptype) {
        text := ParseNumeric(mw1, mw2, j);
      }
      body := Some(text);
    }

    /** One pass of the page loop, for the address at `i` and the vector at `j`. */
    method ParseAddress(i: nat, j: nat, ghost a: nat, ghost v: nat) returns (next: nat)
      requires datawords.Length == FRAME_WORDS && 1 <= a <= i && j == v + i - a
      modifies this`ptype, this`capcode, this`laddr, this`queue
      ensures queue == old(queue) + Visit(Current(), a, v, i).0
      ensures next == Visit(Current(), a, v, i).1
    {
      hide BodyAt, CapcodeOf, VectorOf, IsLongAddress;
      next := i + 1;
      var aw1 := At(i);
      if aw1 == 0 || aw1 == IDLE_WORD {
        return;
      }
      var aw2 := At(i + 1);
      ParseCapcode(aw1, aw2);
      if laddr {
        next := next + 1;
      }
      if capcode < 0 {
        return;
      }
      var body := ParsePage(j);
      if body.Some? {
        queue := queue + [Page(capcode, ptype, body.value)];
      }
    }

    method ParseData()
      requires datawords.Length == FRAME_WORDS
      modifies this`ptype, this`capcode, this`laddr, this`queue
      ensures queue == old(queue) + PagesOf(Current())
    {
      hide Visit;
      ghost var f := Current();
      var biw := At(0);
      if biw == 0 || biw == IDLE_WORD {
        return;
      }
      var voffset := biw / 0x400 % 64;
      var aoffset := biw / 0x100 % 4 + 1;
      var i := aoffset;
      ghost var found: seq<Page> := [];
      while i < voffset
        invariant aoffset <= i
        invariant queue == old(queue) + found
        invariant found + PagesFrom(f, aoffset, voffset, i) == PagesFrom(f, aoffset, voffset, aoffset)
        decreases voffset - i
      {
        found := found + Visit(f, aoffset, voffset, i).0;
        i := ParseAddress(i, voffset + i - aoffset, aoffset, voffset);
      }
    }

    method Work(input: seq<Word>) returns (consumed: nat)
      requires Valid()
      modifies this`count, this`ptype, this`capcode, this`laddr, this`queue, datawords
      ensures Valid() && consumed == |input|
      ensures Stream() == Parsed(old(Stream()), beyond, input)
    {
      hide PagesOf;
      consumed := 0;
      while consumed < |input|
        invariant Valid() && consumed <= |input|
        invariant Stream() == Parsed(old(Stream()), beyond, input[..consumed])
      {
        assert input[..consumed + 1][..consumed] == input[..consumed];
        datawords[count] := input[consumed];
        consumed := consumed + 1;
        count := count + 1;
        if count == 88 {
          ParseData();
          count := 0;
        }
      }
      assert input[..consumed] == input;
    }
  }

  lemma TextNone(firstUsed: bool)
    ensures Text([], firstUsed) == []
  {
  }

  lemma TextTake(words: seq<Word>, n: nat, firstUsed: bool)
    requires n < |words|
    ensures Text(words[..n + 1], firstUsed) == Text(words[..n], firstUsed) + WordText(words[n], n > 0 || firstUsed)
  {
    hide CharText;
    assert words[..n + 1][..n] == words[..n];
  }

  lemma ScannedNone(header: nat)
    ensures Scanned(header, []) == Scan(0, 4 + header, [])
  {
  }

  lemma ScannedSnoc(header: nat, done: seq<bool>, bits: seq<bool>, k: nat)
    requires k < |bits|
    ensures Scanned(header, done + bits[..k + 1]) == ScanBit(Scanned(header, done + bits[..k]), bits[k])
  {
    hide ScanBit;
    var all := done + bits[..k + 1];
    assert all[..|all| - 1] == done + bits[..k];
  }

  lemma LsbHead(w: int, n: nat)
    requires n > 0
    ensures LsbBits(w, n)[0] == (w % 2 == 1) && LsbBits(w, n)[1..] == LsbBits(w / 2, n - 1)
  {
  }

  lemma WordBitsNone()
    ensures WordBits([]) == []
  {
  }

  lemma WordBitsTake(words: seq<Word>, n: nat)
    requires n < |words|
    ensures WordBits(words[..n + 1]) == WordBits(words[..n]) + LsbBits(words[n], WORD_BITS)
  {
    hide LsbBits;
    assert words[..n + 1][..n] == words[..n];
  }
}
