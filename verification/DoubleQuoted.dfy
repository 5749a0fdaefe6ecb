/** The double-quoted scalar printer, undone by a YAML 1.2.2 reader. */
module DoubleQuoted {
  import opened Wrappers

  /** A Unicode code point. */
  type Code = c: int | 0 <= c < 0x110000 witness 0
  type Text = seq<Code>

  const QUOTE: Code := 0x22
  const BACKSLASH: Code := 0x5C
  const TAB: Code := 0x09
  const LINE_FEED: Code := 0x0A
  const CARRIAGE_RETURN: Code := 0x0D
  const SHORT_HEX: Code := 0x75          // the letter of the four-digit escape
  const LONG_HEX: Code := 0x55           // the letter of the eight-digit escape
  const BYTE_HEX: Code := 0x78           // the letter of the two-digit escape
  const MAX_SHORT_ESCAPE := 0xFFFF

  // ---- the printer -------------------------------------------------------------------

  /** Line breaks that YAML 1.1 folds, and the byte-order mark. */
  predicate Unquotable(c: Code) {
    c == 0x85 || c == 0x2028 || c == 0x2029 || c == 0xFEFF
  }

  predicate IsPrintable(c: Code) {
    && !Unquotable(c)
    && (0x20 <= c <= 0x7E || 0xA0 <= c <= 0xD7FF || 0xE000 <= c <= 0xFFFD || 0x10000 <= c <= 0x10FFFF)
  }

  function HexDigit(n: int): (c: Code)
    requires 0 <= n < 16
  {
    if n < 10 then 0x30 + n else 0x61 + n - 10
  }

  /** The last `width` lower-case hexadecimal digits of a number. */
  function HexDigits(n: nat, width: nat): (r: Text)
    ensures |r| == width
  {
    if width == 0 then [] else HexDigits(n / 16, width - 1) + [HexDigit(n % 16)]
  }

  /** How one code point is spelled. */
  function Spelled(c: Code): Text
  {
    if c == QUOTE || c == BACKSLASH then [BACKSLASH, c]
    else if c == TAB then [BACKSLASH, 0x74]
    else if c == LINE_FEED then [BACKSLASH, 0x6E]
    else if c == CARRIAGE_RETURN then [BACKSLASH, 0x72]
    else if IsPrintable(c) then [c]
    else if c <= MAX_SHORT_ESCAPE then [BACKSLASH, SHORT_HEX] + HexDigits(c, 4)
    else [BACKSLASH, LONG_HEX] + HexDigits(c, 8)
  }

  function SpelledAll(value: Text): Text
  {
    if value == [] then [] else Spelled(value[0]) + SpelledAll(value[1..])
  }

  /** The scalar as the printer is specified to write it. */
  function Quoted(value: Text): Text
  {
    [QUOTE] + SpelledAll(value) + [QUOTE]
  }

  lemma {:induction false} SpelledAppend(value: Text, c: Code)
    ensures SpelledAll(value + [c]) == SpelledAll(value) + Spelled(c)
  {
    if value == [] {
      assert (value + [c])[1..] == [];
    } else {
      assert (value + [c])[1..] == value[1..] + [c];
      SpelledAppend(value[1..], c);
    }
  }

  /** Everything above the four-digit range is printable, so the printer's last case is dead. */
  lemma LongEscapeNeverNeeded(c: Code)
    ensures Spelled(c)[0] == BACKSLASH && |Spelled(c)| > 2 ==>
      Spelled(c) == [BACKSLASH, SHORT_HEX] + HexDigits(c, 4) && c <= MAX_SHORT_ESCAPE
  {
  }

  lemma {:induction false} NextSpelled(value: Text, i: nat, piece: Text)
    requires i < |value| && piece == Spelled(value[i])
    ensures [QUOTE] + SpelledAll(value[..i + 1]) == [QUOTE] + SpelledAll(value[..i]) + piece
  {
    SpelledAppend(value[..i], value[i]);
    assert value[..i + 1] == value[..i] + [value[i]];
  }

  method Print(value: Text) returns (quoted: Text)
    ensures quoted == Quoted(value)
  {
    quoted := [QUOTE];
    for i := 0 to |value|
      invariant quoted == [QUOTE] + SpelledAll(value[..i])
    {
      var code := value[i];
      var piece: Text;
      if code == QUOTE || code == BACKSLASH {
        piece := [BACKSLASH, code];
      } else if code == TAB {
        piece := [BACKSLASH, 0x74];
      } else if code == LINE_FEED {
        piece := [BACKSLASH, 0x6E];
      } else if code == CARRIAGE_RETURN {
        piece := [BACKSLASH, 0x72];
      } else if IsPrintable(code) {
        piece := [code];
      } else if code <= MAX_SHORT_ESCAPE {
        piece := [BACKSLASH, SHORT_HEX] + HexDigits(code, 4);
      } else {
        assert false;      // the eight-digit escape is never needed: see LongEscapeNeverNeeded
      }
      NextSpelled(value, i, piece);
      quoted := quoted + piece;
    }
    assert value[..|value|] == value;
    quoted := quoted + [QUOTE];
  }

  // ---- what YAML may print, from sections 5.1 and 5.4 of YAML 1.2.2 ----------------------

  /** Production 1: the printable characters. */
  ghost predicate YamlPrintable(c: Code)
  {
    || c in {0x09, 0x0A, 0x0D, 0x85}
    || 0x20 <= c <= 0x7E || 0xA0 <= c <= 0xD7FF || 0xE000 <= c <= 0xFFFD || 0x10000 <= c <= 0x10FFFF
  }

  /** The breaks of YAML 1.2.2, and those that only YAML 1.1 knows. */
  ghost predicate LineBreak(c: Code)
  {
    c in {0x0A, 0x0D} || c in {0x85, 0x2028, 0x2029}
  }

  const BYTE_ORDER_MARK: Code := 0xFEFF

  /** Exactly these stand for themselves: what is printable, neither breaks the line nor has a meaning
      between the quotes, and is no tab or byte-order mark. */
  lemma PlainCodes(c: Code)
    ensures Spelled(c) == [c] <==>
      YamlPrintable(c) && !LineBreak(c) && c !in {QUOTE, BACKSLASH, TAB, BYTE_ORDER_MARK}
    ensures Spelled(c) == [c] || Spelled(c)[0] == BACKSLASH
    // the rest takes two characters or six
    ensures c in {QUOTE, BACKSLASH, TAB, LINE_FEED, CARRIAGE_RETURN} ==> |Spelled(c)| == 2
    ensures Spelled(c) == [c] || c in {QUOTE, BACKSLASH, TAB, LINE_FEED, CARRIAGE_RETURN} || |Spelled(c)| == 6
  {
  }

  // ---- the reader, from sections 5.1, 5.7 and 7.3.1 of YAML 1.2.2 -----------------------

  /** Production 2: what may stand in a double-quoted scalar unescaped, on one line. */
  predicate IsJson(c: Code) {
    c == 0x09 || 0x20 <= c
  }

  /** Productions 42 to 58: the escapes of a single character. */
  function NamedEscape(letter: Code): Option<Code>
  {
    match letter
    case 0x30 => Some(0x00)      // 0
    case 0x61 => Some(0x07)      // a
    case 0x62 => Some(0x08)      // b
    case 0x74 => Some(0x09)      // t
    case 0x09 => Some(0x09)
    case 0x6E => Some(0x0A)      // n
    case 0x76 => Some(0x0B)      // v
    case 0x66 => Some(0x0C)      // f
    case 0x72 => Some(0x0D)      // r
    case 0x65 => Some(0x1B)      // e
    case 0x20 => Some(0x20)
    case 0x22 => Some(0x22)
    case 0x2F => Some(0x2F)
    case 0x5C => Some(0x5C)
    case 0x4E => Some(0x85)      // N
    case 0x5F => Some(0xA0)
    case 0x4C => Some(0x2028)    // L
    case 0x50 => Some(0x2029)    // P
    case _ => None
  }

  /** Productions 59 to 61: how many hexadecimal digits follow the letter. */
  function HexWidth(letter: Code): nat
  {
    if letter == BYTE_HEX then 2 else if letter == SHORT_HEX then 4 else if letter == LONG_HEX then 8 else 0
  }

  function DigitValue(c: Code): Option<nat>
  {
    if 0x30 <= c <= 0x39 then Some(c - 0x30)
    else if 0x41 <= c <= 0x46 then Some(c - 0x41 + 10)
    else if 0x61 <= c <= 0x66 then Some(c - 0x61 + 10)
    else None
  }

  function HexValue(digits: Text): Option<nat>
  {
    if digits == [] then Some(0)
    else
      var rest, last := HexValue(digits[..|digits| - 1]), DigitValue(digits[|digits| - 1]);
      if rest.Some? && last.Some? then Some(16 * rest.value + last.value) else None
  }

  function Prepend(c: Code, rest: Option<Text>): Option<Text>
  {
    if rest.Some? then Some([c] + rest.value) else None
  }

  /** What stands after the opening quote, up to a closing quote that ends the source. */
  function ReadRest(s: Text): Option<Text>
  {
    if s == [] then None
    else if s[0] == QUOTE then (if |s| == 1 then Some([]) else None)
    else if s[0] != BACKSLASH then (if IsJson(s[0]) then Prepend(s[0], ReadRest(s[1..])) else None)
    else if |s| == 1 then None
    else if NamedEscape(s[1]).Some? then Prepend(NamedEscape(s[1]).value, ReadRest(s[2..]))
    else
      var width := HexWidth(s[1]);
      if width == 0 || |s| < 2 + width then None
      else
        var code := HexValue(s[2..2 + width]);
        if code.Some? && code.value < 0x110000 then Prepend(code.value, ReadRest(s[2 + width..])) else None
  }

  /** The value of a one-line double-quoted scalar. */
  function Read(s: Text): Option<Text>
  {
    if s == [] || s[0] != QUOTE then None else ReadRest(s[1..])
  }

  // ---- reading undoes printing ---------------------------------------------------------

  function Pow16(width: nat): nat
  {
    if width == 0 then 1 else 16 * Pow16(width - 1)
  }

  lemma {:induction false} HexRoundTrip(n: nat, width: nat)
    requires n < Pow16(width)
    ensures HexValue(HexDigits(n, width)) == Some(n)
  {
    if width > 0 {
      var digits := HexDigits(n, width);
      HexRoundTrip(n / 16, width - 1);
      assert digits[..width - 1] == HexDigits(n / 16, width - 1);
      assert DigitValue(HexDigit(n % 16)) == Some(n % 16);
    }
  }

  lemma Pow16Values()
    ensures Pow16(4) == 0x1_0000 && Pow16(8) == 0x1_0000_0000
  {
    assert Pow16(2) == 0x100 && Pow16(4) == 0x1_0000 && Pow16(6) == 0x100_0000;
  }

  /** One spelled code point reads back as itself. */
  lemma ReadsSpelled(c: Code, s: Text)
    ensures ReadRest(Spelled(c) + s) == Prepend(c, ReadRest(s))
  {
    var spelled := Spelled(c);
    if |spelled| <= 2 {
      assert (spelled + s)[|spelled|..] == s;
    } else {
      var width := HexWidth(spelled[1]);
      Pow16Values();
      HexRoundTrip(c, width);
      assert (spelled + s)[2..2 + width] == HexDigits(c, width);
      assert (spelled + s)[2 + width..] == s;
    }
  }

  lemma {:induction false} ReadsAllSpelled(value: Text)
    ensures ReadRest(SpelledAll(value) + [QUOTE]) == Some(value)
  {
    if value != [] {
      var c, rest := value[0], value[1..];
      ReadsAllSpelled(rest);
      ReadsSpelled(c, SpelledAll(rest) + [QUOTE]);
      assert SpelledAll(value) + [QUOTE] == Spelled(c) + (SpelledAll(rest) + [QUOTE]);
      assert [c] + rest == value;
    }
  }

  /** The reader undoes the printer, for every string. */
  lemma ReadUndoesQuoted(value: Text)
    ensures Read(Quoted(value)) == Some(value)
  {
    ReadsAllSpelled(value);
    assert Quoted(value)[1..] == SpelledAll(value) + [QUOTE];
  }

  /** Hexadecimal digits are written in lower case. */
  lemma {:induction false} HexLower(n: nat, width: nat)
    ensures forall i :: 0 <= i < width ==>
      0x30 <= HexDigits(n, width)[i] <= 0x39 || 0x61 <= HexDigits(n, width)[i] <= 0x66
  {
    if width > 0 {
      HexLower(n / 16, width - 1);
    }
  }

  /** Printable, and no line break, tab or byte-order mark. */
  ghost predicate StaysOnLine(c: Code)
  {
    YamlPrintable(c) && !LineBreak(c) && c !in {TAB, BYTE_ORDER_MARK}
  }

  lemma {:induction false} SpelledPrintable(value: Text)
    ensures forall i :: 0 <= i < |SpelledAll(value)| ==> StaysOnLine(SpelledAll(value)[i])
  {
    if value != [] {
      SpelledPrintable(value[1..]);
      PlainCodes(value[0]);
      HexLower(value[0], 4);
      HexLower(value[0], 8);
    }
  }

  /** What is printed is one line of characters YAML prints as they are. */
  lemma QuotedPrintable(value: Text)
    ensures forall i :: 0 <= i < |Quoted(value)| ==> StaysOnLine(Quoted(value)[i])
  {
    SpelledPrintable(value);
  }
}
