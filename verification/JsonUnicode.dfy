/** Escapes of string literals, against RFC 3629 and RFC 8259. */
module JsonUnicode {
  // A decoder for UTF-8 that knows nothing of the encoder, and what escapes decode to.
  import opened Json
  import opened JsonParse
  import opened JsonRoundTrip

  // ----- UTF-8, section 4 of RFC 3629 -----

  predicate Between(s: string, i: nat, low: int, high: int) {
    i < |s| && low <= s[i] as int <= high
  }

  /** A code point and the number of its bytes. */
  datatype Scalar = Scalar(code: int, length: nat) | Malformed

  function DecodeFirst(s: string): Scalar
    requires s != ""
  {
    var b := s[0] as int;
    if b <= 0x7F then Scalar(b, 1)
    else if 0xC2 <= b <= 0xDF && Between(s, 1, 0x80, 0xBF) then
      Scalar((b - 0xC0) * 64 + (s[1] as int - 0x80), 2)
    else if ((b == 0xE0 && Between(s, 1, 0xA0, 0xBF)) || (0xE1 <= b <= 0xEC && Between(s, 1, 0x80, 0xBF))
             || (b == 0xED && Between(s, 1, 0x80, 0x9F)) || (0xEE <= b <= 0xEF && Between(s, 1, 0x80, 0xBF)))
            && Between(s, 2, 0x80, 0xBF) then
      Scalar((b - 0xE0) * 4096 + (s[1] as int - 0x80) * 64 + (s[2] as int - 0x80), 3)
    else if ((b == 0xF0 && Between(s, 1, 0x90, 0xBF)) || (0xF1 <= b <= 0xF3 && Between(s, 1, 0x80, 0xBF))
             || (b == 0xF4 && Between(s, 1, 0x80, 0x8F)))
            && Between(s, 2, 0x80, 0xBF) && Between(s, 3, 0x80, 0xBF) then
      Scalar((b - 0xF0) * 262144 + (s[1] as int - 0x80) * 4096 + (s[2] as int - 0x80) * 64 + (s[3] as int - 0x80), 4)
    else Malformed
  }

  /** The code points of a byte string, nothing for one that is not UTF-8. */
  datatype Decoded = Codes(codes: seq<int>) | NotUtf8

  function Decode(s: string): Decoded {
    if s == "" then Codes([])
    else
      match DecodeFirst(s)
      case Malformed => NotUtf8
      case Scalar(code, length) =>
        if length == 0 || |s| < length then NotUtf8
        else match Decode(s[length..]) case NotUtf8 => NotUtf8 case Codes(codes) => Codes([code] + codes)
  }

  predicate IsScalar(code: int) {
    0 <= code <= 0x10FFFF && !(0xD800 <= code <= 0xDFFF)
  }

  /** The bytes that the fall-through switch builds are the UTF-8 of the code point. */
  lemma Utf8Decodes(code: nat)
    requires IsScalar(code)
    ensures Decode(Utf8(code)) == Codes([code])
  {
    var s := Utf8(code);
    Utf8First(code);
    assert s[|s|..] == "";
    assert [code] + [] == [code];
  }

  lemma InSixes(code: nat)
    ensures code == code / 64 * 64 + code % 64
    ensures code == code / 4096 * 4096 + code / 64 % 64 * 64 + code % 64
    ensures code == code / 262144 * 262144 + code / 4096 % 64 * 4096 + code / 64 % 64 * 64 + code % 64
  {
    Halved(code);
    Halved(code / 64);
    assert code / 262144 == code / 4096 / 64;
  }

  lemma Halved(n: nat)
    ensures n / 4096 == n / 64 / 64 && n / 64 == n / 4096 * 64 + n / 64 % 64
  {
    var a, b := n / 64, n / 64 / 64;
    assert n == 64 * a + n % 64 && a == 64 * b + a % 64;
    assert n == 4096 * b + (64 * (a % 64) + n % 64);
  }

  lemma Utf8First(code: nat)
    requires IsScalar(code)
    ensures Utf8(code) != "" && DecodeFirst(Utf8(code)) == Scalar(code, |Utf8(code)|)
  {
    InSixes(code);
    if code < 0x80 {
    } else if code < 0x800 {
    } else if code < 0x1_0000 {
    } else {
    }
  }

  // ----- hexadecimal digits -----

  /** c is the digit d, in lower or upper case. */
  predicate IsHexOf(c: char, d: nat) {
    d < 16 && (c == "0123456789abcdef"[d] || c == "0123456789ABCDEF"[d])
  }

  /** Four digits spell a number. */
  ghost predicate Spells(h: string, n: nat) {
    |h| == 4 && exists a: nat, b: nat, c: nat, d: nat ::
      IsHexOf(h[0], a) && IsHexOf(h[1], b) && IsHexOf(h[2], c) && IsHexOf(h[3], d) && n == a * 0x1000 + b * 0x100 + c * 0x10 + d
  }

  lemma HexOf(c: char, d: nat)
    requires IsHexOf(c, d)
    ensures HexValue(c) == d
  {}

  lemma Hex4Spelled(h: string, n: nat, rest: string)
    requires Spells(h, n)
    ensures Hex4(h + rest) == n
  {
    hide HexValue, IsHexOf;
    var a: nat, b: nat, c: nat, d: nat :|
      IsHexOf(h[0], a) && IsHexOf(h[1], b) && IsHexOf(h[2], c) && IsHexOf(h[3], d) && n == a * 0x1000 + b * 0x100 + c * 0x10 + d;
    HexOf(h[0], a);
    HexOf(h[1], b);
    HexOf(h[2], c);
    HexOf(h[3], d);
  }

  // ----- escapes -----

  /** What a string literal of the given text between quotes parses to. */
  function Literal(text: string, rest: string): Parsed<string> {
    ParseString("\"" + text + "\"" + rest)
  }

  lemma LiteralIs(text: string, rest: string)
    ensures Literal(text, rest) == ParseChars(text + ("\"" + rest))
  {
    assert ("\"" + text + "\"" + rest)[1..] == text + ("\"" + rest);
  }

  lemma Ended(out: string, rest: string)
    ensures Prepend(out, ParseChars("\"" + rest)) == Ok(out, rest)
  {
    assert ("\"" + rest)[1..] == rest;
    assert out + "" == out;
  }

  /** One escape with four hexadecimal digits of either case: the parsed bytes are the UTF-8 of the
      code point that they spell. */
  lemma EscapeDecodes(h: string, code: nat, rest: string)
    requires Spells(h, code) && 1 <= code && IsScalar(code)
    ensures var r := Literal("\\u" + h, rest); r.Ok? && r.rest == rest && Decode(r.value) == Codes([code])
  {
    hide Hex4, Utf8, Decode, ParseChars, Spells;
    var tail := "\"" + rest;
    var s := "\\u" + h + tail;
    LiteralIs("\\u" + h, rest);
    SpelledLength(h, code);
    assert s[1..][1..] == h + tail && s[6..] == tail;
    Hex4Spelled(h, code, tail);
    UnescapeOne(s[1..], code);
    Chars(s, Utf8(code), 5);
    Ended(Utf8(code), rest);
    Utf8Decodes(code);
  }

  lemma SpelledLength(h: string, n: nat)
    requires Spells(h, n)
    ensures |h| == 4 && n < 0x1_0000
  {}

  lemma UnescapeOne(s: string, code: nat)
    requires 5 <= |s| && s[0] == 'u' && Hex4(s[1..]) == code && 1 <= code && IsScalar(code)
    ensures Unescape(s) == (Utf8(code), 5)
  {
    hide Hex4, Utf8;
  }

  lemma Chars(s: string, out: string, used: nat)
    requires 1 + used <= |s| && s[0] == '\\' && Unescape(s[1..]) == (out, used)
    ensures ParseChars(s) == Prepend(out, ParseChars(s[1 + used..]))
  {
    hide Unescape;
  }

  /** A surrogate pair is the one code point that section 7 of RFC 8259 gives it. */
  lemma PairDecodes(h1: string, h2: string, high: nat, low: nat, rest: string)
    requires Spells(h1, high) && Spells(h2, low) && 0xD800 <= high <= 0xDBFF && 0xDC00 <= low <= 0xDFFF
    ensures var r := Literal("\\u" + h1 + "\\u" + h2, rest);
      r.Ok? && r.rest == rest && Decode(r.value) == Codes([0x1_0000 + (high - 0xD800) * 0x400 + (low - 0xDC00)])
  {
    hide Hex4, Utf8, Decode, ParseChars, Spells;
    var tail := "\"" + rest;
    var text := "\\u" + h1 + "\\u" + h2;
    var s := text + tail;
    LiteralIs(text, rest);
    SpelledLength(h1, high);
    SpelledLength(h2, low);
    assert s[1..][1..] == h1 + ("\\u" + h2 + tail) && s[1..][7..] == h2 + tail && s[12..] == tail;
    Hex4Spelled(h1, high, "\\u" + h2 + tail);
    Hex4Spelled(h2, low, tail);
    var code := 0x1_0000 + (high - 0xD800) * 0x400 + (low - 0xDC00);
    UnescapePair(s[1..], high, low);
    Chars(s, Utf8(code), 11);
    Ended(Utf8(code), rest);
    Utf8Decodes(code);
  }

  lemma UnescapePair(s: string, high: nat, low: nat)
    requires 11 <= |s| && s[0] == 'u' && s[5] == '\\' && s[6] == 'u' && Hex4(s[1..]) == high && Hex4(s[7..]) == low
    requires 0xD800 <= high <= 0xDBFF && 0xDC00 <= low <= 0xDFFF
    ensures Unescape(s) == (Utf8(0x1_0000 + (high - 0xD800) * 0x400 + (low - 0xDC00)), 11)
  {
    hide Hex4, Utf8;
    assert high % 0x400 == high - 0xD800 && low % 0x400 == low - 0xDC00;
  }

  /** Every code point from 1 on that is no surrogate can be written, and comes back alone. */
  lemma EveryCodePoint(code: nat, h1: string, h2: string, rest: string)
    requires 1 <= code && IsScalar(code)
    requires if code < 0x1_0000 then Spells(h1, code)
             else Spells(h1, 0xD800 + (code - 0x1_0000) / 0x400) && Spells(h2, 0xDC00 + (code - 0x1_0000) % 0x400)
    ensures var r := Literal(if code < 0x1_0000 then "\\u" + h1 else "\\u" + h1 + "\\u" + h2, rest);
      r.Ok? && r.rest == rest && Decode(r.value) == Codes([code])
  {
    hide Spells, Decode, Literal;
    if code < 0x1_0000 {
      EscapeDecodes(h1, code, rest);
    } else {
      PairDecodes(h1, h2, 0xD800 + (code - 0x1_0000) / 0x400, 0xDC00 + (code - 0x1_0000) % 0x400, rest);
    }
  }

  /** A NUL, a low surrogate, and a high one that no low one follows leave nothing behind. */
  lemma DroppedEscape(h: string, code: nat, rest: string)
    requires Spells(h, code) && (code == 0 || 0xD800 <= code <= 0xDFFF)
    ensures Literal("\\u" + h, rest) == Ok("", rest)
  {
    hide Hex4, Utf8, ParseChars, Spells;
    var tail := "\"" + rest;
    var s := "\\u" + h + tail;
    LiteralIs("\\u" + h, rest);
    SpelledLength(h, code);
    assert s[1..][1..] == h + tail && s[6..] == tail && s[1..][5] == '\"';
    Hex4Spelled(h, code, tail);
    UnescapeNone(s[1..], code);
    Chars(s, "", 5);
    Ended("", rest);
  }

  lemma UnescapeNone(s: string, code: nat)
    requires 6 <= |s| && s[0] == 'u' && s[5] == '\"' && Hex4(s[1..]) == code && (code == 0 || 0xD800 <= code <= 0xDFFF)
    ensures Unescape(s) == ("", 5)
  {
    hide Hex4, Utf8;
  }

  /** The escapes of one letter, by section 7 of RFC 8259; any other character stands for itself. */
  lemma LetterEscapes(c: char, rest: string)
    requires c != 'u'
    ensures Literal(['\\', c], rest) == Ok([(match c
      case 'b' => 8 as char case 'f' => 12 as char case 'n' => 10 as char case 'r' => 13 as char case 't' => 9 as char
      case _ => c)], rest)
  {
    hide ParseChars, Hex4, Utf8;
    var tail := "\"" + rest;
    var s := ['\\', c] + tail;
    LiteralIs(['\\', c], rest);
    assert s[2..] == tail;
    var out := Unescape(s[1..]).0;
    assert Unescape(s[1..]) == (out, 1);
    Chars(s, out, 1);
    Ended(out, rest);
  }

  /** What the printer writes for a control character without a letter. */
  lemma ControlPrinted(c: char)
    requires 1 <= c as int < 32 && c as int != 8 && c as int != 9 && c as int != 10 && c as int != 12 && c as int != 13
    ensures EscapeChar(c) == "\\u00" + ["01"[c as int / 16], "0123456789abcdef"[c as int % 16]]
  {}
}
