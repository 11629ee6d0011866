/** The parser of cJSON as functions from a text to a value and the text left over. */
module JsonParse {
  import opened Json

  /** What a parse function returns: a value and where it stopped, a null pointer, or a read past
      the end of the text, which the source does not guard against in escapes. */
  datatype Parsed<T> = Ok(value: T, rest: string) | Fail | Overrun

  function Skip(s: string): (r: string)
    ensures |r| <= |s|
  {
    if s != "" && s[0] as int <= 32 then Skip(s[1..]) else s
  }

  predicate StartsWith(s: string, word: string) {
    word <= s
  }

  // ----- numbers -----

  predicate IsDigit(c: char) {
    '0' <= c <= '9'
  }

  function ReadDigits(acc: nat, s: string): (r: (nat, string))
    ensures |r.1| <= |s|
    decreases |s|
  {
    if IsDigit(Peek(s)) then ReadDigits(acc * 10 + (s[0] as int - '0' as int), s[1..]) else (acc, s)
  }

  function Pow10(e: int): real
    decreases if e < 0 then -e else e
  {
    if e == 0 then 1.0 else if e > 0 then 10.0 * Pow10(e - 1) else Pow10(e + 1) / 10.0
  }

  function Signed(minus: bool, n: int): int {
    if minus then -n else n
  }

  /** Digits before and after the point, as one number and a power of ten. */
  datatype Mantissa = Mantissa(digits: nat, scale: int, rest: string)

  function ReadMantissa(s1: string): (r: Mantissa)
    ensures |r.rest| <= |s1|
    ensures s1 != "" && IsDigit(s1[0]) ==> |r.rest| < |s1|
  {
    var s2 := if Peek(s1) == '0' then s1[1..] else s1;
    var (n, s3) := if '1' <= Peek(s2) <= '9' then ReadDigits(0, s2) else (0, s2);
    if Peek(s3) == '.' && 1 < |s3| && IsDigit(s3[1]) then
      var (m, s4) := ReadDigits(n, s3[1..]);
      Mantissa(m, |s4| - (|s3| - 1), s4)
    else Mantissa(n, 0, s3)
  }

  /** The exponent with its sign, 0 when there is none. */
  function ReadExponent(s4: string): (r: (int, string))
    ensures |r.1| <= |s4|
  {
    if Peek(s4) == 'e' || Peek(s4) == 'E' then
      var s5 := s4[1..];
      var s6 := if Peek(s5) == '+' || Peek(s5) == '-' then s5[1..] else s5;
      var (subscale, s7) := ReadDigits(0, s6);
      (Signed(Peek(s5) == '-', subscale), s7)
    else (0, s4)
  }

  /** parse_number, with exact arithmetic in place of doubles. */
  function ParseNumber(s: string): (r: (real, string))
    ensures |r.1| <= |s|
    ensures s != "" && (s[0] == '-' || IsDigit(s[0])) ==> |r.1| < |s|
  {
    var negative := Peek(s) == '-';
    var m := ReadMantissa(if negative then s[1..] else s);
    var (exponent, rest) := ReadExponent(m.rest);
    var value := m.digits as real * Pow10(m.scale + exponent);
    (if negative then -value else value, rest)
  }

  // ----- strings -----

  function HexValue(c: char): int {
    if '0' <= c <= '9' then c as int - '0' as int
    else if 'A' <= c <= 'F' then 10 + (c as int - 'A' as int)
    else if 'a' <= c <= 'f' then 10 + (c as int - 'a' as int)
    else -1
  }

  /** parse_hex4: 0 when one of the four is no hexadecimal digit. */
  function Hex4(s: string): (h: nat)
    ensures h < 0x1_0000
  {
    if |s| < 4 || HexValue(s[0]) < 0 || HexValue(s[1]) < 0 || HexValue(s[2]) < 0 || HexValue(s[3]) < 0 then 0
    else HexValue(s[0]) * 4096 + HexValue(s[1]) * 256 + HexValue(s[2]) * 16 + HexValue(s[3])
  }

  /** The bytes of a code point, as the fall-through switch builds them. */
  function Utf8(uc: nat): string
    requires uc < 0x11_0000
  {
    if uc < 0x80 then [uc as char]
    else if uc < 0x800 then [(0xC0 + uc / 64) as char, (0x80 + uc % 64) as char]
    else if uc < 0x1_0000 then [(0xE0 + uc / 4096) as char, (0x80 + uc / 64 % 64) as char, (0x80 + uc % 64) as char]
    else [(0xF0 + uc / 262144) as char, (0x80 + uc / 4096 % 64) as char, (0x80 + uc / 64 % 64) as char, (0x80 + uc % 64) as char]
  }

  /** What an escape stands for, and how much text after the backslash it takes.  s starts just
      after the backslash. */
  function Unescape(s: string): (r: (string, nat))
    ensures 1 <= r.1
  {
    var c := Peek(s);
    if c == 'b' then ([8 as char], 1)
    else if c == 'f' then ([12 as char], 1)
    else if c == 'n' then ([10 as char], 1)
    else if c == 'r' then ([13 as char], 1)
    else if c == 't' then ([9 as char], 1)
    else if c != 'u' then ([c], 1)
    else
      var uc := Hex4(s[1..]);
      if 0xDC00 <= uc <= 0xDFFF || uc == 0 then ("", 5)
      else if 0xD800 <= uc <= 0xDBFF then
        if |s| < 7 || s[5] != '\\' || s[6] != 'u' then ("", 5)
        else
          var uc2 := Hex4(s[7..]);
          if uc2 < 0xDC00 || 0xDFFF < uc2 then ("", 11)
          else (Utf8(0x1_0000 + uc % 0x400 * 0x400 + uc2 % 0x400), 11)
      else (Utf8(uc), 5)
  }

  /** The body of a string literal, up to and including the closing quote or the end of text. */
  function ParseChars(s: string): (r: Parsed<string>)
    ensures r.Ok? ==> |r.rest| <= |s|
  {
    if s == "" then Ok("", "")
    else if s[0] == '\"' then Ok("", s[1..])
    else if s[0] != '\\' then Prepend([s[0]], ParseChars(s[1..]))
    else
      var (out, used) := Unescape(s[1..]);
      if |s| < 1 + used then Overrun else Prepend(out, ParseChars(s[1 + used..]))
  }

  /** What the first loop of parse_string counts: a character, or a backslash and what follows it. */
  function CountedLength(s: string): nat {
    if s == "" || s[0] == '\"' then 0
    else if s[0] != '\\' then 1 + CountedLength(s[1..])
    else if |s| == 1 then 1
    else 1 + CountedLength(s[2..])
  }

  predicate IsHex(s: string) {
    4 <= |s| && forall i :: 0 <= i < 4 ==> 0 <= HexValue(s[i])
  }

  /** Every backslash of the literal has its character, and every \u its four hexadecimal digits. */
  predicate EscapesComplete(s: string) {
    if s == "" || s[0] == '\"' then true
    else if s[0] != '\\' then EscapesComplete(s[1..])
    else if |s| == 1 then false
    else if s[1] != 'u' then EscapesComplete(s[2..])
    else IsHex(s[2..]) && EscapesComplete(s[6..])
  }

  function Prepend(out: string, r: Parsed<string>): (q: Parsed<string>)
    ensures q.Ok? <==> r.Ok?
    ensures r.Ok? ==> q.rest == r.rest && q.value == out + r.value
  {
    match r case Ok(value, rest) => Ok(out + value, rest) case Fail => Fail case Overrun => Overrun
  }

  function ParseString(s: string): (r: Parsed<string>)
    ensures r.Ok? ==> |r.rest| < |s|
  {
    if Peek(s) != '\"' then Fail else ParseChars(s[1..])
  }

  // ----- values -----

  function ParseValue(s: string): (r: Parsed<Json>)
    ensures r.Ok? ==> |r.rest| < |s|
    decreases |s|, 0
  {
    if StartsWith(s, "null") then Ok(Null, s[4..])
    else if StartsWith(s, "false") then Ok(False, s[5..])
    else if StartsWith(s, "true") then Ok(True, s[4..])
    else if Peek(s) == '\"' then
      match ParseString(s) case Ok(text, rest) => Ok(String(text), rest) case Fail => Fail case Overrun => Overrun
    else if Peek(s) == '-' || IsDigit(Peek(s)) then
      var (value, rest) := ParseNumber(s);
      Ok(Number(value), rest)
    else if Peek(s) == '[' then
      var s1 := Skip(s[1..]);
      if Peek(s1) == ']' then Ok(Array([]), s1[1..])
      else match ParseItems(s1) case Ok(items, rest) => Ok(Array(items), rest) case Fail => Fail case Overrun => Overrun
    else if Peek(s) == '{' then
      var s1 := Skip(s[1..]);
      if Peek(s1) == '}' then Ok(Object([]), s1[1..])
      else match ParseMembers(s1) case Ok(members, rest) => Ok(Object(members), rest) case Fail => Fail case Overrun => Overrun
    else Fail
  }

  /** The items of an array, up to and including the closing bracket. */
  function ParseItems(s: string): (r: Parsed<seq<Json>>)
    ensures r.Ok? ==> |r.rest| < |s|
    decreases |s|, 1
  {
    match ParseValue(Skip(s))
    case Fail => Fail
    case Overrun => Overrun
    case Ok(item, rest) =>
      var s1 := Skip(rest);
      if Peek(s1) == ',' then
        match ParseItems(s1[1..]) case Ok(items, end) => Ok([item] + items, end) case Fail => Fail case Overrun => Overrun
      else if Peek(s1) == ']' then Ok([item], s1[1..])
      else Fail
  }

  /** One name and value of an object. */
  function ParseMember(s: string): (r: Parsed<Member>)
    ensures r.Ok? ==> |r.rest| < |s|
    decreases |s|, 1
  {
    match ParseString(Skip(s))
    case Fail => Fail
    case Overrun => Overrun
    case Ok(name, rest) =>
      var s1 := Skip(rest);
      if Peek(s1) != ':' then Fail
      else match ParseValue(Skip(s1[1..])) case Ok(value, end) => Ok(Member(name, value), end) case Fail => Fail case Overrun => Overrun
  }

  /** The members of an object, up to and including the closing brace. */
  function ParseMembers(s: string): (r: Parsed<seq<Member>>)
    ensures r.Ok? ==> |r.rest| < |s|
    decreases |s|, 2
  {
    match ParseMember(s)
    case Fail => Fail
    case Overrun => Overrun
    case Ok(member, rest) =>
      var s1 := Skip(rest);
      if Peek(s1) == ',' then
        match ParseMembers(s1[1..]) case Ok(members, end) => Ok([member] + members, end) case Fail => Fail case Overrun => Overrun
      else if Peek(s1) == '}' then Ok([member], s1[1..])
      else Fail
  }
}
