/** What minifying does to any text: no whitespace is left, and the value stays. */
module JsonMinified {
  // For texts that the parser accepts as a whole, whoever wrote them.
  import opened Json
  import opened JsonParse
  import opened JsonRoundTrip
  import opened JsonMinify
  import opened JsonNumber

  // ----- no whitespace is left -----

  /** Outside string literals there is no space, tab, carriage return or newline. */
  predicate Compact(s: string)
    decreases |s|
  {
    if s == "" then true
    else if s[0] == '\"' then Compact(s[1 + LiteralLength(s[1..])..])
    else s[0] != ' ' && s[0] as int != 9 && s[0] as int != 13 && s[0] as int != 10 && Compact(s[1..])
  }

  /** A literal ends where it did, whatever follows. */
  lemma {:induction false} LiteralKeeps(b: string, x: string)
    requires LiteralCloses(b) || x == ""
    ensures LiteralCloses(b) || LiteralLength(b) == |b|
    ensures LiteralLength(b[..LiteralLength(b)] + x) == LiteralLength(b)
    decreases |b|
  {
    var n := LiteralLength(b);
    var y := b[..n] + x;
    if b == "" {
      assert y == "";
    } else if b[0] == '\"' {
      assert y[0] == '\"';
    } else if b[0] == '\\' {
      if |b| == 1 {
        assert y == b;
      } else {
        LiteralKeeps(b[2..], x);
        assert y[2..] == b[2..][..n - 2] + x;
      }
    } else {
      LiteralKeeps(b[1..], x);
      assert y[1..] == b[1..][..n - 1] + x;
    }
  }

  lemma {:induction false} MinifiedCompact(s: string)
    ensures Compact(Minified(s))
    decreases |s|
  {
    hide LiteralLength, LiteralCloses;
    if s == "" {
    } else if IsSpace(s[0]) {
      MinifiedCompact(s[1..]);
    } else if s[0] == '/' && Peek(s[1..]) == '/' {
      MinifiedCompact(AfterLine(s[1..]));
    } else if s[0] == '/' && Peek(s[1..]) == '*' {
      MinifiedCompact(AfterComment(s[1..]));
    } else if s[0] == '\"' {
      var n := LiteralLength(s[1..]);
      var more := Minified(s[1 + n..]);
      MinifiedCompact(s[1 + n..]);
      LiteralWhole(s[1..]);
      if !LiteralCloses(s[1..]) {
        assert s[1 + n..] == "";
      }
      LiteralKeeps(s[1..], more);
      assert (s[..1 + n] + more)[1..] == s[1..][..n] + more;
      assert (s[..1 + n] + more)[1 + n..] == more;
    } else {
      MinifiedCompact(s[1..]);
      assert ([s[0]] + Minified(s[1..]))[1..] == Minified(s[1..]);
    }
  }

  lemma LiteralWhole(b: string)
    ensures LiteralCloses(b) || LiteralLength(b) == |b|
  {
    LiteralKeeps(b, "");
  }

  // ----- texts without comments -----

  /** No slash outside literals, every literal closed, every escape complete. */
  predicate PlainText(s: string)
    decreases |s|
  {
    if s == "" then true
    else if s[0] == '\"' then
      LiteralCloses(s[1..]) && EscapesComplete(s[1..]) && PlainText(s[1 + LiteralLength(s[1..])..])
    else s[0] != '/' && PlainText(s[1..])
  }

  lemma MinifiedOne(s: string)
    requires s != "" && PlainText(s) && s[0] != '\"'
    ensures PlainText(s[1..])
    ensures Minified(s) == if IsSpace(s[0]) then Minified(s[1..]) else [s[0]] + Minified(s[1..])
  {
    hide LiteralLength, LiteralCloses, EscapesComplete;
  }

  lemma MinifiedLiteral(s: string)
    requires s != "" && PlainText(s) && s[0] == '\"'
    ensures var n := LiteralLength(s[1..]);
      && LiteralCloses(s[1..]) && EscapesComplete(s[1..]) && PlainText(s[1 + n..])
      && Minified(s) == s[..1 + n] + Minified(s[1 + n..])
  {
    hide LiteralLength, LiteralCloses, EscapesComplete;
  }

  /** A visible first character stays. */
  lemma FirstKept(s: string)
    requires s != "" && PlainText(s) && 32 < s[0] as int
    ensures Minified(s) != "" && Minified(s)[0] == s[0]
    ensures s[0] != '\"' ==> PlainText(s[1..]) && Minified(s)[1..] == Minified(s[1..])
  {
    hide Minified, PlainText;
    if s[0] == '\"' {
      MinifiedLiteral(s);
    } else {
      MinifiedOne(s);
    }
  }

  /** Skipping and minifying can be exchanged. */
  lemma {:induction false} SkipMinified(s: string)
    requires PlainText(s)
    ensures PlainText(Skip(s)) && Skip(Minified(s)) == Minified(Skip(s))
    ensures Skip(s) != "" ==> 32 < Skip(s)[0] as int
    decreases |s|
  {
    hide Minified, PlainText;
    if s == "" {
      MinifiedNothing();
    } else if s[0] as int <= 32 {
      MinifiedOne(s);
      SkipMinified(s[1..]);
      if !IsSpace(s[0]) {
        assert ([s[0]] + Minified(s[1..]))[1..] == Minified(s[1..]);
      }
    } else {
      FirstKept(s);
    }
  }

  lemma MinifiedNothing()
    ensures Minified("") == "" && PlainText("")
  {}

  // ----- literals -----

  /** An escape is the same in any text that agrees on the characters it looks at. */
  lemma UnescapeSame(s: string, y: string)
    requires s != "" && y != "" && s[0] == y[0]
    requires s[0] == 'u' ==> 6 <= |s| && 6 <= |y| && s[1..6] == y[1..6]
    requires s[0] == 'u' && s[5] == '\\' ==> 7 <= |s| && 7 <= |y| && s[6] == y[6]
    requires s[0] == 'u' && s[5] == '\\' && s[6] == 'u' ==> 11 <= |s| && 11 <= |y| && s[7..11] == y[7..11]
    ensures Unescape(s) == Unescape(y)
  {
    hide Utf8;
    if s[0] == 'u' {
      assert s[1..][..4] == s[1..6][..4] && y[1..][..4] == y[1..6][..4];
      assert s[1..6][4] == s[5] && y[1..6][4] == y[5];
      FourSame(s[1..], y[1..]);
      if s[5] == '\\' && s[6] == 'u' {
        assert s[7..][..4] == s[7..11] && y[7..][..4] == y[7..11];
        FourSame(s[7..], y[7..]);
      }
    }
  }

  lemma FourSame(s: string, y: string)
    requires 4 <= |s| && 4 <= |y| && s[..4] == y[..4]
    ensures Hex4(s) == Hex4(y)
  {
    assert s[0] == s[..4][0] && s[1] == s[..4][1] && s[2] == s[..4][2] && s[3] == s[..4][3];
    assert y[0] == y[..4][0] && y[1] == y[..4][1] && y[2] == y[..4][2] && y[3] == y[..4][3];
  }

  /** Four hexadecimal digits behind \\u are plain characters for the minifier. */
  lemma HexSkipped(b: string)
    requires 2 <= |b| && b[0] == '\\' && b[1] == 'u' && EscapesComplete(b) && LiteralCloses(b)
    ensures 6 <= |b| && EscapesComplete(b[6..]) && LiteralCloses(b[6..])
    ensures LiteralLength(b) == 6 + LiteralLength(b[6..]) && 1 <= LiteralLength(b[6..])
  {
    assert b[2..] == b[2..6] + b[6..];
    forall i | 0 <= i < 4 ensures b[2..6][i] != '\"' && b[2..6][i] != '\\' {
      assert 0 <= HexValue(b[2..][i]);
      assert b[2..6][i] == b[2..][i];
    }
    LiteralSkipsPlain(b[2..6], b[6..]);
  }

  /** The literal of the parser is that of the minifier, whatever follows it. */
  lemma {:induction false} LiteralAgrees(b: string, x: string)
    requires LiteralCloses(b) && EscapesComplete(b)
    ensures var n, r := LiteralLength(b), ParseChars(b);
      r.Ok? && r.rest == b[n..] && ParseChars(b[..n] + x) == Ok(r.value, x)
    decreases |b|
  {
    hide Unescape, Hex4, IsHex, EscapesComplete, LiteralLength, LiteralCloses, ParseChars, Prepend;
    var n := LiteralLength(b);
    var y := b[..n] + x;
    LiteralUnfold(b);
    CharsUnfold(b);
    CharsUnfold(y);
    if b[0] == '\"' {
      assert y[1..] == x;
    } else if b[0] != '\\' {
      LiteralAgrees(b[1..], x);
      assert y[1..] == b[1..][..n - 1] + x;
      assert b[1..][n - 1..] == b[n..];
      PrependOk([b[0]], ParseChars(b[1..]), x);
    } else if b[1] != 'u' {
      LiteralAgrees(b[2..], x);
      assert y[2..] == b[2..][..n - 2] + x;
      assert b[2..][n - 2..] == b[n..];
      ShortEscape(b[1..], y[1..]);
      assert y[1..][1..] == y[2..] && b[1..][1..] == b[2..];
      PrependOk(Unescape(b[1..]).0, ParseChars(b[2..]), x);
    } else {
      LiteralAgreesUnicode(b, x);
    }
  }

  lemma CharsUnfold(s: string)
    requires s != ""
    ensures s[0] == '\"' ==> ParseChars(s) == Ok("", s[1..])
    ensures s[0] != '\"' && s[0] != '\\' ==> ParseChars(s) == Prepend([s[0]], ParseChars(s[1..]))
    ensures s[0] == '\\' && 1 + Unescape(s[1..]).1 <= |s| ==>
      ParseChars(s) == Prepend(Unescape(s[1..]).0, ParseChars(s[1 + Unescape(s[1..]).1..]))
  {
    hide Unescape;
  }

  lemma PrependOk(out: string, r: Parsed<string>, x: string)
    requires r.Ok?
    ensures Prepend(out, r) == Ok(out + r.value, r.rest) && Prepend(out, Ok(r.value, x)) == Ok(out + r.value, x)
  {}

  lemma LiteralUnfold(b: string)
    requires LiteralCloses(b) && EscapesComplete(b)
    ensures b != "" && 1 <= LiteralLength(b) <= |b|
    ensures b[0] == '\"' ==> LiteralLength(b) == 1
    ensures b[0] != '\"' && b[0] != '\\' ==> LiteralCloses(b[1..]) && EscapesComplete(b[1..]) && LiteralLength(b) == 1 + LiteralLength(b[1..])
    ensures b[0] == '\\' ==> 2 <= |b| && LiteralLength(b) == 2 + LiteralLength(b[2..]) && LiteralCloses(b[2..])
    ensures b[0] == '\\' && b[1] != 'u' ==> EscapesComplete(b[2..])
    ensures b[0] == '\\' ==> 3 <= LiteralLength(b)
  {
    hide IsHex;
    if b[0] == '\\' {
      LiteralNotEmpty(b[2..]);
    }
  }

  lemma LiteralNotEmpty(b: string)
    requires LiteralCloses(b)
    ensures 1 <= LiteralLength(b)
  {}

  lemma ShortEscape(s: string, y: string)
    requires s != "" && y != "" && s[0] == y[0] && s[0] != 'u'
    ensures Unescape(s) == Unescape(y) && Unescape(s).1 == 1
  {
    hide Hex4, Utf8;
  }

  lemma {:induction false} LiteralAgreesUnicode(b: string, x: string)
    requires LiteralCloses(b) && EscapesComplete(b) && 2 <= |b| && b[0] == '\\' && b[1] == 'u'
    ensures var n, r := LiteralLength(b), ParseChars(b);
      r.Ok? && r.rest == b[n..] && ParseChars(b[..n] + x) == Ok(r.value, x)
    decreases |b|, 0
  {
    hide Unescape, Hex4, IsHex, EscapesComplete, LiteralLength, LiteralCloses, ParseChars, Prepend;
    var n := LiteralLength(b);
    var y := b[..n] + x;
    HexSkipped(b);
    CharsUnfold(b);
    CharsUnfold(y);
    var s, t := b[1..], y[1..];
    assert s[1..6] == b[2..7] && t[1..6] == b[2..7];
    UnicodeUsed(s);
    if b[6] == '\\' {
      LiteralUnfold(b[6..]);
      assert b[7] == b[6..][1] && y[7] == b[7];
      if b[7] == 'u' {
        HexSkipped(b[6..]);
        assert b[6..][6..] == b[12..];
        assert LiteralLength(b[6..]) == 6 + LiteralLength(b[12..]) && 13 <= n;
        assert s[7..11] == b[8..12];
        assert y[8..12] == b[8..12];
        assert t[7..11] == y[8..12];
      }
    }
    UnescapeSame(s, t);
    var used := Unescape(s).1;
    if used == 5 {
      LiteralAgrees(b[6..], x);
      assert y[6..] == b[6..][..n - 6] + x;
      assert b[6..][n - 6..] == b[n..];
      PrependOk(Unescape(s).0, ParseChars(b[6..]), x);
    } else {
      LiteralAgrees(b[12..], x);
      assert y[12..] == b[12..][..n - 12] + x;
      assert b[12..][n - 12..] == b[n..];
      PrependOk(Unescape(s).0, ParseChars(b[12..]), x);
    }
  }

  lemma UnicodeUsed(s: string)
    requires 6 <= |s| && s[0] == 'u'
    ensures Unescape(s).1 == 5 || (Unescape(s).1 == 11 && 7 <= |s| && s[5] == '\\' && s[6] == 'u')
  {
    hide Hex4, Utf8;
  }

  // ----- numbers -----

  /** What cannot go on a number. */
  predicate Stops(x: string) {
    var c := Peek(x);
    !IsDigit(c) && c != '.' && c != 'e' && c != 'E' && c != '+' && c != '-'
  }

  lemma {:induction false} DigitsLocal(acc: nat, s: string, x: string)
    requires !IsDigit(Peek(x))
    ensures var (n, r) := ReadDigits(acc, s);
      s[|s| - |r|..] == r && ReadDigits(acc, s[..|s| - |r|] + x) == (n, x) && !IsDigit(Peek(r))
    ensures IsDigit(Peek(s)) ==> |ReadDigits(acc, s).1| < |s|
    decreases |s|
  {
    if IsDigit(Peek(s)) {
      var more := acc * 10 + (s[0] as int - '0' as int);
      DigitsLocal(more, s[1..], x);
      var r := ReadDigits(more, s[1..]).1;
      var a := s[..|s| - |r|];
      assert (a + x)[1..] == s[1..][..|s[1..]| - |r|] + x;
      assert (a + x)[0] == s[0];
    } else {
      assert s[..0] + x == x;
    }
  }

  lemma ExponentLocal(s: string, x: string)
    requires Stops(x) && Stops(ReadExponent(s).1)
    ensures var (n, r) := ReadExponent(s);
      s[|s| - |r|..] == r && ReadExponent(s[..|s| - |r|] + x) == (n, x)
  {
    hide ReadDigits;
    var r := ReadExponent(s).1;
    var a := s[..|s| - |r|];
    if Peek(s) == 'e' || Peek(s) == 'E' {
      var s5 := s[1..];
      var s6 := if Peek(s5) == '+' || Peek(s5) == '-' then s5[1..] else s5;
      DigitsLocal(0, s6, x);
      var t := s6[..|s6| - |r|] + x;
      assert (a + x)[0] == s[0];
      if Peek(s5) == '+' || Peek(s5) == '-' {
        assert (a + x)[1..][0] == s5[0];
        assert (a + x)[1..][1..] == t;
      } else {
        assert (a + x)[1..] == t;
        SameStart(s6, |s6| - |r|, x);
      }
    } else {
      assert a + x == x;
    }
  }

  /** The first character of a piece in front of x. */
  lemma SameStart(s: string, n: nat, x: string)
    requires n <= |s|
    ensures n == 0 ==> s[..n] + x == x
    ensures 0 < n ==> Peek(s[..n] + x) == Peek(s)
  {}

  /** The digits in front of a point, and what follows them. */
  function WholePart(s: string): (r: (nat, string))
    ensures |r.1| <= |s|
  {
    var s2 := if Peek(s) == '0' then s[1..] else s;
    if '1' <= Peek(s2) <= '9' then ReadDigits(0, s2) else (0, s2)
  }

  lemma WholeLocal(s: string, y: string)
    requires !IsDigit(Peek(y)) && !IsDigit(Peek(WholePart(s).1))
    ensures var (n, s3) := WholePart(s); s[|s| - |s3|..] == s3 && WholePart(s[..|s| - |s3|] + y) == (n, y)
  {
    hide ReadDigits;
    var s2 := if Peek(s) == '0' then s[1..] else s;
    var s3 := WholePart(s).1;
    DigitsLocal(0, s2, y);
    var k := |s2| - |s3|;
    SameStart(s2, k, y);
    if Peek(s) == '0' {
      assert (s[..|s| - |s3|] + y)[1..] == s2[..k] + y;
    }
  }

  lemma MantissaPlainIs(s: string)
    requires var s3 := WholePart(s).1; !(Peek(s3) == '.' && 1 < |s3| && IsDigit(s3[1]))
    ensures ReadMantissa(s) == Mantissa(WholePart(s).0, 0, WholePart(s).1)
  {
    hide ReadDigits;
  }

  lemma MantissaPointIs(s: string)
    requires var s3 := WholePart(s).1; Peek(s3) == '.' && 1 < |s3| && IsDigit(s3[1])
    ensures var (n, s3) := WholePart(s); var (m, s4) := ReadDigits(n, s3[1..]);
      ReadMantissa(s) == Mantissa(m, |s4| - (|s3| - 1), s4)
  {
    hide ReadDigits;
  }

  lemma MantissaLocal(s: string, x: string)
    requires !IsDigit(Peek(x)) && Peek(x) != '.' && !IsDigit(Peek(ReadMantissa(s).rest)) && Peek(ReadMantissa(s).rest) != '.'
    ensures var m := ReadMantissa(s);
      s[|s| - |m.rest|..] == m.rest && ReadMantissa(s[..|s| - |m.rest|] + x) == m.(rest := x)
  {
    hide ReadDigits, WholePart, ReadMantissa;
    var (n, s3) := WholePart(s);
    if Peek(s3) == '.' && 1 < |s3| && IsDigit(s3[1]) {
      MantissaPointIs(s);
      var r := ReadDigits(n, s3[1..]).1;
      DigitsLocal(n, s3[1..], x);
      var y := s3[..|s3| - |r|] + x;
      assert y[0] == '.' && y[1..] == s3[1..][..|s3[1..]| - |r|] + x;
      assert y[1] == s3[1];
      WholeLocal(s, y);
      assert s3[|s3| - |r|..] == r;
      PieceOf(s, s3, r, x);
      MantissaPointIs(s[..|s| - |r|] + x);
    } else {
      MantissaPlainIs(s);
      WholeLocal(s, x);
      MantissaPlainIs(s[..|s| - |s3|] + x);
    }
  }

  /** Mantissa and exponent on their own piece of the text. */
  lemma BodyLocal(s: string, x: string)
    requires Stops(x) && Stops(ReadExponent(ReadMantissa(s).rest).1)
    ensures var m := ReadMantissa(s); var (exponent, r) := ReadExponent(m.rest);
      && |r| <= |s| && s[|s| - |r|..] == r
      && var n := ReadMantissa(s[..|s| - |r|] + x);
      n.digits == m.digits && n.scale == m.scale && ReadExponent(n.rest).0 == exponent && ReadExponent(n.rest).1 == x
  {
    hide ReadMantissa, ReadExponent;
    var m := ReadMantissa(s);
    var r := ReadExponent(m.rest).1;
    RestOfMantissa(m.rest);
    ExponentLocal(m.rest, x);
    var k := |m.rest| - |r|;
    SameStart(m.rest, k, x);
    MantissaLocal(s, m.rest[..k] + x);
    PieceOf(s, m.rest, r, x);
  }

  function ValueOf(minus: bool, digits: nat, scale: int, exponent: int): real {
    var value := (digits as real) * Pow10(scale + exponent);
    if minus then -value else value
  }

  lemma NumberIs(s: string, minus: bool, s1: string)
    requires minus == (Peek(s) == '-') && s1 == if minus then s[1..] else s
    ensures var m := ReadMantissa(s1); var (exponent, r) := ReadExponent(m.rest);
      ParseNumber(s).0 == ValueOf(minus, m.digits, m.scale, exponent) && ParseNumber(s).1 == r
  {
    hide ReadMantissa, ReadExponent, Pow10;
  }

  /** parse_number on its own piece of the text. */
  lemma NumberLocal(s: string, x: string)
    requires Stops(x) && Stops(ParseNumber(s).1)
    ensures var r := ParseNumber(s).1;
      && s[|s| - |r|..] == r
      && ParseNumber(s[..|s| - |r|] + x).0 == ParseNumber(s).0 && ParseNumber(s[..|s| - |r|] + x).1 == x
  {
    hide ReadMantissa, ReadExponent, ParseNumber, Stops, ValueOf;
    var minus := Peek(s) == '-';
    var s1 := if minus then s[1..] else s;
    NumberIs(s, minus, s1);
    var r := ParseNumber(s).1;
    BodyLocal(s1, x);
    var a, a1 := s[..|s| - |r|] + x, s1[..|s1| - |r|] + x;
    Signless(s, r, x);
    NumberIs(a, minus, a1);
  }

  lemma Signless(s: string, r: string, x: string)
    requires Stops(x)
    requires var s1 := if Peek(s) == '-' then s[1..] else s; |r| <= |s1| && s1[|s1| - |r|..] == r
    ensures var minus := Peek(s) == '-';
      var s1 := if minus then s[1..] else s;
      var a := s[..|s| - |r|] + x;
      && s[|s| - |r|..] == r && (Peek(a) == '-') == minus && (if minus then a[1..] else a) == s1[..|s1| - |r|] + x
  {
    if Peek(s) == '-' {
      assert (s[..|s| - |r|] + x)[1..] == s[1..][..|s[1..]| - |r|] + x;
    } else {
      NoMinus(s, |s| - |r|, x);
    }
  }

  lemma PieceOf(s: string, middle: string, r: string, x: string)
    requires |r| <= |middle| <= |s| && s[|s| - |middle|..] == middle && middle[|middle| - |r|..] == r
    ensures s[..|s| - |middle|] + (middle[..|middle| - |r|] + x) == s[..|s| - |r|] + x
    ensures s[|s| - |r|..] == r
  {
    assert s == s[..|s| - |middle|] + middle;
    assert s[..|s| - |r|] == s[..|s| - |middle|] + middle[..|middle| - |r|];
  }

  lemma RestOfMantissa(rest: string)
    requires Stops(ReadExponent(rest).1)
    ensures !IsDigit(Peek(rest)) && Peek(rest) != '.'
  {}

  lemma NoMinus(s: string, n: nat, x: string)
    requires n <= |s| && Stops(x) && Peek(s) != '-'
    ensures Peek(s[..n] + x) != '-'
  {
    SameStart(s, n, x);
  }

  // ----- values -----

  /** What follows a value in a text that the parser accepts: nothing, or a separator. */
  predicate Ends(r: string) {
    var t := Skip(r);
    t == "" || t[0] == ',' || t[0] == ']' || t[0] == '}'
  }

  lemma EndsStop(r: string)
    requires Ends(r)
    ensures Stops(r)
  {}

  /** After minifying, too. */
  lemma EndsMinified(r: string)
    requires Ends(r) && PlainText(r)
    ensures Ends(Minified(r))
  {
    hide Minified, PlainText;
    SkipMinified(r);
    if Skip(r) == "" {
      MinifiedNothing();
    } else {
      FirstKept(Skip(r));
    }
  }

  /** A word of visible characters stays as it is. */
  lemma {:induction false} WordKept(w: string, r: string)
    requires (forall i :: 0 <= i < |w| ==> 32 < w[i] as int && w[i] != '\"' && w[i] != '/') && PlainText(w + r)
    ensures PlainText(r) && Minified(w + r) == w + Minified(r)
  {
    hide Minified, PlainText;
    if w == "" {
      assert w + r == r && w + Minified(r) == Minified(r);
    } else {
      assert (w + r)[1..] == w[1..] + r && (w + r)[0] == w[0];
      MinifiedOne(w + r);
      WordKept(w[1..], r);
      assert [w[0]] + (w[1..] + Minified(r)) == w + Minified(r);
    }
  }

  /** Every character of a number is visible and no quote or slash. */
  lemma {:induction false} DigitsVisible(acc: nat, s: string)
    ensures var r := ReadDigits(acc, s).1; forall i :: 0 <= i < |s| - |r| ==> IsDigit(s[i])
    ensures var r := ReadDigits(acc, s).1; s[|s| - |r|..] == r
    decreases |s|
  {
    if IsDigit(Peek(s)) {
      DigitsVisible(acc * 10 + (s[0] as int - '0' as int), s[1..]);
    }
  }

  predicate NumberChar(c: char) {
    IsDigit(c) || c == '-' || c == '+' || c == '.' || c == 'e' || c == 'E'
  }

  lemma WholeVisible(s: string)
    ensures var r := WholePart(s).1; forall i :: 0 <= i < |s| - |r| ==> NumberChar(s[i])
    ensures var r := WholePart(s).1; s[|s| - |r|..] == r
  {
    hide ReadDigits;
    var s2 := if Peek(s) == '0' then s[1..] else s;
    DigitsVisible(0, s2);
    forall i | 0 <= i < |s| - |WholePart(s).1| ensures NumberChar(s[i]) {
      if Peek(s) == '0' && 0 < i {
        assert s[i] == s2[i - 1];
      }
    }
  }

  lemma MantissaVisible(s: string)
    ensures var r := ReadMantissa(s).rest; forall i :: 0 <= i < |s| - |r| ==> NumberChar(s[i])
    ensures var r := ReadMantissa(s).rest; s[|s| - |r|..] == r
  {
    hide ReadDigits, WholePart, ReadMantissa;
    var (n, s3) := WholePart(s);
    WholeVisible(s);
    if Peek(s3) == '.' && 1 < |s3| && IsDigit(s3[1]) {
      MantissaPointIs(s);
      var r := ReadDigits(n, s3[1..]).1;
      DigitsVisible(n, s3[1..]);
      assert s == s[..|s| - |s3|] + s3;
      forall i | 0 <= i < |s| - |r| ensures NumberChar(s[i]) {
        if |s| - |s3| < i {
          assert s[i] == s3[1..][i - (|s| - |s3|) - 1];
        }
      }
    } else {
      MantissaPlainIs(s);
    }
  }

  lemma ExponentVisible(s: string)
    ensures var r := ReadExponent(s).1; forall i :: 0 <= i < |s| - |r| ==> NumberChar(s[i])
    ensures var r := ReadExponent(s).1; s[|s| - |r|..] == r
  {
    hide ReadDigits;
    if Peek(s) == 'e' || Peek(s) == 'E' {
      var s5 := s[1..];
      var s6 := if Peek(s5) == '+' || Peek(s5) == '-' then s5[1..] else s5;
      DigitsVisible(0, s6);
      var k := |s| - |s6|;
      forall i | 0 <= i < |s| - |ReadExponent(s).1| ensures NumberChar(s[i]) {
        if k <= i {
          assert s[i] == s6[i - k];
        }
      }
    }
  }

  lemma NumberVisible(s: string)
    ensures var r := ParseNumber(s).1; forall i :: 0 <= i < |s| - |r| ==> NumberChar(s[i])
    ensures var r := ParseNumber(s).1; s[|s| - |r|..] == r
  {
    hide ReadMantissa, ReadExponent, Pow10;
    var s1 := if Peek(s) == '-' then s[1..] else s;
    var m := ReadMantissa(s1);
    MantissaVisible(s1);
    ExponentVisible(m.rest);
    var k := |s| - |s1|;
    forall i | 0 <= i < |s| - |ParseNumber(s).1| ensures NumberChar(s[i]) {
      if k <= i < |s| - |m.rest| {
        assert s[i] == s1[i - k];
      } else if |s| - |m.rest| <= i {
        assert s1[i - k] == m.rest[i - (|s| - |m.rest|)];
      }
    }
  }

  /** A number, minified with what follows it. */
  lemma NumberKept(s: string)
    requires PlainText(s) && Ends(ParseNumber(s).1)
    ensures var r := ParseNumber(s).1; PlainText(r) && Minified(s) == s[..|s| - |r|] + Minified(r)
    ensures ParseNumber(Minified(s)).0 == ParseNumber(s).0 && ParseNumber(Minified(s)).1 == Minified(ParseNumber(s).1)
  {
    hide ParseNumber, Minified, PlainText;
    var r := ParseNumber(s).1;
    NumberVisible(s);
    assert s == s[..|s| - |r|] + r;
    WordKept(s[..|s| - |r|], r);
    EndsMinified(r);
    EndsStop(Minified(r));
    EndsStop(r);
    NumberLocal(s, Minified(r));
  }

  /** A literal, minified with what follows it. */
  lemma StringKept(s: string)
    requires PlainText(s) && ParseString(s).Ok?
    ensures var r := ParseString(s); PlainText(r.rest) && ParseString(Minified(s)) == Ok(r.value, Minified(r.rest))
    ensures Minified(s) != "" && Minified(s)[0] == s[0] == '\"'
  {
    hide ParseChars, Minified, PlainText, LiteralLength, LiteralCloses, EscapesComplete;
    MinifiedLiteral(s);
    var n := LiteralLength(s[1..]);
    var x := Minified(s[1 + n..]);
    LiteralAgrees(s[1..], x);
    assert s[1..][n..] == s[1 + n..];
    assert Minified(s)[1..] == s[1..][..n] + x;
  }

  /** The value of a text is that of the minified text. */
  lemma {:induction false} ValueKept(s: string)
    requires PlainText(s) && ParseValue(s).Ok? && Ends(ParseValue(s).rest)
    ensures var r := ParseValue(s); PlainText(r.rest) && ParseValue(Minified(s)) == Ok(r.value, Minified(r.rest))
    decreases |s|, 0
  {
    hide Minified, PlainText, ParseNumber, ParseString, ParseItems, ParseMembers, Skip, Ends;
    FirstOfValue(s);
    FirstKept(s);
    var m := Minified(s);
    if StartsWith(s, "null") || StartsWith(s, "false") || StartsWith(s, "true") {
      WordValueKept(s);
    } else if s[0] == '\"' {
      StringKept(s);
      NotWord(m);
    } else if s[0] == '-' || IsDigit(s[0]) {
      NumberKept(s);
      NotWord(m);
    } else if s[0] == '[' {
      var s1 := Skip(s[1..]);
      SkipMinified(s[1..]);
      NotWord(m);
      if Peek(s1) == ']' {
        FirstKept(s1);
      } else {
        ItemsKept(s1);
        PeekKept(s1, ']');
      }
    } else {
      var s1 := Skip(s[1..]);
      SkipMinified(s[1..]);
      NotWord(m);
      if Peek(s1) == '}' {
        FirstKept(s1);
      } else {
        MembersKept(s1);
        PeekKept(s1, '}');
      }
    }
  }

  lemma FirstOfValue(s: string)
    requires ParseValue(s).Ok?
    ensures s != "" && 32 < s[0] as int
    ensures StartsWith(s, "null") || StartsWith(s, "false") || StartsWith(s, "true") || s[0] == '\"' || s[0] == '-' || IsDigit(s[0])
      || s[0] == '[' || s[0] == '{'
  {
    hide ParseNumber, ParseString, ParseItems, ParseMembers, Skip;
  }

  lemma NotWord(s: string)
    requires s != "" && s[0] != 'n' && s[0] != 'f' && s[0] != 't'
    ensures !StartsWith(s, "null") && !StartsWith(s, "false") && !StartsWith(s, "true")
  {}

  /** The first character that is no bracket stays no bracket. */
  lemma PeekKept(s: string, c: char)
    requires PlainText(s) && Peek(s) != c && c != '\0' && (s != "" ==> 32 < s[0] as int)
    ensures Peek(Minified(s)) != c
  {
    hide Minified, PlainText;
    if s == "" {
      MinifiedNothing();
    } else {
      FirstKept(s);
    }
  }

  lemma WordValueKept(s: string)
    requires PlainText(s) && (StartsWith(s, "null") || StartsWith(s, "false") || StartsWith(s, "true"))
    ensures ParseValue(s).Ok?
    ensures var r := ParseValue(s); PlainText(r.rest) && ParseValue(Minified(s)) == Ok(r.value, Minified(r.rest))
  {
    hide Minified, PlainText;
    var w := if StartsWith(s, "null") then "null" else if StartsWith(s, "false") then "false" else "true";
    var r := s[|w|..];
    assert s == w + r;
    WordKept(w, r);
    ValueWord(w, r);
    ValueWord(w, Minified(r));
  }

  lemma {:induction false} ItemsKept(s: string)
    requires PlainText(s) && ParseItems(s).Ok?
    ensures var r := ParseItems(s); PlainText(r.rest) && ParseItems(Minified(s)) == Ok(r.value, Minified(r.rest))
    decreases |s|, 1
  {
    hide Minified, PlainText, ParseValue, Skip, Ends;
    SkipMinified(s);
    var v := ParseValue(Skip(s));
    var s1 := Skip(v.rest);
    EndsIs(v.rest);
    ValueKept(Skip(s));
    SkipMinified(v.rest);
    FirstKept(s1);
    if s1[0] == ',' {
      ItemsKept(s1[1..]);
    }
  }

  lemma EndsIs(r: string)
    ensures Ends(r) <==> (Skip(r) == "" || Skip(r)[0] == ',' || Skip(r)[0] == ']' || Skip(r)[0] == '}')
  {}

  lemma {:induction false} MemberKept(s: string)
    requires PlainText(s) && ParseMember(s).Ok? && Ends(ParseMember(s).rest)
    ensures var r := ParseMember(s); PlainText(r.rest) && ParseMember(Minified(s)) == Ok(r.value, Minified(r.rest))
    decreases |s|, 1
  {
    hide Minified, PlainText, ParseValue, ParseString, Skip, Ends;
    SkipMinified(s);
    var name := ParseString(Skip(s));
    StringKept(Skip(s));
    var s1 := Skip(name.rest);
    SkipMinified(name.rest);
    FirstKept(s1);
    SkipMinified(s1[1..]);
    ValueKept(Skip(s1[1..]));
  }

  lemma {:induction false} MembersKept(s: string)
    requires PlainText(s) && ParseMembers(s).Ok?
    ensures var r := ParseMembers(s); PlainText(r.rest) && ParseMembers(Minified(s)) == Ok(r.value, Minified(r.rest))
    decreases |s|, 2
  {
    hide Minified, PlainText, ParseMember, Skip, Ends;
    var v := ParseMember(s);
    var s1 := Skip(v.rest);
    EndsIs(v.rest);
    MemberKept(s);
    SkipMinified(v.rest);
    FirstKept(s1);
    if s1[0] == ',' {
      MembersKept(s1[1..]);
    }
  }

  /** A text that the parser accepts as a whole keeps its value when it is minified. */
  lemma MinifyKeepsValue(s: string)
    requires PlainText(s) && ParseValue(Skip(s)).Ok? && Skip(ParseValue(Skip(s)).rest) == ""
    ensures var r := ParseValue(Skip(Minified(s)));
      r.Ok? && r.value == ParseValue(Skip(s)).value && Skip(r.rest) == ""
  {
    hide Minified, PlainText, ParseValue, Skip;
    SkipMinified(s);
    var v := ParseValue(Skip(s));
    EndsIs(v.rest);
    ValueKept(Skip(s));
    SkipMinified(v.rest);
    MinifiedNothing();
  }

  /** One that is accepted with text left over need not: two numbers run together. */
  lemma TextRunsTogether()
    ensures PlainText("1 2") && Minified("1 2") == "12"
    ensures ParseValue("1 2") == Ok(Number(1.0), " 2") && ParseValue("12") == Ok(Number(12.0), "")
  {
    assert "1 2"[1..] == " 2" && " 2"[1..] == "2" && "2"[1..] == "" && "12"[1..] == "2";
    assert Decimal(1) == "1" && Decimal(12) == "12";
    assert "1 2" == PrintInt(1) + " 2" && "12" == PrintInt(12) + "";
    ValueNumber(1, " 2");
    ValueNumber(12, "");
  }
}
