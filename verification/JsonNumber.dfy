/** The value of a number in a text, for every number of section 6 of RFC 8259. */
module JsonNumber {
  // Digits, fraction and exponent are spelled out apart from the parser, in whole numbers.
  import opened Json
  import opened JsonParse
  import opened JsonRoundTrip

  predicate AllDigits(s: string) {
    forall i :: 0 <= i < |s| ==> '0' <= s[i] <= '9'
  }

  /** The number that digits spell. */
  function Spelled(s: string): nat
    requires AllDigits(s)
  {
    if s == "" then 0 else 10 * Spelled(s[..|s| - 1]) + (s[|s| - 1] as int - 48)
  }

  function Ten(n: nat): nat {
    if n == 0 then 1 else 10 * Ten(n - 1)
  }

  /** The parts of a number: no leading zero but a single one; a fraction and an exponent have at
      least one digit. */
  datatype Parts = Parts(minus: bool, whole: string, point: bool, fraction: string, e: bool, sign: string, exponent: string)

  predicate IsNumber(p: Parts) {
    && AllDigits(p.whole) && p.whole != "" && (p.whole[0] == '0' ==> p.whole == "0")
    && AllDigits(p.fraction) && (p.point <==> p.fraction != "")
    && AllDigits(p.exponent) && (p.e <==> p.exponent != "")
    && (p.sign == "" || p.sign == "+" || p.sign == "-") && (!p.e ==> p.sign == "")
  }

  function ExponentText(p: Parts, capital: bool): string {
    if p.e then (if capital then "E" else "e") + p.sign + p.exponent else ""
  }

  function FractionText(p: Parts): string {
    if p.point then "." + p.fraction else ""
  }

  function TextOf(p: Parts, capital: bool): string {
    (if p.minus then "-" else "") + p.whole + FractionText(p) + ExponentText(p, capital)
  }

  // ----- digits -----

  /** Reading digits goes on from an accumulator. */
  lemma {:induction false} ReadDigitsAll(acc: nat, s: string, rest: string)
    requires AllDigits(s) && !IsDigit(Peek(rest))
    ensures ReadDigits(acc, s + rest) == (acc * Ten(|s|) + Spelled(s), rest)
    decreases |s|
  {
    if s == "" {
      assert s + rest == rest;
    } else {
      var d: nat := s[0] as int - 48;
      assert (s + rest)[1..] == s[1..] + rest && (s + rest)[0] == s[0];
      ReadDigitsAll(acc * 10 + d, s[1..], rest);
      SpelledFirst(s);
      Shifted(acc, d, Ten(|s| - 1), Spelled(s[1..]));
    }
  }

  lemma Shifted(acc: nat, d: nat, t: nat, more: nat)
    ensures (acc * 10 + d) * t + more == acc * (10 * t) + (d * t + more)
  {}

  /** The first digit counts as often as the others have places. */
  lemma {:induction false} SpelledFirst(s: string)
    requires AllDigits(s) && s != ""
    ensures Spelled(s) == (s[0] as int - 48) * Ten(|s| - 1) + Spelled(s[1..])
    decreases |s|
  {
    var n := |s| - 1;
    if n == 0 {
      assert s[..0] == "" && s[1..] == "";
    } else {
      SpelledFirst(s[..n]);
      assert s[..n][1..] == s[1..][..n - 1];
      assert s[1..][|s[1..]| - 1] == s[n];
      TenTimes((s[0] as int) - 48, Ten(n - 1), Spelled(s[1..][..n - 1]));
    }
  }

  lemma TenTimes(d: int, t: nat, more: nat)
    ensures 10 * (d * t + more) == d * (10 * t) + 10 * more
  {}

  lemma {:induction false} SpelledJoin(a: string, b: string)
    requires AllDigits(a) && AllDigits(b)
    ensures AllDigits(a + b) && Spelled(a + b) == Spelled(a) * Ten(|b|) + Spelled(b)
    decreases |b|
  {
    if b == "" {
      assert a + b == a;
    } else {
      var n := |b| - 1;
      SpelledJoin(a, b[..n]);
      assert (a + b)[..|a + b| - 1] == a + b[..n];
      TenTimes(Spelled(a), Ten(n), Spelled(b[..n]));
    }
  }

  // ----- the mantissa -----

  lemma MantissaRead(p: Parts, rest: string)
    requires IsNumber(p) && !IsDigit(Peek(rest)) && (!p.point ==> Peek(rest) != '.')
    ensures ReadMantissa(p.whole + FractionText(p) + rest)
         == Mantissa(Spelled(p.whole) * Ten(|p.fraction|) + Spelled(p.fraction), 0 - |p.fraction|, rest)
  {
    hide ReadDigits, Spelled, Ten, ReadMantissa;
    if p.point {
      assert p.whole + FractionText(p) + rest == p.whole + ("." + p.fraction + rest);
      MantissaPoint(p.whole, p.fraction, rest);
    } else {
      assert p.whole + FractionText(p) + rest == p.whole + rest;
      NoFraction(p.fraction);
      MantissaPlain(p.whole, rest);
    }
  }

  lemma MantissaPlain(whole: string, rest: string)
    requires AllDigits(whole) && whole != "" && (whole[0] == '0' ==> whole == "0") && !IsDigit(Peek(rest)) && Peek(rest) != '.'
    ensures ReadMantissa(whole + rest) == Mantissa(Spelled(whole), 0, rest)
  {
    hide ReadDigits, Spelled, AllDigits;
    WholeRead(whole, rest);
  }

  lemma MantissaPoint(whole: string, fraction: string, rest: string)
    requires AllDigits(whole) && whole != "" && (whole[0] == '0' ==> whole == "0") && !IsDigit(Peek(rest))
    requires AllDigits(fraction) && fraction != ""
    ensures ReadMantissa(whole + ("." + fraction + rest))
         == Mantissa(Spelled(whole) * Ten(|fraction|) + Spelled(fraction), 0 - |fraction|, rest)
  {
    hide ReadDigits, Spelled, Ten;
    var s3 := "." + fraction + rest;
    assert s3[1..] == fraction + rest && s3[0] == '.' && s3[1] == fraction[0];
    WholeRead(whole, s3);
    ReadDigitsAll(Spelled(whole), fraction, rest);
  }

  lemma NoFraction(s: string)
    requires s == ""
    ensures Ten(|s|) == 1 && Spelled(s) == 0
  {}

  /** The digits in front of the point, with the step over a zero. */
  lemma WholeRead(whole: string, after: string)
    requires AllDigits(whole) && whole != "" && (whole[0] == '0' ==> whole == "0") && !IsDigit(Peek(after))
    ensures var s1 := whole + after;
      var s2 := if Peek(s1) == '0' then s1[1..] else s1;
      (if '1' <= Peek(s2) <= '9' then ReadDigits(0, s2) else (0, s2)) == (Spelled(whole), after)
  {
    hide ReadDigits;
    var s1 := whole + after;
    assert s1[0] == whole[0];
    if whole == "0" {
      assert s1[1..] == after;
      assert whole[..0] == "";
    } else {
      ReadDigitsAll(0, whole, after);
    }
  }

  // ----- the exponent -----

  /** The exponent with its sign. */
  function ExponentOf(p: Parts): int
    requires IsNumber(p)
  {
    if p.sign == "-" then 0 - Spelled(p.exponent) else Spelled(p.exponent)
  }

  lemma ExponentRead(p: Parts, capital: bool, rest: string)
    requires IsNumber(p) && !IsDigit(Peek(rest)) && (!p.e ==> Peek(rest) != 'e' && Peek(rest) != 'E')
    ensures ReadExponent(ExponentText(p, capital) + rest) == (ExponentOf(p), rest)
  {
    hide ReadDigits, Spelled;
    var s := ExponentText(p, capital) + rest;
    if p.e {
      var t := p.exponent + rest;
      assert s[1..] == p.sign + t;
      assert p.exponent[0] == t[0];
      if p.sign != "" {
        assert (p.sign + t)[1..] == t;
      } else {
        assert p.sign + t == t;
      }
      ReadDigitsAll(0, p.exponent, rest);
    } else {
      assert s == rest;
      NoFraction(p.exponent);
    }
  }

  // ----- powers of ten -----

  lemma {:induction false} Pow10Up(n: nat)
    ensures Pow10(n) == Ten(n) as real
  {
    if n > 0 {
      Pow10Up(n - 1);
      assert (10 * Ten(n - 1)) as real == 10.0 * (Ten(n - 1) as real);
    }
  }

  lemma {:induction false} Pow10Down(n: nat)
    ensures Pow10(0 - n) * (Ten(n) as real) == 1.0
  {
    if n > 0 {
      Pow10Down(n - 1);
      assert Pow10(0 - n) == Pow10(1 - n) / 10.0;
      assert (10 * Ten(n - 1)) as real == 10.0 * (Ten(n - 1) as real);
      Cancel(Pow10(1 - n), Ten(n - 1) as real);
    }
  }

  lemma Cancel(x: real, t: real)
    ensures x / 10.0 * (10.0 * t) == x * t
  {}

  /** A power with any exponent, as a fraction of whole powers. */
  lemma Pow10Fraction(up: nat, down: nat)
    ensures Pow10(up - down) * (Ten(down) as real) == Ten(up) as real
  {
    hide Pow10, Ten;
    if down <= up {
      PowerUp(up - down, down);
    } else {
      PowerDown(up, down - up);
    }
  }

  lemma PowerUp(more: nat, down: nat)
    ensures Pow10(more) * (Ten(down) as real) == Ten(more + down) as real
  {
    hide Pow10, Ten;
    Pow10Up(more);
    TenAdds(more, down);
    AsReal(Ten(more), Ten(down));
    Replaced(Pow10(more), Ten(more) as real, Ten(down) as real, Ten(more + down) as real);
  }

  lemma PowerDown(up: nat, less: nat)
    ensures Pow10(0 - less) * (Ten(up + less) as real) == Ten(up) as real
  {
    hide Pow10, Ten;
    Pow10Down(less);
    TenAdds(less, up);
    AsReal(Ten(less), Ten(up));
    Regroup(Pow10(0 - less), Ten(less) as real, Ten(up) as real, Ten(less + up) as real);
  }

  lemma Replaced(x: real, a: real, b: real, c: real)
    requires x == a && c == a * b
    ensures x * b == c
  {}

  lemma AsReal(a: nat, b: nat)
    ensures (a * b) as real == (a as real) * (b as real)
  {}

  lemma Regroup(x: real, a: real, b: real, c: real)
    requires x * a == 1.0 && c == a * b
    ensures x * c == b
  {
    assert x * (a * b) == (x * a) * b;
  }

  lemma {:induction false} TenAdds(a: nat, b: nat)
    ensures Ten(a + b) == Ten(a) * Ten(b)
  {
    if a > 0 {
      TenAdds(a - 1, b);
      assert 10 * (Ten(a - 1) * Ten(b)) == 10 * Ten(a - 1) * Ten(b);
    }
  }

  // ----- the value -----

  /** What a number must not run into. */
  predicate StopsNumber(p: Parts, rest: string) {
    !IsDigit(Peek(rest)) && (!p.point && !p.e ==> Peek(rest) != '.') && (!p.e ==> Peek(rest) != 'e' && Peek(rest) != 'E')
  }

  function Up(p: Parts): nat
    requires IsNumber(p)
  {
    if p.sign == "-" then 0 else Spelled(p.exponent)
  }

  function Down(p: Parts): nat
    requires IsNumber(p)
  {
    |p.fraction| + if p.sign == "-" then Spelled(p.exponent) else 0
  }

  /** parse_number on any number: the value, times ten to the power of its places behind the point and
      of a negative exponent, is the number that all digits spell, times ten to the power of a positive
      one; with its sign; and it stops behind the number. */
  lemma NumberValue(p: Parts, capital: bool, rest: string)
    requires IsNumber(p) && StopsNumber(p, rest)
    ensures var (value, left) := ParseNumber(TextOf(p, capital) + rest);
      && left == rest && AllDigits(p.whole + p.fraction)
      && value * (Ten(Down(p)) as real)
         == (if p.minus then -1.0 else 1.0) * (Spelled(p.whole + p.fraction) as real) * (Ten(Up(p)) as real)
  {
    hide Spelled, Pow10, Ten, IsNumber, ParseNumber, Up, Down;
    SpelledWhole(p);
    NumberParsed(p, capital, rest);
    Pow10Fraction(Up(p), Down(p));
    Weighed(Spelled(p.whole + p.fraction) as real, Pow10(Up(p) - Down(p)), Ten(Down(p)) as real, Ten(Up(p)) as real);
  }

  lemma SpelledWhole(p: Parts)
    requires IsNumber(p)
    ensures AllDigits(p.whole + p.fraction)
    ensures Spelled(p.whole + p.fraction) == Spelled(p.whole) * Ten(|p.fraction|) + Spelled(p.fraction)
  {
    hide Spelled, Ten;
    SpelledJoin(p.whole, p.fraction);
  }

  lemma NumberParsed(p: Parts, capital: bool, rest: string)
    requires IsNumber(p) && StopsNumber(p, rest)
    ensures AllDigits(p.whole + p.fraction)
    ensures var value := (Spelled(p.whole + p.fraction) as real) * Pow10(Up(p) - Down(p));
      var r := ParseNumber(TextOf(p, capital) + rest);
      r.0 == (if p.minus then -value else value) && r.1 == rest
  {
    hide ReadMantissa, ReadExponent, Spelled, Pow10, Ten, FractionText, ExponentText, ParseNumber;
    var tail := ExponentText(p, capital) + rest;
    var body := p.whole + FractionText(p) + tail;
    var s := TextOf(p, capital) + rest;
    SpelledWhole(p);
    FirstDigit(p);
    TailStarts(p, capital, rest);
    if p.minus {
      assert s[1..] == body && s[0] == '-';
    } else {
      assert s == body;
      assert body[0] == p.whole[0];
    }
    MantissaRead(p, tail);
    ExponentRead(p, capital, rest);
    assert 0 - |p.fraction| + ExponentOf(p) == Up(p) - Down(p);
    Unfolded(s, Spelled(p.whole + p.fraction), 0 - |p.fraction|, ExponentOf(p), tail, rest);
  }

  lemma Unfolded(s: string, digits: nat, scale: int, exponent: int, tail: string, rest: string)
    requires ReadMantissa(if Peek(s) == '-' then s[1..] else s) == Mantissa(digits, scale, tail)
    requires ReadExponent(tail) == (exponent, rest)
    ensures var value := (digits as real) * Pow10(scale + exponent);
      ParseNumber(s).0 == (if Peek(s) == '-' then -value else value) && ParseNumber(s).1 == rest
  {
    hide ReadMantissa, ReadExponent, Pow10;
  }

  lemma TailStarts(p: Parts, capital: bool, rest: string)
    requires IsNumber(p) && StopsNumber(p, rest)
    ensures var tail := ExponentText(p, capital) + rest; !IsDigit(Peek(tail)) && (!p.point ==> Peek(tail) != '.')
  {
    var tail := ExponentText(p, capital) + rest;
    if !p.e {
      assert tail == rest;
    } else {
      assert tail[0] == (if capital then 'E' else 'e');
    }
  }

  lemma FirstDigit(p: Parts)
    requires IsNumber(p)
    ensures '0' <= p.whole[0] <= '9'
  {}

  lemma Weighed(d: real, x: real, down: real, up: real)
    requires x * down == up
    ensures d * x * down == d * up && -(d * x) * down == -1.0 * d * up && 1.0 * d * up == d * up
  {
    assert d * x * down == d * (x * down);
  }
}
