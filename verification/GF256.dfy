/** The field of the coder. */
module GF256 {
  // The Reed-Solomon coder works in GF(256): bytes under exclusive-or, with multiplication modulo
  // x^8 + x^4 + x^3 + x^2 + 1 (0x11d).  The code multiplies through logarithms; this module
  // proves that they exist and that the product they give is the polynomial one.
  import opened Sets

  /** Number of nonzero elements, the order of alpha. */
  const ORDER := 255

  /** A byte as a number, to index a table with. */
  function Value(b: bv8): (v: nat)
    ensures v < 256
  {
    b as int
  }

  /** The byte with the given value. */
  function Byte(v: nat): (b: bv8)
    requires v < 256
    ensures Value(b) == v
  {
    if v == 0 then 0 else Byte(v - 1) + 1
  }

  lemma ValueInjective(a: bv8, b: bv8)
    requires Value(a) == Value(b)
    ensures a == b
  {}

  lemma ByteConstants()
    ensures Value(0) == 0 && Value(255) == 255
  {}

  /** Multiplication by x: the step that fills the log tables. */
  function TimesX(b: bv8): bv8 {
    if b & 0x80 != 0 then (b << 1) ^ 0x1d else b << 1
  }

  /** x^n times b. */
  function TimesXn(n: nat, b: bv8): bv8 {
    if n == 0 then b else TimesX(TimesXn(n - 1, b))
  }

  /** alpha^i, where alpha is the class of x. */
  function Alpha(i: nat): bv8 {
    TimesXn(i, 1)
  }

  /** The polynomial of the field: x^8 is x^4 + x^3 + x^2 + 1. */
  lemma EighthPower()
    ensures Alpha(8) == Plus(Plus(Alpha(4), Alpha(3)), Plus(Alpha(2), Alpha(0)))
    ensures Alpha(0) == 1 && Alpha(2) == 4 && Alpha(3) == 8 && Alpha(4) == 16 && Alpha(8) == 0x1d
  {
    var a := TimesXn(4, 1);
    assert TimesXn(8, 1) == TimesX(TimesX(TimesX(TimesX(a))));
  }

  /** Addition of field elements, which is exclusive-or. */
  function Plus(a: bv8, b: bv8): bv8 {
    a ^ b
  }

  lemma PlusLaws(a: bv8, b: bv8, c: bv8)
    ensures Plus(a, b) == Plus(b, a)
    ensures Plus(Plus(a, b), c) == Plus(a, Plus(b, c))
    ensures Plus(a, 0) == a && Plus(a, a) == 0
  {}

  lemma PlusSwap(a: bv8, b: bv8, c: bv8, d: bv8)
    ensures Plus(Plus(a, b), Plus(c, d)) == Plus(Plus(a, c), Plus(b, d))
  {
    hide Plus;
    PlusLaws(a, b, Plus(c, d));
    PlusLaws(b, c, d);
    PlusLaws(c, b, d);
    PlusLaws(a, c, Plus(b, d));
  }

  lemma PlusZero(a: bv8, b: bv8)
    ensures Plus(a, b) == 0 <==> a == b
  {}

  lemma ShiftXor(a: bv8, b: bv8)
    ensures (a ^ b) << 1 == (a << 1) ^ (b << 1)
    ensures (a ^ b) & 0x80 == (a & 0x80) ^ (b & 0x80)
    ensures a & 0x80 == 0 || a & 0x80 == 0x80
  {}

  lemma XorRegroup(a: bv8, b: bv8, c: bv8)
    ensures (a ^ c) ^ b == (a ^ b) ^ c && a ^ (b ^ c) == (a ^ b) ^ c && (a ^ c) ^ (b ^ c) == a ^ b
  {}

  lemma TimesXPlus(a: bv8, b: bv8)
    ensures TimesX(Plus(a, b)) == Plus(TimesX(a), TimesX(b))
  {
    ShiftXor(a, b);
    ShiftXor(b, a);
    XorRegroup(a << 1, b << 1, 0x1d);
  }

  lemma TimesXInjective(a: bv8, b: bv8)
    requires TimesX(a) == TimesX(b)
    ensures a == b
  {}

  lemma {:induction false} TimesXnPlus(n: nat, a: bv8, b: bv8)
    ensures TimesXn(n, Plus(a, b)) == Plus(TimesXn(n, a), TimesXn(n, b))
  {
    hide Plus, TimesX;
    if n == 0 {
    } else {
      TimesXnPlus(n - 1, a, b);
      TimesXPlus(TimesXn(n - 1, a), TimesXn(n - 1, b));
    }
  }

  lemma {:induction false} TimesXnInjective(n: nat, a: bv8, b: bv8)
    requires TimesXn(n, a) == TimesXn(n, b)
    ensures a == b
  {
    if n == 0 {
    } else {
      TimesXInjective(TimesXn(n - 1, a), TimesXn(n - 1, b));
      TimesXnInjective(n - 1, a, b);
    }
  }

  lemma {:induction false} TimesXnZero(n: nat)
    ensures TimesXn(n, 0) == 0
  {
    if n == 0 {
    } else {
      TimesXnZero(n - 1);
    }
  }

  lemma {:induction false} TimesXnAdd(m: nat, n: nat, b: bv8)
    ensures TimesXn(m + n, b) == TimesXn(m, TimesXn(n, b))
  {
    if m == 0 {
    } else {
      TimesXnAdd(m - 1, n, b);
    }
  }

  lemma AlphaNonzero(i: nat)
    ensures Alpha(i) != 0
  {
    TimesXnZero(i);
    if Alpha(i) == 0 {
      TimesXnInjective(i, 1, 0);
    }
  }

  // ----- alpha has order exactly 255 -----

  lemma Stride(n: nat, b: bv8, c: bv8)
    requires Alpha(n) == b && TimesXn(15, b) == c
    ensures Alpha(n + 15) == c
  {
    TimesXnAdd(15, n, 1);
  }

  /** alpha^255 == 1, and alpha^(255/p) != 1 for each prime p dividing 255. */
  lemma AlphaPowers()
    ensures Alpha(15) != 1 && Alpha(51) != 1 && Alpha(85) != 1 && Alpha(255) == 1
  {
    assert TimesXn(15, 1) == 0x26; Stride(0, 1, 0x26);
    assert TimesXn(15, 0x26) == 0x60; Stride(15, 0x26, 0x60);
    assert TimesXn(15, 0x60) == 0xc1; Stride(30, 0x60, 0xc1);
    assert TimesXn(15, 0xc1) == 0xb9; Stride(45, 0xc1, 0xb9);
    assert TimesXn(15, 0xb9) == 0xf; Stride(60, 0xb9, 0xf);
    assert TimesXn(15, 0xf) == 0xdf; Stride(75, 0xf, 0xdf);
    assert TimesXn(15, 0xdf) == 0x1a; Stride(90, 0xdf, 0x1a);
    assert TimesXn(15, 0x1a) == 0x3b; Stride(105, 0x1a, 0x3b);
    assert TimesXn(15, 0x3b) == 0xa9; Stride(120, 0x3b, 0xa9);
    assert TimesXn(15, 0xa9) == 0x55; Stride(135, 0xa9, 0x55);
    assert TimesXn(15, 0x55) == 0x91; Stride(150, 0x55, 0x91);
    assert TimesXn(15, 0x91) == 0x96; Stride(165, 0x91, 0x96);
    assert TimesXn(15, 0x96) == 0x64; Stride(180, 0x96, 0x64);
    assert TimesXn(15, 0x64) == 0x59; Stride(195, 0x64, 0x59);
    assert TimesXn(15, 0x59) == 0x24; Stride(210, 0x59, 0x24);
    assert TimesXn(15, 0x24) == 0x2c; Stride(225, 0x24, 0x2c);
    assert TimesXn(15, 0x2c) == 1; Stride(240, 0x2c, 1);
    TimesXnAdd(6, 45, 1);
    TimesXnAdd(10, 75, 1);
  }

  lemma {:induction false} PeriodMultiple(d: nat, q: nat)
    requires Alpha(d) == 1
    ensures Alpha(q * d) == 1
  {
    if q == 0 {
    } else {
      PeriodMultiple(d, q - 1);
      assert q * d == (q - 1) * d + d;
      TimesXnAdd((q - 1) * d, d, 1);
    }
  }

  lemma ProductAtLeast(q: nat, d: nat)
    requires 16 <= q && 16 <= d
    ensures 256 <= q * d
  {
    assert 16 * d <= q * d;
  }

  /** Every proper divisor of 255 divides 85, 51 or 15. */
  lemma ProperDivisor(d: nat, q: nat)
    requires q * d == ORDER && d < ORDER
    ensures exists k :: 0 <= k <= 85 && (k * d == 85 || k * d == 51 || k * d == 15)
  {
    assert 2 <= q && 1 <= d;
    if 16 <= q && 16 <= d {
      ProductAtLeast(q, d);
      assert false;
    } else if d < 16 {
      assert d == 1 || d == 3 || d == 5 || d == 15;
      assert 15 / d * d == 15;
    } else {
      assert q == 3 || q == 5 || q == 15;
      assert (q / 3) * 3 == q || q == 5;
      assert (q / 3) * d == 85 || (q / 5) * d == 51;
    }
  }

  lemma Divide(n: nat, d: nat) returns (q: nat, r: nat)
    requires 0 < d
    ensures n == r + q * d && r < d
  {
    q, r := n / d, n % d;
  }

  lemma {:induction false} OrderOfAlpha(d: nat)
    requires 0 < d < ORDER
    ensures Alpha(d) != 1
  {
    if Alpha(d) == 1 {
      AlphaPowers();
      var q, r := Divide(ORDER, d);
      PeriodMultiple(d, q);
      TimesXnAdd(r, q * d, 1);
      if r == 0 {
        ProperDivisor(d, q);
        var k :| 0 <= k <= 85 && (k * d == 85 || k * d == 51 || k * d == 15);
        PeriodMultiple(d, k);
      } else {
        OrderOfAlpha(r);
      }
    }
  }

  lemma AlphaDistinct(i: nat, d: nat)
    requires 0 < d < ORDER
    ensures Alpha(i + d) != Alpha(i)
  {
    TimesXnAdd(i, d, 1);
    if Alpha(i + d) == Alpha(i) {
      TimesXnInjective(i, 1, Alpha(d));
    }
    OrderOfAlpha(d);
  }

  lemma AlphaInjective(i: nat, j: nat)
    requires i < ORDER && j < ORDER && Alpha(i) == Alpha(j)
    ensures i == j
  {
    if i < j {
      AlphaDistinct(i, j - i);
    } else if j < i {
      AlphaDistinct(j, i - j);
    }
  }

  // ----- every nonzero byte is a power of alpha -----

  lemma NonzeroValue(i: nat)
    ensures 1 <= Value(Alpha(i))
  {
    hide Alpha, Value;
    ByteConstants();
    AlphaNonzero(i);
    if Value(Alpha(i)) == 0 {
      ValueInjective(Alpha(i), 0);
    }
  }

  lemma AlphaValueInjective(i: nat, j: nat)
    requires i < j < ORDER
    ensures Value(Alpha(i)) != Value(Alpha(j))
  {
    hide Alpha, Value;
    if Value(Alpha(i)) == Value(Alpha(j)) {
      ValueInjective(Alpha(i), Alpha(j));
      AlphaInjective(i, j);
    }
  }

  /** The logarithm of every nonzero byte exists. */
  lemma LogExists(b: bv8)
    requires b != 0
    ensures exists i :: 0 <= i < ORDER && Alpha(i) == b
  {
    hide Alpha, Value;
    ByteConstants();
    if Value(b) == 0 {
      ValueInjective(b, 0);
    }
    var s := seq(ORDER, (i: nat) => Value(Alpha(i)));
    forall i | 0 <= i < ORDER ensures 1 <= s[i] <= ORDER {
      NonzeroValue(i);
    }
    forall i, j | 0 <= i < j < ORDER ensures s[i] != s[j] {
      AlphaValueInjective(i, j);
    }
    Pigeonhole(s, Value(b));
    var i :| 0 <= i < |s| && s[i] == Value(b);
    ValueInjective(Alpha(i), b);
  }

  /** The discrete logarithm to base alpha. */
  ghost function Log(b: bv8): (i: nat)
    requires b != 0
    ensures i < ORDER && Alpha(i) == b
  {
    LogExists(b);
    var i :| 0 <= i < ORDER && Alpha(i) == b;
    i
  }

  lemma LogAlpha(i: nat)
    requires i < ORDER
    ensures Alpha(i) != 0 && Log(Alpha(i)) == i
  {
    AlphaNonzero(i);
    AlphaInjective(i, Log(Alpha(i)));
  }

  lemma TimesXnPeriod(i: nat, b: bv8)
    ensures TimesXn(i + ORDER, b) == TimesXn(i, b)
  {
    if b == 0 {
      TimesXnZero(i);
      TimesXnZero(i + ORDER);
    } else {
      var j := Log(b);
      AlphaPowers();
      TimesXnAdd(i, j, 1);
      TimesXnAdd(i + ORDER, j, 1);
      TimesXnAdd(i + j, ORDER, 1);
    }
  }

  lemma {:induction false} TimesXnMod(i: nat, b: bv8)
    ensures TimesXn(i, b) == TimesXn(i % ORDER, b)
  {
    if i < ORDER {
    } else {
      TimesXnMod(i - ORDER, b);
      TimesXnPeriod(i - ORDER, b);
    }
  }

  // ----- multiplication -----

  /** x^n = 1 exactly for the multiples of 255. */
  lemma AlphaIsOne(n: nat)
    ensures Alpha(n) == 1 <==> n % ORDER == 0
  {
    hide TimesX;
    TimesXnMod(n, 1);
    assert Alpha(0) == 1;
    if Alpha(n) == 1 {
      AlphaInjective(n % ORDER, 0);
    }
  }

  ghost function Mul(a: bv8, b: bv8): bv8 {
    if a == 0 then 0 else TimesXn(Log(a), b)
  }

  /** Multiplying by alpha^i is multiplying by x, i times. */
  lemma MulAlpha(i: nat, b: bv8)
    ensures Mul(Alpha(i), b) == TimesXn(i, b)
  {
    AlphaNonzero(i);
    TimesXnMod(i, 1);
    LogAlpha(i % ORDER);
    TimesXnMod(i, b);
  }

  lemma MulAlphas(i: nat, j: nat)
    ensures Mul(Alpha(i), Alpha(j)) == Alpha(i + j)
  {
    MulAlpha(i, Alpha(j));
    TimesXnAdd(i, j, 1);
  }

  lemma MulZero(a: bv8)
    ensures Mul(a, 0) == 0 && Mul(0, a) == 0
  {
    if a != 0 {
      TimesXnZero(Log(a));
    }
  }

  lemma MulOne(a: bv8)
    ensures Mul(a, 1) == a && Mul(1, a) == a
  {
    MulAlpha(0, a);
  }

  lemma MulComm(a: bv8, b: bv8)
    ensures Mul(a, b) == Mul(b, a)
  {
    MulZero(a);
    MulZero(b);
    if a != 0 && b != 0 {
      MulAlphas(Log(a), Log(b));
      MulAlphas(Log(b), Log(a));
    }
  }

  lemma MulAssoc(a: bv8, b: bv8, c: bv8)
    ensures Mul(a, Mul(b, c)) == Mul(Mul(a, b), c)
  {
    MulZero(a);
    MulZero(c);
    MulZero(b);
    if a != 0 && b != 0 && c != 0 {
      var i, j, k := Log(a), Log(b), Log(c);
      MulAlphas(j, k);
      MulAlphas(i, j + k);
      MulAlphas(i, j);
      MulAlphas(i + j, k);
    } else {
      MulZero(Mul(a, b));
    }
  }

  lemma MulSwap(a: bv8, b: bv8, c: bv8)
    ensures Mul(a, Mul(b, c)) == Mul(b, Mul(a, c))
  {
    hide Mul;
    MulAssoc(a, b, c);
    MulComm(a, b);
    MulAssoc(b, a, c);
  }

  lemma MulPlus(a: bv8, b: bv8, c: bv8)
    ensures Mul(a, Plus(b, c)) == Plus(Mul(a, b), Mul(a, c))
    ensures Mul(Plus(b, c), a) == Plus(Mul(b, a), Mul(c, a))
  {
    if a == 0 {
      assert Plus(0, 0) == 0;
    } else {
      hide Plus;
      TimesXnPlus(Log(a), b, c);
    }
    MulComm(Plus(b, c), a);
    MulComm(b, a);
    MulComm(c, a);
  }

  lemma NoZeroDivisors(a: bv8, b: bv8)
    requires a != 0 && b != 0
    ensures Mul(a, b) != 0
  {
    MulAlphas(Log(a), Log(b));
    AlphaNonzero(Log(a) + Log(b));
  }
}
