/** The Reed-Solomon code. */
module ReedSolomon {
  // The code of rscode.c over GF(256): the generator polynomial, none of whose coefficients is
  // zero, the shift register, and how far apart code words are.
  import opened GF256
  import opened Polynomial

  // ----- the generator polynomial -----

  /** The product of (x + alpha^(fcr+i)) for i < n, constant term first. */
  ghost function Generator(fcr: nat, n: nat): (g: seq<bv8>)
    ensures |g| == n + 1
  {
    if n == 0 then [1] else TimesLinear(Generator(fcr, n - 1), Alpha(fcr + n - 1))
  }

  lemma GeneratorStep(fcr: nat, n: nat, j: nat)
    requires j <= n + 1
    ensures Generator(fcr, n + 1)[j]
         == Plus(if j == 0 then 0 else Generator(fcr, n)[j - 1],
                 if j == n + 1 then 0 else Mul(Alpha(fcr + n), Generator(fcr, n)[j]))
  {
    hide Plus, Mul, Alpha, TimesLinear;
    TimesLinearAt(Generator(fcr, n), Alpha(fcr + n), j);
  }

  lemma {:induction false} GeneratorMonic(fcr: nat, n: nat)
    ensures Generator(fcr, n)[n] == 1
  {
    hide Plus, Mul, Alpha, TimesLinear;
    if n == 0 {
    } else {
      GeneratorMonic(fcr, n - 1);
      GeneratorStep(fcr, n - 1, n);
      PlusLaws(1, 0, 0);
    }
  }

  /** The generator vanishes at alpha^fcr .. alpha^(fcr+n-1). */
  lemma {:induction false} GeneratorRoots(fcr: nat, n: nat, k: nat)
    requires k < n
    ensures Eval(Generator(fcr, n), Alpha(fcr + k)) == 0
  {
    hide Plus, Mul, Alpha;
    var x := Alpha(fcr + k);
    var g := Generator(fcr, n - 1);
    EvalTimesLinear(g, Alpha(fcr + n - 1), x);
    MulZero(Eval(g, x));
    MulZero(Plus(x, Alpha(fcr + n - 1)));
    if k == n - 1 {
      PlusLaws(x, x, x);
    } else {
      GeneratorRoots(fcr, n - 1, k);
    }
  }

  /** (alpha^a + alpha^b) * v. */
  ghost function Pair(a: nat, b: nat, v: bv8): bv8 {
    Mul(Plus(Alpha(a), Alpha(b)), v)
  }

  lemma PairShift(a: nat, b: nat, v: bv8, k: nat)
    ensures Mul(Alpha(k), Pair(a, b, v)) == Pair(a + k, b + k, v)
    ensures Pair(a, b, Mul(Alpha(k), v)) == Pair(a + k, b + k, v)
  {
    hide Plus, Mul, Alpha;
    var p := Plus(Alpha(a), Alpha(b));
    MulAssoc(Alpha(k), p, v);
    MulPlus(Alpha(k), Alpha(a), Alpha(b));
    MulAlphas(k, a);
    MulAlphas(k, b);
    MulSwap(Alpha(k), p, v);
  }

  lemma PairSum(a: nat, b: nat, c: nat, v: bv8)
    ensures Plus(Pair(a, b, v), Pair(b, c, v)) == Pair(a, c, v)
    ensures Pair(a, b, v) == Pair(b, a, v)
  {
    hide Plus, Mul, Alpha;
    var x, y, z := Alpha(a), Alpha(b), Alpha(c);
    MulPlus(v, Plus(x, y), Plus(y, z));
    PlusLaws(x, y, Plus(y, z));
    PlusLaws(y, y, z);
    PlusLaws(y, x, z);
    PlusLaws(z, 0, 0);
    PlusLaws(0, z, 0);
  }

  /** The q-binomial recurrence between neighbouring coefficients of the generator:
      (alpha^(n-j) + 1) * g[j] == alpha^fcr * (alpha^n + alpha^(n-j-1)) * g[j+1]. */
  lemma {:induction false} NeighbourCoefficients(fcr: nat, n: nat, j: nat)
    requires j < n
    ensures Pair(n - j, 0, Generator(fcr, n)[j]) == Pair(fcr + n, fcr + n - j - 1, Generator(fcr, n)[j + 1])
    decreases n, 0
  {
    hide Plus, Mul, Alpha, Pair, Generator;
    var m := n - 1;
    NeighbourLeft(fcr, m, j);
    NeighbourRight(fcr, m, j);
  }

  /** The left-hand side of the recurrence for m+1, reduced to g[j] of m. */
  lemma {:induction false} NeighbourLeft(fcr: nat, m: nat, j: nat)
    requires j <= m
    ensures Pair(m + 1 - j, 0, Generator(fcr, m + 1)[j])
         == Pair(fcr + m - j, fcr + 2 * m + 1 - j, Generator(fcr, m)[j])
    decreases m, 1
  {
    hide Plus, Mul, Alpha, Generator;
    var c := Generator(fcr, m);
    var p, q := m + 1 - j, fcr + m;
    GeneratorStep(fcr, m, j);
    PairShift(p, 0, c[j], q);
    PairSum(p + q, q, q - j, c[j]);
    PairSum(q - j, q, p + q, c[j]);
    if j == 0 {
      PlusLaws(0, Mul(Alpha(q), c[0]), 0);
      PlusLaws(Mul(Alpha(q), c[0]), 0, 0);
    } else {
      NeighbourCoefficients(fcr, m, j - 1);
      MulPlus(Plus(Alpha(p), Alpha(0)), c[j - 1], Mul(Alpha(q), c[j]));
    }
  }

  /** The right-hand side of the recurrence for m+1, reduced to g[j] of m. */
  lemma {:induction false} NeighbourRight(fcr: nat, m: nat, j: nat)
    requires j <= m
    ensures Pair(fcr + m + 1, fcr + m - j, Generator(fcr, m + 1)[j + 1])
         == Pair(fcr + m - j, fcr + 2 * m + 1 - j, Generator(fcr, m)[j])
    decreases m, 1
  {
    hide Plus, Mul, Alpha, Generator;
    var c := Generator(fcr, m);
    var q := fcr + m;
    GeneratorStep(fcr, m, j + 1);
    PairSum(q + 1, q - j, 0, c[j]);
    if j == m {
      GeneratorMonic(fcr, m);
      PlusLaws(c[j], 0, 0);
    } else {
      var u := c[j + 1];
      MulPlus(Plus(Alpha(q + 1), Alpha(q - j)), c[j], Mul(Alpha(q), u));
      PairShift(q + 1, q - j, u, q);
      NeighbourCoefficients(fcr, m, j);
      PairShift(q, q - j - 1, u, q + 1);
      PairShift(m - j, 0, c[j], q + 1);
      PairSum(q - j, q + 1, q + m + 1 - j, c[j]);
      PairSum(q + 1, q + m + 1 - j, 0, c[j]);
    }
  }

  /** No coefficient of the generator is zero, so none is stored as the reserved index A0. */
  lemma {:induction false} GeneratorCoefficientsNonzero(fcr: nat, n: nat, j: nat)
    requires j <= n < ORDER
    ensures Generator(fcr, n)[j] != 0
    decreases n - j
  {
    hide Plus, Mul, Alpha, Generator;
    if j == n {
      GeneratorMonic(fcr, n);
    } else {
      GeneratorCoefficientsNonzero(fcr, n, j + 1);
      NeighbourCoefficients(fcr, n, j);
      AlphaDistinct(fcr + n - j - 1, j + 1);
      PlusZero(Alpha(fcr + n), Alpha(fcr + n - j - 1));
      NoZeroDivisors(Plus(Alpha(fcr + n), Alpha(fcr + n - j - 1)), Generator(fcr, n)[j + 1]);
      MulZero(Plus(Alpha(n - j), Alpha(0)));
    }
  }

  // ----- the shift register, and what it computes -----

  /** One step of the encoder: shift, and add feedback times the low generator coefficients. */
  ghost function ShiftRegister(g: seq<bv8>, parity: seq<bv8>, d: bv8): (r: seq<bv8>)
    requires |g| == |parity| + 1 && 1 <= |parity|
    ensures |r| == |parity|
  {
    Add(parity[1..] + [0], Scale(Plus(d, parity[0]), Reverse(g[..|parity|])))
  }

  /** The parity symbols of a data block. */
  ghost function Parity(g: seq<bv8>, data: seq<bv8>): (r: seq<bv8>)
    requires 2 <= |g|
    ensures |r| == |g| - 1
  {
    if data == [] then seq(|g| - 1, i => 0)
    else ShiftRegister(g, Parity(g, data[..|data| - 1]), data[|data| - 1])
  }

  lemma {:induction false} HornerZeros(n: nat, x: bv8)
    ensures Horner(seq(n, i => 0), x) == 0
  {
    hide Plus, Mul;
    if n == 0 {
    } else {
      assert seq(n, i => 0 as bv8)[..n - 1] == seq(n - 1, i => 0 as bv8);
      HornerZeros(n - 1, x);
      MulZero(x);
      PlusLaws(0, 0, 0);
    }
  }

  /** At a root of a monic g, the low coefficients of g stand for x^el. */
  lemma LowCoefficients(g: seq<bv8>, el: nat, x: bv8)
    requires |g| == el + 1 && g[el] == 1 && Eval(g, x) == 0
    ensures Horner(Reverse(g[..el]), x) == Pow(x, el)
  {
    hide Plus, Mul;
    assert Reverse(g) == [1] + Reverse(g[..el]);
    HornerReverse(g, x);
    HornerFront(1, Reverse(g[..el]), x);
    MulOne(Pow(x, el));
    PlusZero(Pow(x, el), Horner(Reverse(g[..el]), x));
  }

  lemma ShiftValue(p0: bv8, rest: seq<bv8>, x: bv8)
    ensures Horner(rest + [0], x) == Mul(x, Horner(rest, x))
    ensures Mul(x, Horner([p0] + rest, x)) == Plus(Mul(p0, Pow(x, |rest| + 1)), Mul(x, Horner(rest, x)))
  {
    hide Plus, Mul;
    var n, h := |rest|, Horner(rest, x);
    assert (rest + [0])[..n] == rest;
    PlusLaws(Mul(x, h), 0, 0);
    HornerFront(p0, rest, x);
    MulPlus(x, Mul(p0, Pow(x, n)), h);
    MulSwap(x, p0, Pow(x, n));
  }

  lemma ShiftRegisterValue(g: seq<bv8>, parity: seq<bv8>, d: bv8, x: bv8)
    requires |g| == |parity| + 1 && 1 <= |parity| && g[|parity|] == 1 && Eval(g, x) == 0
    ensures Horner(ShiftRegister(g, parity, d), x)
         == Plus(Mul(x, Horner(parity, x)), Mul(d, Pow(x, |parity|)))
  {
    hide Plus, Mul, Add, Scale, Reverse, Horner, Pow, Eval, ShiftRegister;
    var el, p0, rest := |parity|, parity[0], parity[1..];
    var top := Pow(x, el);
    var h := Mul(x, Horner(rest, x));
    assert parity == [p0] + rest;
    ShiftValue(p0, rest, x);
    RegisterSum(g, parity, d, x);
    MulPlus(top, d, p0);
    FeedbackCancels(Mul(p0, top), h, Mul(d, top));
  }

  lemma RegisterSum(g: seq<bv8>, parity: seq<bv8>, d: bv8, x: bv8)
    requires |g| == |parity| + 1 && 1 <= |parity| && g[|parity|] == 1 && Eval(g, x) == 0
    ensures Horner(ShiftRegister(g, parity, d), x)
         == Plus(Horner(parity[1..] + [0], x), Mul(Plus(d, parity[0]), Pow(x, |parity|)))
  {
    hide Plus, Mul, Add, Scale, Reverse, Horner, Pow, Eval;
    var el := |parity|;
    var fb, low := Plus(d, parity[0]), Reverse(g[..el]);
    LowCoefficients(g, el, x);
    HornerAdd(parity[1..] + [0], Scale(fb, low), x);
    HornerScale(fb, low, x);
  }

  lemma FeedbackCancels(a: bv8, h: bv8, d: bv8)
    ensures Plus(h, Plus(d, a)) == Plus(Plus(a, h), d)
  {
    hide Plus;
    PlusLaws(a, h, d);
    PlusLaws(h, d, a);
    PlusLaws(Plus(h, d), a, 0);
  }

  /** At every root of g the parity equals data * x^el. */
  lemma {:induction false} ParityValue(g: seq<bv8>, data: seq<bv8>, x: bv8)
    requires 2 <= |g| && g[|g| - 1] == 1 && Eval(g, x) == 0
    ensures Horner(Parity(g, data), x) == Mul(Horner(data, x), Pow(x, |g| - 1))
  {
    hide Plus, Mul, ShiftRegister;
    var el := |g| - 1;
    if data == [] {
      HornerZeros(el, x);
      MulZero(Pow(x, el));
    } else {
      var n := |data| - 1;
      var p, h, top := Parity(g, data[..n]), Horner(data[..n], x), Pow(x, el);
      ParityValue(g, data[..n], x);
      ShiftRegisterValue(g, p, data[n], x);
      MulAssoc(x, h, top);
      MulPlus(top, Mul(x, h), data[n]);
    }
  }

  /** A word that vanishes at the el consecutive powers alpha^fcr .. alpha^(fcr+el-1). */
  ghost predicate IsCodeword(fcr: nat, el: nat, word: seq<bv8>) {
    forall i :: fcr <= i < fcr + el ==> Horner(word, Alpha(i)) == 0
  }

  /** data * x^el + parity is divisible by the generator. */
  lemma EncodedIsCodeword(fcr: nat, el: nat, data: seq<bv8>)
    requires 1 <= el
    ensures IsCodeword(fcr, el, data + Parity(Generator(fcr, el), data))
  {
    hide Plus, Mul, Alpha, Generator, Parity;
    var g := Generator(fcr, el);
    GeneratorMonic(fcr, el);
    forall i | fcr <= i < fcr + el ensures Horner(data + Parity(g, data), Alpha(i)) == 0 {
      var x := Alpha(i);
      GeneratorRoots(fcr, el, i - fcr);
      ParityValue(g, data, x);
      HornerConcat(data, Parity(g, data), x);
      PlusZero(Horner(Parity(g, data), x), Horner(Parity(g, data), x));
    }
  }

  // ----- minimum distance -----

  /** The positions of a word, as field elements alpha^(n-1), .., alpha, 1. */
  ghost function Locators(n: nat): (xs: seq<bv8>)
    ensures |xs| == n
  {
    seq(n, i requires 0 <= i < n => Alpha(n - 1 - i))
  }

  /** c[i] times the fcr-th power of its locator. */
  ghost function Weighted(fcr: nat, c: seq<bv8>): (r: seq<bv8>)
    ensures |r| == |c|
  {
    seq(|c|, i requires 0 <= i < |c| => Mul(c[i], Alpha(fcr * (|c| - 1 - i))))
  }

  lemma LeadingTerm(fcr: nat, k: nat, a: bv8, n: nat)
    ensures Mul(a, Pow(Alpha(fcr + k), n)) == Mul(Mul(a, Alpha(fcr * n)), Pow(Alpha(n), k))
  {
    hide Mul, Alpha, Pow;
    PowAlpha(fcr + k, n);
    PowAlpha(n, k);
    MulAssoc(a, Alpha(fcr * n), Alpha(n * k));
    MulAlphas(fcr * n, n * k);
    assert fcr * n + n * k == (fcr + k) * n;
  }

  lemma {:induction false} HornerIsPowerSum(fcr: nat, k: nat, c: seq<bv8>)
    ensures Horner(c, Alpha(fcr + k)) == PowerSum(k, Weighted(fcr, c), Locators(|c|))
  {
    hide Plus, Mul, Alpha;
    if c == [] {
    } else {
      var n := |c| - 1;
      assert c == [c[0]] + c[1..];
      HornerFront(c[0], c[1..], Alpha(fcr + k));
      HornerIsPowerSum(fcr, k, c[1..]);
      assert Weighted(fcr, c)[1..] == Weighted(fcr, c[1..]);
      assert Locators(n + 1)[1..] == Locators(n);
      LeadingTerm(fcr, k, c[0], n);
    }
  }

  lemma LocatorsDistinct(n: nat, i: nat, j: nat)
    requires i < j < n <= ORDER
    ensures Locators(n)[i] != Locators(n)[j]
  {
    hide Alpha;
    AlphaDistinct(n - 1 - j, j - i);
  }

  lemma WeightedNonzero(fcr: nat, c: seq<bv8>, i: nat)
    requires i < |c|
    ensures Weighted(fcr, c)[i] == 0 <==> c[i] == 0
  {
    hide Mul, Alpha;
    var e := fcr * (|c| - 1 - i);
    MulZero(Alpha(e));
    AlphaNonzero(e);
    if c[i] != 0 {
      NoZeroDivisors(c[i], Alpha(e));
    }
  }

  /** A nonzero codeword of length at most 255 has more than el nonzero symbols. */
  lemma MinimumWeight(fcr: nat, el: nat, c: seq<bv8>)
    requires |c| <= ORDER && IsCodeword(fcr, el, c) && Weight(c) <= el
    ensures forall i :: 0 <= i < |c| ==> c[i] == 0
  {
    hide Alpha, Weighted, Locators;
    var w, xs := Weighted(fcr, c), Locators(|c|);
    forall i | 0 <= i < |c| ensures w[i] == 0 <==> c[i] == 0 {
      WeightedNonzero(fcr, c, i);
    }
    WeightSame(c, w);
    forall i, j | 0 <= i < j < |xs| ensures xs[i] != xs[j] {
      LocatorsDistinct(|c|, i, j);
    }
    forall k: nat | k < el ensures PowerSum(k, w, xs) == 0 {
      HornerIsPowerSum(fcr, k, c);
    }
    VandermondeZero(el, w, xs);
  }

  /** Number of positions where two words differ. */
  ghost function Distance(a: seq<bv8>, b: seq<bv8>): nat
    requires |a| == |b|
  {
    if a == [] then 0 else (if a[0] == b[0] then 0 else 1) + Distance(a[1..], b[1..])
  }

  lemma {:induction false} DistanceIsWeight(a: seq<bv8>, b: seq<bv8>)
    requires |a| == |b|
    ensures Distance(a, b) == Weight(Add(a, b))
  {
    hide Plus;
    if a == [] {
    } else {
      DistanceIsWeight(a[1..], b[1..]);
      assert Add(a, b)[1..] == Add(a[1..], b[1..]);
      PlusZero(a[0], b[0]);
    }
  }

  /** Two codewords of the same length that differ in at most el symbols are equal, so up to
      el/2 corrupted symbols of a block leave the transmitted codeword the nearest one. */
  lemma MinimumDistance(fcr: nat, el: nat, a: seq<bv8>, b: seq<bv8>)
    requires |a| == |b| <= ORDER
    requires IsCodeword(fcr, el, a) && IsCodeword(fcr, el, b)
    ensures a == b || el < Distance(a, b)
  {
    hide Plus, Mul, Alpha;
    if Distance(a, b) <= el {
      var c := Add(a, b);
      DistanceIsWeight(a, b);
      forall i | fcr <= i < fcr + el ensures Horner(c, Alpha(i)) == 0 {
        HornerAdd(a, b, Alpha(i));
        PlusZero(0, 0);
      }
      MinimumWeight(fcr, el, c);
      forall i | 0 <= i < |a| ensures a[i] == b[i] {
        assert c[i] == 0;
        PlusZero(a[i], b[i]);
      }
    }
  }

  lemma {:induction false} DistanceConcat(d: seq<bv8>, p: seq<bv8>, q: seq<bv8>)
    requires |p| == |q|
    ensures Distance(d + p, d + q) <= |p|
  {
    if d == [] {
      assert d + p == p && d + q == q;
      if p == [] {
      } else {
        DistanceConcat([], p[1..], q[1..]);
        assert [] + p[1..] == p[1..] && [] + q[1..] == q[1..];
      }
    } else {
      assert (d + p)[1..] == d[1..] + p && (d + q)[1..] == d[1..] + q;
      DistanceConcat(d[1..], p, q);
    }
  }

  /** The parity is the only one that completes the data to a codeword. */
  lemma ParityUnique(fcr: nat, el: nat, data: seq<bv8>, p: seq<bv8>)
    requires 1 <= el && |p| == el && |data| + el <= ORDER
    ensures p == Parity(Generator(fcr, el), data) <==> IsCodeword(fcr, el, data + p)
  {
    hide Plus, Mul, Alpha, Generator, Parity;
    var q := Parity(Generator(fcr, el), data);
    EncodedIsCodeword(fcr, el, data);
    if IsCodeword(fcr, el, data + p) {
      DistanceConcat(data, p, q);
      MinimumDistance(fcr, el, data + p, data + q);
      assert p == (data + p)[|data|..] && q == (data + q)[|data|..];
    }
  }
}
