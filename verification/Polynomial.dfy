/** Polynomials over GF(256), as the coefficient sequences that the coder keeps, the lowest power
    first, and Horner's rule for the highest power first. */
module Polynomial {
  import opened GF256

  ghost function Pow(x: bv8, n: nat): bv8 {
    if n == 0 then 1 else Mul(x, Pow(x, n - 1))
  }

  /** Value at x of the polynomial with coefficients p, constant term first. */
  ghost function Eval(p: seq<bv8>, x: bv8): bv8 {
    if p == [] then 0 else Plus(p[0], Mul(x, Eval(p[1..], x)))
  }

  /** Value at x of the polynomial with coefficients s, highest power first. */
  ghost function Horner(s: seq<bv8>, x: bv8): bv8 {
    if s == [] then 0 else Plus(Mul(x, Horner(s[..|s| - 1], x)), s[|s| - 1])
  }

  function Add(p: seq<bv8>, q: seq<bv8>): (r: seq<bv8>)
    requires |p| == |q|
    ensures |r| == |p|
  {
    seq(|p|, i requires 0 <= i < |p| => Plus(p[i], q[i]))
  }

  ghost function Scale(c: bv8, p: seq<bv8>): (r: seq<bv8>)
    ensures |r| == |p|
  {
    seq(|p|, i requires 0 <= i < |p| => Mul(c, p[i]))
  }

  /** p times (x + root). */
  ghost function TimesLinear(p: seq<bv8>, root: bv8): (r: seq<bv8>)
    ensures |r| == |p| + 1
  {
    Add([0] + p, Scale(root, p) + [0])
  }

  ghost function Reverse(p: seq<bv8>): (r: seq<bv8>)
    ensures |r| == |p|
  {
    seq(|p|, i requires 0 <= i < |p| => p[|p| - 1 - i])
  }

  lemma TimesLinearAt(p: seq<bv8>, root: bv8, j: nat)
    requires j <= |p|
    ensures TimesLinear(p, root)[j]
         == Plus(if j == 0 then 0 else p[j - 1], if j == |p| then 0 else Mul(root, p[j]))
  {
    hide Plus, Mul;
    var q, r := [0] + p, Scale(root, p) + [0];
    assert q[j] == if j == 0 then 0 else p[j - 1];
    assert r[j] == if j == |p| then 0 else Mul(root, p[j]);
    assert Add(q, r)[j] == Plus(q[j], r[j]);
  }

  lemma PowAlpha(i: nat, n: nat)
    ensures Pow(Alpha(i), n) == Alpha(i * n)
  {
    hide Mul;
    if n == 0 {
    } else {
      PowAlpha(i, n - 1);
      MulAlphas(i, i * (n - 1));
      assert i + i * (n - 1) == i * n;
    }
  }

  lemma {:induction false} EvalAdd(p: seq<bv8>, q: seq<bv8>, x: bv8)
    requires |p| == |q|
    ensures Eval(Add(p, q), x) == Plus(Eval(p, x), Eval(q, x))
  {
    hide Plus, Mul;
    if p == [] {
      PlusLaws(0, 0, 0);
    } else {
      var u, v := Eval(p[1..], x), Eval(q[1..], x);
      assert Add(p, q)[1..] == Add(p[1..], q[1..]);
      EvalAdd(p[1..], q[1..], x);
      MulPlus(x, u, v);
      PlusSwap(p[0], q[0], Mul(x, u), Mul(x, v));
    }
  }

  lemma {:induction false} EvalScale(c: bv8, p: seq<bv8>, x: bv8)
    ensures Eval(Scale(c, p) + [0], x) == Mul(c, Eval(p, x))
  {
    hide Plus, Mul;
    MulZero(c);
    MulZero(x);
    if p == [] {
      PlusLaws(0, 0, 0);
      assert Scale(c, p) + [0] == [0];
      assert [0 as bv8][1..] == [];
    } else {
      var u := Eval(p[1..], x);
      assert (Scale(c, p) + [0])[1..] == Scale(c, p[1..]) + [0];
      EvalScale(c, p[1..], x);
      MulPlus(c, p[0], Mul(x, u));
      MulSwap(c, x, u);
    }
  }

  lemma EvalTimesLinear(p: seq<bv8>, root: bv8, x: bv8)
    ensures Eval(TimesLinear(p, root), x) == Mul(Plus(x, root), Eval(p, x))
  {
    hide Plus, Mul;
    EvalAdd([0] + p, Scale(root, p) + [0], x);
    EvalScale(root, p, x);
    assert ([0] + p)[1..] == p;
    PlusLaws(0, Mul(x, Eval(p, x)), 0);
    PlusLaws(Mul(x, Eval(p, x)), 0, 0);
    MulPlus(Eval(p, x), x, root);
  }

  lemma {:induction false} HornerConcat(s: seq<bv8>, t: seq<bv8>, x: bv8)
    ensures Horner(s + t, x) == Plus(Mul(Horner(s, x), Pow(x, |t|)), Horner(t, x))
  {
    hide Plus, Mul;
    var n := |t|;
    if n == 0 {
      assert s + t == s;
      MulOne(Horner(s, x));
      PlusLaws(Horner(s, x), 0, 0);
    } else {
      var h, p, r := Horner(s, x), Pow(x, n - 1), Horner(t[..n - 1], x);
      assert (s + t)[..|s| + n - 1] == s + t[..n - 1];
      HornerConcat(s, t[..n - 1], x);
      MulPlus(x, Mul(h, p), r);
      MulSwap(x, h, p);
      PlusLaws(Mul(h, Mul(x, p)), Mul(x, r), t[n - 1]);
    }
  }

  lemma HornerFront(a: bv8, s: seq<bv8>, x: bv8)
    ensures Horner([a] + s, x) == Plus(Mul(a, Pow(x, |s|)), Horner(s, x))
  {
    hide Plus, Mul;
    HornerConcat([a], s, x);
    assert [a][..0] == [];
    MulZero(x);
    PlusLaws(0, a, 0);
    PlusLaws(a, 0, 0);
  }

  lemma {:induction false} HornerAdd(p: seq<bv8>, q: seq<bv8>, x: bv8)
    requires |p| == |q|
    ensures Horner(Add(p, q), x) == Plus(Horner(p, x), Horner(q, x))
  {
    hide Plus, Mul;
    if p == [] {
      PlusLaws(0, 0, 0);
    } else {
      var n := |p| - 1;
      var u, v := Horner(p[..n], x), Horner(q[..n], x);
      assert Add(p, q)[..n] == Add(p[..n], q[..n]);
      HornerAdd(p[..n], q[..n], x);
      MulPlus(x, u, v);
      PlusSwap(Mul(x, u), Mul(x, v), p[n], q[n]);
    }
  }

  lemma {:induction false} HornerScale(c: bv8, p: seq<bv8>, x: bv8)
    ensures Horner(Scale(c, p), x) == Mul(c, Horner(p, x))
  {
    hide Plus, Mul;
    if p == [] {
      MulZero(c);
    } else {
      var n := |p| - 1;
      var u := Horner(p[..n], x);
      assert Scale(c, p)[..n] == Scale(c, p[..n]);
      HornerScale(c, p[..n], x);
      MulPlus(c, Mul(x, u), p[n]);
      MulSwap(c, x, u);
    }
  }

  lemma {:induction false} HornerReverse(p: seq<bv8>, x: bv8)
    ensures Horner(Reverse(p), x) == Eval(p, x)
  {
    hide Plus, Mul;
    if p == [] {
    } else {
      var n := |p| - 1;
      assert Reverse(p)[..n] == Reverse(p[1..]);
      HornerReverse(p[1..], x);
      PlusLaws(p[0], Mul(x, Eval(p[1..], x)), 0);
    }
  }

  // ----- few nonzero terms cannot cancel at many consecutive powers -----

  /** Number of nonzero entries. */
  ghost function Weight(c: seq<bv8>): (w: nat)
    ensures w <= |c|
  {
    if c == [] then 0 else (if c[0] == 0 then 0 else 1) + Weight(c[1..])
  }

  /** The sum of c[i] * xs[i]^k. */
  ghost function PowerSum(k: nat, c: seq<bv8>, xs: seq<bv8>): bv8
    requires |c| == |xs|
  {
    if c == [] then 0 else Plus(Mul(c[0], Pow(xs[0], k)), PowerSum(k, c[1..], xs[1..]))
  }

  /** c[i] * (xs[i] + y): kills the entry at y and keeps every other. */
  ghost function Eliminate(c: seq<bv8>, xs: seq<bv8>, y: bv8): (r: seq<bv8>)
    requires |c| == |xs|
    ensures |r| == |c|
  {
    seq(|c|, i requires 0 <= i < |c| => Mul(c[i], Plus(xs[i], y)))
  }

  lemma {:induction false} PowerSumEliminate(k: nat, c: seq<bv8>, xs: seq<bv8>, y: bv8)
    requires |c| == |xs|
    ensures PowerSum(k, Eliminate(c, xs, y), xs)
         == Plus(PowerSum(k + 1, c, xs), Mul(y, PowerSum(k, c, xs)))
  {
    hide Plus, Mul;
    if c == [] {
      MulZero(y);
      PlusLaws(0, 0, 0);
    } else {
      var a, x, p := c[0], xs[0], Pow(xs[0], k);
      var s0, s1 := PowerSum(k, c[1..], xs[1..]), PowerSum(k + 1, c[1..], xs[1..]);
      assert Eliminate(c, xs, y)[1..] == Eliminate(c[1..], xs[1..], y);
      PowerSumEliminate(k, c[1..], xs[1..], y);
      EliminatedTerm(a, x, y, p);
      PlusSwap(Mul(a, Mul(x, p)), Mul(y, Mul(a, p)), s1, Mul(y, s0));
      MulPlus(y, Mul(a, p), s0);
    }
  }

  lemma EliminatedTerm(a: bv8, x: bv8, y: bv8, p: bv8)
    ensures Mul(Mul(a, Plus(x, y)), p) == Plus(Mul(a, Mul(x, p)), Mul(y, Mul(a, p)))
  {
    hide Plus, Mul;
    MulAssoc(a, Plus(x, y), p);
    MulPlus(p, x, y);
    MulPlus(a, Mul(x, p), Mul(y, p));
    MulSwap(a, y, p);
  }

  lemma {:induction false} WeightZero(c: seq<bv8>)
    ensures Weight(c) == 0 <==> forall i :: 0 <= i < |c| ==> c[i] == 0
  {
    if c == [] {
    } else {
      WeightZero(c[1..]);
      if forall i :: 0 <= i < |c| ==> c[i] == 0 {
        assert forall i :: 0 <= i < |c[1..]| ==> c[1..][i] == c[i + 1];
      }
      if Weight(c) == 0 {
        assert forall i :: 0 < i < |c| ==> c[i] == c[1..][i - 1];
      }
    }
  }

  /** Clearing one nonzero entry lowers the weight by one. */
  lemma {:induction false} WeightDrop(c: seq<bv8>, d: seq<bv8>, t: nat)
    requires |c| == |d| && t < |c| && c[t] != 0 && d[t] == 0
    requires forall i :: 0 <= i < |c| && i != t ==> (c[i] == 0 <==> d[i] == 0)
    ensures Weight(d) + 1 == Weight(c)
  {
    if t == 0 {
      WeightSame(c[1..], d[1..]);
    } else {
      WeightDrop(c[1..], d[1..], t - 1);
    }
  }

  lemma {:induction false} WeightSame(c: seq<bv8>, d: seq<bv8>)
    requires |c| == |d|
    requires forall i :: 0 <= i < |c| ==> (c[i] == 0 <==> d[i] == 0)
    ensures Weight(d) == Weight(c)
  {
    if c == [] {
    } else {
      WeightSame(c[1..], d[1..]);
    }
  }

  lemma {:induction false} PowerSumSingle(k: nat, c: seq<bv8>, xs: seq<bv8>, t: nat)
    requires |c| == |xs| && t < |c|
    requires forall i :: 0 <= i < |c| && i != t ==> c[i] == 0
    ensures PowerSum(k, c, xs) == Mul(c[t], Pow(xs[t], k))
  {
    hide Plus, Mul;
    if t == 0 {
      PowerSumZero(k, c[1..], xs[1..]);
      PlusLaws(Mul(c[0], Pow(xs[0], k)), 0, 0);
    } else {
      PowerSumSingle(k, c[1..], xs[1..], t - 1);
      MulZero(Pow(xs[0], k));
      PlusLaws(0, Mul(c[t], Pow(xs[t], k)), 0);
      PlusLaws(Mul(c[t], Pow(xs[t], k)), 0, 0);
    }
  }

  lemma {:induction false} PowerSumZero(k: nat, c: seq<bv8>, xs: seq<bv8>)
    requires |c| == |xs|
    requires forall i :: 0 <= i < |c| ==> c[i] == 0
    ensures PowerSum(k, c, xs) == 0
  {
    hide Plus, Mul;
    if c == [] {
    } else {
      PowerSumZero(k, c[1..], xs[1..]);
      MulZero(Pow(xs[0], k));
      PlusLaws(0, 0, 0);
    }
  }

  /** The Vandermonde argument: if at most m entries of c are nonzero, the xs are distinct,
      and the power sums of orders 0..m-1 all vanish, then c is zero. */
  lemma {:induction false} VandermondeZero(m: nat, c: seq<bv8>, xs: seq<bv8>)
    requires |c| == |xs| && Weight(c) <= m
    requires forall i, j :: 0 <= i < j < |xs| ==> xs[i] != xs[j]
    requires forall k: nat :: k < m ==> PowerSum(k, c, xs) == 0
    ensures forall i :: 0 <= i < |c| ==> c[i] == 0
    decreases m
  {
    hide Plus, Mul;
    WeightZero(c);
    if Weight(c) != 0 {
      var t :| 0 <= t < |c| && c[t] != 0;
      var y := xs[t];
      var d := Eliminate(c, xs, y);
      forall i | 0 <= i < |c| ensures d[i] == 0 <==> c[i] == 0 || i == t {
        PlusZero(xs[i], y);
        MulZero(c[i]);
        MulZero(Plus(xs[i], y));
        if c[i] != 0 && i != t {
          NoZeroDivisors(c[i], Plus(xs[i], y));
        }
      }
      WeightDrop(c, d, t);
      forall k: nat | k < m - 1 ensures PowerSum(k, d, xs) == 0 {
        PowerSumEliminate(k, c, xs, y);
        MulZero(y);
        PlusLaws(0, 0, 0);
      }
      VandermondeZero(m - 1, d, xs);
      PowerSumSingle(0, c, xs, t);
      MulOne(c[t]);
    }
  }
}
