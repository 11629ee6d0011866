/** The coder object of rscode.c: tables filled by loops, the generator polynomial multiplied out
    in place and stored in index form, and the encoder that works on the parity buffer. */
module RsCoder {
  import opened GF256
  import opened Polynomial
  import opened ReedSolomon

  /** Index form of zero. */
  const A0: bv8 := 255

  lemma LogProduct(a: bv8, b: bv8)
    requires a != 0 && b != 0
    ensures Alpha((Log(a) + Log(b)) % ORDER) == Mul(a, b)
  {
    hide Mul, Alpha;
    MulAlphas(Log(a), Log(b));
    AlphaMod(Log(a) + Log(b));
  }

  lemma RootProduct(a: bv8, root: nat)
    requires a != 0
    ensures Alpha((Log(a) + root) % ORDER) == Mul(Alpha(root), a)
  {
    hide Mul, Alpha;
    MulAlphas(root, Log(a));
    AlphaMod(Log(a) + root);
  }

  lemma AlphaMod(i: nat)
    ensures Alpha(i % ORDER) == Alpha(i)
  {
    TimesXnMod(i, 1);
  }

  /** x modulo 255, by folding the high bits onto the low ones. */
  method Modnn(x: nat) returns (r: nat)
    ensures r == x % ORDER
  {
    r := x;
    while r >= ORDER
      invariant r % ORDER == x % ORDER
    {
      FoldByte(r - ORDER);
      r := r - ORDER;
      r := r / 256 + r % 256;
    }
  }

  lemma FoldByte(r: nat)
    ensures (r / 256 + r % 256) % ORDER == r % ORDER && (r + ORDER) % ORDER == r % ORDER
  {
    var q, m := r / 256, r % 256;
    assert r == ORDER * q + (q + m);
  }

  /** The log tables: alphaTo[i] == alpha^i with 0 at A0, and indexOf its inverse. */
  ghost predicate Tables(alphaTo: seq<bv8>, indexOf: seq<bv8>) {
    && |alphaTo| == 256 && |indexOf| == 256
    && alphaTo[255] == 0 && indexOf[0] == A0
    && (forall i :: 0 <= i < ORDER ==> alphaTo[i] == Alpha(i))
    && (forall i :: 0 <= i < ORDER ==> indexOf[Value(Alpha(i))] == Byte(i))
  }

  lemma IndexOfNonzero(alphaTo: seq<bv8>, indexOf: seq<bv8>, b: bv8)
    requires Tables(alphaTo, indexOf) && b != 0
    ensures Value(indexOf[Value(b)]) == Log(b) && indexOf[Value(b)] != A0
  {
    hide Alpha, Value, Byte;
    ByteConstants();
    var i := Log(b);
    assert indexOf[Value(Alpha(i))] == Byte(i);
  }

  lemma SlotsDistinct(i: nat)
    requires i < ORDER
    ensures 1 <= Value(Alpha(i))
    ensures forall k :: 0 <= k < i ==> Value(Alpha(k)) != Value(Alpha(i))
  {
    hide Alpha, Value;
    NonzeroValue(i);
    forall k | 0 <= k < i ensures Value(Alpha(k)) != Value(Alpha(i)) {
      AlphaValueInjective(k, i);
    }
  }

  lemma AlphaNext(i: nat)
    ensures Alpha(i + 1) == TimesX(Alpha(i)) && Alpha(0) == 1
  {}

  /** The step `sr <<= 1; if (sr & 0x100) sr ^= 0x11d; sr &= 0xff`. */
  function ShiftAndReduce(sr: bv16): bv16 {
    var shifted := sr << 1;
    (if shifted & 0x100 != 0 then shifted ^ 0x11d else shifted) & 0xff
  }

  /** The register sr holds the byte b. */
  predicate Holds(sr: bv16, b: bv8) {
    sr == b as bv16
  }

  /** The register's low byte. */
  function LowByte(sr: bv16): bv8 {
    (sr & 0xff) as bv8
  }

  lemma ShiftIsTimesX(sr: bv16, b: bv8)
    requires Holds(sr, b)
    ensures Holds(ShiftAndReduce(sr), TimesX(b)) && LowByte(sr) == b
  {}

  lemma RegisterStartsAndEndsAtOne(sr: bv16)
    ensures sr == 1 <==> Holds(sr, Alpha(0))
    ensures sr == 1 <==> Holds(sr, Alpha(ORDER))
  {
    hide Alpha;
    AlphaNext(0);
    AlphaPowers();
  }

  /** Fills the tables.  The shift register ends at 1 again, so the primitivity test that
      follows in the source never fails. */
  method FillTables(alphaTo: array<bv8>, indexOf: array<bv8>) returns (sr: bv16)
    requires alphaTo != indexOf && alphaTo.Length == 256 && indexOf.Length == 256
    modifies alphaTo, indexOf
    ensures Tables(alphaTo[..], indexOf[..]) && sr == 1
  {
    hide Alpha, ShiftAndReduce, TimesX, Value, Byte, Holds, LowByte;
    indexOf[0] := A0;
    alphaTo[255] := 0;
    sr := 1;
    RegisterStartsAndEndsAtOne(sr);
    for i := 0 to 255
      invariant Holds(sr, Alpha(i))
      invariant alphaTo[255] == 0 && indexOf[0] == A0
      invariant forall k :: 0 <= k < i ==> alphaTo[k] == Alpha(k)
      invariant forall k :: 0 <= k < i ==> indexOf[Value(Alpha(k))] == Byte(k)
    {
      SlotsDistinct(i);
      ShiftIsTimesX(sr, Alpha(i));
      indexOf[Value(LowByte(sr))] := Byte(i);
      alphaTo[i] := LowByte(sr);
      sr := ShiftAndReduce(sr);
      AlphaNext(i);
    }
    RegisterStartsAndEndsAtOne(sr);
  }

  /** Multiplies the generator polynomial out in place, one root at a time. */
  method BuildGenerator(alphaTo: array<bv8>, indexOf: array<bv8>, genpoly: array<bv8>, fcr: nat, nroots: nat)
    requires Tables(alphaTo[..], indexOf[..]) && genpoly.Length == nroots + 1
    requires genpoly != alphaTo && genpoly != indexOf && nroots < ORDER
    modifies genpoly
    ensures genpoly[..] == Generator(fcr, nroots)
  {
    hide Alpha, Value, Byte, Plus, Mul, Generator;
    genpoly[0] := 1;
    GeneratorZero(fcr);
    for i := 0 to nroots
      invariant Tables(alphaTo[..], indexOf[..])
      invariant forall k :: 0 <= k <= i ==> genpoly[k] == Generator(fcr, i)[k]
    {
      ghost var g, h := Generator(fcr, i), Generator(fcr, i + 1);
      var root := fcr + i;
      genpoly[i + 1] := 1;
      GeneratorMonic(fcr, i + 1);
      var j := i;
      while j > 0
        invariant 0 <= j <= i
        invariant Tables(alphaTo[..], indexOf[..])
        invariant forall k :: 0 <= k <= j ==> genpoly[k] == g[k]
        invariant forall k :: j < k <= i + 1 ==> genpoly[k] == h[k]
      {
        GeneratorStep(fcr, i, j);
        if genpoly[j] != 0 {
          var product := TimesRoot(alphaTo, indexOf, genpoly[j], root);
          genpoly[j] := Plus(genpoly[j - 1], product);
        } else {
          MulZero(Alpha(root));
          PlusLaws(genpoly[j - 1], 0, 0);
          genpoly[j] := genpoly[j - 1];
        }
        j := j - 1;
      }
      GeneratorStep(fcr, i, 0);
      GeneratorCoefficientsNonzero(fcr, i, 0);
      var product := TimesRoot(alphaTo, indexOf, genpoly[0], root);
      PlusLaws(0, product, 0);
      PlusLaws(product, 0, 0);
      genpoly[0] := product;
    }
  }

  lemma GeneratorZero(fcr: nat)
    ensures Generator(fcr, 0) == [1]
  {}

  /** a * alpha^root through the tables. */
  method TimesRoot(alphaTo: array<bv8>, indexOf: array<bv8>, a: bv8, root: nat) returns (r: bv8)
    requires Tables(alphaTo[..], indexOf[..]) && a != 0
    ensures r == Mul(Alpha(root), a)
  {
    hide Alpha, Value, Byte, Mul;
    IndexOfNonzero(alphaTo[..], indexOf[..], a);
    RootProduct(a, root);
    var i := Modnn(Value(indexOf[Value(a)]) + root);
    r := alphaTo[i];
  }

  /** The codec control block. */
  class Rs {
    const nroots: nat
    const fcr: nat
    const pad: nat
    const alphaTo: array<bv8>
    const indexOf: array<bv8>
    const genpoly: array<bv8>

    /** The tables are the log tables, and genpoly holds the logarithms of the generator. */
    ghost predicate Valid()
      reads alphaTo, indexOf, genpoly
    {
      && alphaTo.Length == 256 && indexOf.Length == 256 && Tables(alphaTo[..], indexOf[..])
      && nroots < ORDER && pad < ORDER - nroots && genpoly.Length == nroots + 1
      && alphaTo != indexOf && genpoly != alphaTo && genpoly != indexOf
      && forall j :: 0 <= j <= nroots ==> Indexes(genpoly[j], Generator(fcr, nroots)[j])
    }

    constructor (nroots: nat, fcr: nat, pad: nat, alphaTo: array<bv8>, indexOf: array<bv8>, genpoly: array<bv8>)
      ensures this.nroots == nroots && this.fcr == fcr && this.pad == pad
      ensures this.alphaTo == alphaTo && this.indexOf == indexOf && this.genpoly == genpoly
    {
      this.nroots, this.fcr, this.pad := nroots, fcr, pad;
      this.alphaTo, this.indexOf, this.genpoly := alphaTo, indexOf, genpoly;
    }

    /** The shift-register encoder, working in place on the parity buffer. */
    method Encode(data: seq<bv8>, parity: array<bv8>)
      requires Valid() && 1 <= nroots && |data| == ORDER - nroots - pad && parity.Length == nroots
      requires parity != alphaTo && parity != indexOf && parity != genpoly
      modifies parity
      ensures parity[..] == Parity(Generator(fcr, nroots), data)
      ensures IsCodeword(fcr, nroots, data + parity[..])
    {
      hide Plus, Mul, Alpha, Value, Generator, ShiftRegister, Tables, Indexes;
      ghost var g := Generator(fcr, nroots);
      for k := 0 to nroots
        invariant Valid()
        invariant forall t :: 0 <= t < k ==> parity[t] == 0
      {
        parity[k] := 0;
      }
      ParityStart(g, parity[..]);
      for i := 0 to |data|
        invariant Valid()
        invariant parity[..] == Parity(g, data[..i])
      {
        Step(data[i], parity);
        assert data[..i + 1][..i] == data[..i];
      }
      assert data[..|data|] == data;
      EncodedIsCodeword(fcr, nroots, data);
    }

    /** One data symbol through the register: feedback, then shift. */
    method Step(d: bv8, parity: array<bv8>)
      requires Valid() && 1 <= nroots && parity.Length == nroots
      requires parity != alphaTo && parity != indexOf && parity != genpoly
      modifies parity
      ensures Valid() && parity[..] == ShiftRegister(Generator(fcr, nroots), old(parity[..]), d)
    {
      hide Plus, Mul, Value, Generator, ShiftRegister, Tables, Indexes;
      ghost var g, before := Generator(fcr, nroots), parity[..];
      var symbol := Plus(d, parity[0]);
      var feedback := indexOf[Value(symbol)];
      ZeroIndex(alphaTo[..], indexOf[..], symbol);
      if feedback != A0 {
        AddFeedback(symbol, feedback, parity);
      } else {
        forall t | 1 <= t < nroots ensures before[t] == Plus(before[t], Mul(symbol, g[nroots - t])) {
          MulZero(g[nroots - t]);
          PlusLaws(before[t], 0, 0);
        }
      }
      Shift(parity);
      var last: bv8 := 0;
      if feedback != A0 {
        last := TimesGenerator(symbol, feedback, 0);
      } else {
        MulZero(g[0]);
      }
      parity[nroots - 1] := last;
      ShiftRegisterAt(g, before, d, parity[..]);
    }

    /** The memmove. */
    method Shift(parity: array<bv8>)
      requires Valid() && 1 <= nroots && parity.Length == nroots
      requires parity != alphaTo && parity != indexOf && parity != genpoly
      modifies parity
      ensures Valid() && forall k :: 0 <= k < nroots - 1 ==> parity[k] == old(parity[k + 1])
    {
      hide Tables, Indexes;
      for t := 0 to nroots - 1
        invariant forall k :: 0 <= k < t ==> parity[k] == old(parity[k + 1])
        invariant forall k :: t < k < nroots ==> parity[k] == old(parity[k])
        invariant Valid()
      {
        parity[t] := parity[t + 1];
      }
    }

    /** The first loop of a step: feedback times the generator is added, except at position 0. */
    method AddFeedback(symbol: bv8, feedback: bv8, parity: array<bv8>)
      requires Valid() && 1 <= nroots && parity.Length == nroots
      requires parity != alphaTo && parity != indexOf && parity != genpoly
      requires symbol != 0 && feedback == indexOf[Value(symbol)]
      modifies parity
      ensures Valid() && parity[0] == old(parity[0])
      ensures forall t :: 1 <= t < nroots ==> parity[t] == Plus(old(parity[t]), Mul(symbol, Generator(fcr, nroots)[nroots - t]))
    {
      hide Plus, Mul, Value, Generator, Tables, Indexes;
      ghost var g, before := Generator(fcr, nroots), parity[..];
      for j := 1 to nroots
        invariant Valid() && parity[0] == before[0]
        invariant forall t :: 1 <= t < j ==> parity[t] == Plus(before[t], Mul(symbol, g[nroots - t]))
        invariant forall t :: j <= t < nroots ==> parity[t] == before[t]
      {
        var product := TimesGenerator(symbol, feedback, nroots - j);
        parity[j] := Plus(parity[j], product);
      }
    }

    /** symbol * g[j]: the unguarded addition of index forms, modulo 255. */
    method TimesGenerator(symbol: bv8, feedback: bv8, j: nat) returns (r: bv8)
      requires Valid() && j <= nroots && symbol != 0 && feedback == indexOf[Value(symbol)]
      ensures r == Mul(symbol, Generator(fcr, nroots)[j])
    {
      hide Plus, Mul, Value, Generator;
      assert Indexes(genpoly[j], Generator(fcr, nroots)[j]);
      IndexOfNonzero(alphaTo[..], indexOf[..], symbol);
      LogProduct(symbol, Generator(fcr, nroots)[j]);
      var i := Modnn(Value(feedback) + Value(genpoly[j]));
      r := alphaTo[i];
    }
  }

  /** i is the index form of the nonzero byte c. */
  ghost predicate Indexes(i: bv8, c: bv8) {
    c != 0 && Value(i) == Log(c)
  }

  lemma ZeroIndex(alphaTo: seq<bv8>, indexOf: seq<bv8>, b: bv8)
    requires Tables(alphaTo, indexOf)
    ensures indexOf[Value(b)] == A0 <==> b == 0
  {
    ByteConstants();
    if b != 0 {
      IndexOfNonzero(alphaTo, indexOf, b);
    }
  }

  lemma ShiftRegisterAt(g: seq<bv8>, parity: seq<bv8>, d: bv8, r: seq<bv8>)
    requires |g| == |parity| + 1 && 1 <= |parity| == |r|
    requires var symbol := Plus(d, parity[0]); var el := |parity|;
      && (forall k :: 0 <= k < el - 1 ==> r[k] == Plus(parity[k + 1], Mul(symbol, g[el - 1 - k])))
      && r[el - 1] == Mul(symbol, g[0])
    ensures r == ShiftRegister(g, parity, d)
  {
    hide Plus, Mul;
    var symbol, el := Plus(d, parity[0]), |parity|;
    var shifted, low := parity[1..] + [0], Scale(symbol, Reverse(g[..el]));
    forall k | 0 <= k < el ensures r[k] == Add(shifted, low)[k] {
      assert low[k] == Mul(symbol, g[el - 1 - k]);
      PlusLaws(0, Mul(symbol, g[0]), 0);
      PlusLaws(Mul(symbol, g[0]), 0, 0);
    }
  }

  lemma ParityStart(g: seq<bv8>, p: seq<bv8>)
    requires 2 <= |g| == |p| + 1 && forall t :: 0 <= t < |p| ==> p[t] == 0
    ensures p == Parity(g, [])
  {}

  /** Builds the coder for the given parameters, or returns null when they are out of range. */
  method InitRsChar(fcr: int, nroots: int, pad: int) returns (rs: Rs?)
    ensures rs == null <==> fcr < 0 || 256 <= fcr || nroots < 0 || 256 <= nroots || pad < 0 || ORDER - nroots <= pad
    ensures rs != null ==> fresh(rs) && fresh(rs.alphaTo) && fresh(rs.indexOf) && fresh(rs.genpoly)
    ensures rs != null ==> rs.Valid() && rs.fcr == fcr && rs.nroots == nroots && rs.pad == pad
  {
    hide Tables, Value, Generator;
    if fcr < 0 || fcr >= 256 {
      return null;
    }
    if nroots < 0 || nroots >= 256 {
      return null;
    }
    if pad < 0 || pad >= ORDER - nroots {
      return null;
    }
    var alphaTo, indexOf := new bv8[256], new bv8[256];
    var sr := FillTables(alphaTo, indexOf);
    var genpoly := new bv8[nroots + 1];
    BuildGenerator(alphaTo, indexOf, genpoly, fcr, nroots);
    ghost var g := Generator(fcr, nroots);
    for i := 0 to nroots + 1
      invariant Tables(alphaTo[..], indexOf[..])
      invariant forall j :: 0 <= j < i ==> Indexes(genpoly[j], g[j])
      invariant forall j :: i <= j <= nroots ==> genpoly[j] == g[j]
    {
      GeneratorCoefficientsNonzero(fcr, nroots, i);
      IndexOfNonzero(alphaTo[..], indexOf[..], genpoly[i]);
      genpoly[i] := indexOf[Value(genpoly[i])];
    }
    rs := new Rs(nroots, fcr, pad, alphaTo, indexOf, genpoly);
  }
}
