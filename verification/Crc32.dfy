/** CRC-32, table-driven and eight bytes a round, proved equal to the shift register that takes
    one bit at a time. */
module Crc32 {
  import opened GF256

  const POLY: bv32 := 0xedb8_8320

  /** Addition of polynomials. */
  function Xor(a: bv32, b: bv32): bv32 {
    a ^ b
  }

  lemma XorComm(a: bv32, b: bv32)
    ensures Xor(a, b) == Xor(b, a)
  {}

  lemma XorAssoc(a: bv32, b: bv32, c: bv32)
    ensures Xor(Xor(a, b), c) == Xor(a, Xor(b, c))
  {}

  lemma XorZero(a: bv32)
    ensures Xor(a, 0) == a && Xor(0, a) == a && Xor(a, a) == 0
  {}

  lemma XorLaws(a: bv32, b: bv32, c: bv32)
    ensures Xor(a, b) == Xor(b, a) && Xor(Xor(a, b), c) == Xor(a, Xor(b, c))
    ensures Xor(a, 0) == a && Xor(0, a) == a && Xor(a, a) == 0 && Xor(Xor(a, b), b) == a
  {
    hide Xor;
    XorComm(a, b);
    XorAssoc(a, b, c);
    XorAssoc(a, b, b);
    XorZero(a);
    XorZero(b);
  }

  function Half(c: bv32): bv32 {
    c >> 1
  }

  predicate Odd(c: bv32) {
    c & 1 != 0
  }

  /** The register is multiplied by x: right shift, and the polynomial is added when a one falls out. */
  function Step(c: bv32): bv32 {
    if Odd(c) then Xor(POLY, Half(c)) else Half(c)
  }

  lemma HalfXor(a: bv32, b: bv32)
    ensures Half(Xor(a, b)) == Xor(Half(a), Half(b))
  {}

  lemma OddXor(a: bv32, b: bv32)
    ensures Odd(Xor(a, b)) <==> Odd(a) != Odd(b)
  {}

  lemma StepXor(a: bv32, b: bv32)
    ensures Step(Xor(a, b)) == Xor(Step(a), Step(b))
  {
    hide Xor, Half, Odd;
    var x, y := Half(a), Half(b);
    HalfXor(a, b);
    OddXor(a, b);
    XorAssoc(POLY, x, y);
    XorAssoc(x, POLY, y);
    XorComm(x, POLY);
    XorComm(x, Xor(POLY, y));
    XorAssoc(POLY, y, x);
    XorComm(x, y);
    XorAssoc(Xor(POLY, x), POLY, y);
    XorAssoc(x, POLY, POLY);
    XorZero(POLY);
    XorZero(x);
  }

  /** The polynomial has the highest bit, so a step loses nothing. */
  lemma StepInjective(a: bv32, b: bv32)
    requires Step(a) == Step(b)
    ensures a == b
  {
    hide Half, Odd, Xor;
    HalfTop(a);
    HalfTop(b);
    XorTop(Half(a));
    XorTop(Half(b));
    XorLaws(Half(a), POLY, 0);
    XorLaws(Half(b), POLY, 0);
    XorComm(Half(a), POLY);
    XorComm(Half(b), POLY);
    HalfInjective(a, b);
  }

  predicate Top(c: bv32) {
    c & 0x8000_0000 != 0
  }

  lemma HalfTop(c: bv32)
    ensures !Top(Half(c))
  {}

  lemma XorTop(c: bv32)
    ensures Top(Xor(POLY, c)) <==> !Top(c)
  {}

  lemma HalfInjective(a: bv32, b: bv32)
    ensures Half(a) == Half(b) && Odd(a) == Odd(b) ==> a == b
  {}

  function Steps(n: nat, c: bv32): bv32 {
    if n == 0 then c else Steps(n - 1, Step(c))
  }

  lemma {:induction false} StepsXor(n: nat, a: bv32, b: bv32)
    ensures Steps(n, Xor(a, b)) == Xor(Steps(n, a), Steps(n, b))
  {
    hide Xor, Step;
    if n > 0 {
      StepXor(a, b);
      StepsXor(n - 1, Step(a), Step(b));
    }
  }

  lemma {:induction false} StepsInjective(n: nat, a: bv32, b: bv32)
    requires Steps(n, a) == Steps(n, b)
    ensures a == b
  {
    hide Step;
    if n > 0 {
      StepsInjective(n - 1, Step(a), Step(b));
      StepInjective(a, b);
    }
  }

  lemma {:induction false} StepsJoin(m: nat, n: nat, c: bv32)
    ensures Steps(m + n, c) == Steps(n, Steps(m, c))
  {
    hide Step;
    if m > 0 {
      StepsJoin(m - 1, n, Step(c));
    }
  }

  // ----- the reference: one bit at a time -----

  /** Bit k of a byte, the lowest first. */
  predicate BitOf(b: bv8, k: nat) {
    match k
    case 0 => b & 0x01 != 0
    case 1 => b & 0x02 != 0
    case 2 => b & 0x04 != 0
    case 3 => b & 0x08 != 0
    case 4 => b & 0x10 != 0
    case 5 => b & 0x20 != 0
    case 6 => b & 0x40 != 0
    case _ => b & 0x80 != 0
  }

  /** One incoming bit. */
  function Feed(c: bv32, bit: bool): bv32 {
    Step(Xor(c, if bit then 1 else 0))
  }

  /** The first k bits of a byte. */
  function FeedBits(c: bv32, b: bv8, k: nat): bv32 {
    if k == 0 then c else Feed(FeedBits(c, b, k - 1), BitOf(b, k - 1))
  }

  /** The register after a message. */
  function Register(c: bv32, data: seq<bv8>): bv32
    decreases |data|
  {
    if data == [] then c else Register(FeedBits(c, data[0], 8), data[1..])
  }

  lemma {:induction false} RegisterJoin(c: bv32, a: seq<bv8>, b: seq<bv8>)
    ensures Register(c, a + b) == Register(Register(c, a), b)
    decreases |a|
  {
    hide FeedBits;
    if a == [] {
      assert a + b == b;
    } else {
      assert (a + b)[1..] == a[1..] + b;
      RegisterJoin(FeedBits(c, a[0], 8), a[1..], b);
    }
  }

  // ----- a whole byte at once -----

  function Unit(k: nat): bv32 {
    match k case 0 => 1 case 1 => 2 case 2 => 4 case 3 => 8 case 4 => 16 case 5 => 32 case 6 => 64 case _ => 128
  }

  function Part(b: bv8, k: nat): bv32 {
    if BitOf(b, k) then Unit(k) else 0
  }

  /** The first k bits of a byte as a number. */
  function Low(b: bv8, k: nat): bv32 {
    if k == 0 then 0 else Xor(Low(b, k - 1), Part(b, k - 1))
  }

  lemma StepUnit(k: nat)
    requires 1 <= k < 8
    ensures Step(Unit(k)) == Unit(k - 1)
  {}

  lemma {:induction false} StepsUnit(k: nat)
    requires k < 8
    ensures Steps(k, Unit(k)) == 1
  {
    hide Step, Unit;
    if k == 0 {
      assert Unit(0) == 1 by { UnitZero(); }
    } else {
      StepUnit(k);
      StepsUnit(k - 1);
    }
  }

  lemma UnitZero()
    ensures Unit(0) == 1
  {}

  lemma {:induction false} StepsNothing(n: nat)
    ensures Steps(n, 0) == 0
  {
    if n > 0 {
      assert Step(0) == 0;
      StepsNothing(n - 1);
    }
  }

  /** Feeding bits one by one is adding them all and then stepping. */
  lemma {:induction false} FeedBitsAtOnce(c: bv32, b: bv8, k: nat)
    requires k <= 8
    ensures FeedBits(c, b, k) == Steps(k, Xor(c, Low(b, k)))
  {
    hide Xor, Step, BitOf, Unit;
    if k == 0 {
      XorLaws(c, 0, 0);
    } else {
      FeedBitsAtOnce(c, b, k - 1);
      var bit := BitOf(b, k - 1);
      var unit: bv32 := if bit then Unit(k - 1) else 0;
      var before := Xor(c, Low(b, k - 1));
      StepsUnit(k - 1);
      StepsNothing(k - 1);
      StepsXor(k - 1, before, unit);
      XorLaws(c, Low(b, k - 1), unit);
      StepsJoin(k - 1, 1, Xor(before, unit));
      assert Steps(1, Steps(k - 1, Xor(before, unit))) == Step(Steps(k - 1, Xor(before, unit)));
    }
  }

  function Wide(b: bv8): bv32 {
    b as bv32
  }

  lemma LowIsByte(b: bv8)
    ensures Low(b, 8) == Wide(b)
  {
    hide Part, Wide, Xor;
    assert Low(b, 0) == 0;
    assert Low(b, 2) == Xor(Xor(0, Part(b, 0)), Part(b, 1));
    assert Low(b, 4) == Xor(Xor(Low(b, 2), Part(b, 2)), Part(b, 3));
    assert Low(b, 6) == Xor(Xor(Low(b, 4), Part(b, 4)), Part(b, 5));
    assert Low(b, 8) == Xor(Xor(Low(b, 6), Part(b, 6)), Part(b, 7));
    PartsAddUp(b);
  }

  lemma PartsAddUp(b: bv8)
    ensures Xor(Xor(Xor(Xor(Xor(Xor(Xor(Xor(0,
      Part(b, 0)), Part(b, 1)), Part(b, 2)), Part(b, 3)), Part(b, 4)), Part(b, 5)), Part(b, 6)), Part(b, 7)) == Wide(b)
  {}

  lemma ByteAtOnce(c: bv32, b: bv8)
    ensures FeedBits(c, b, 8) == Steps(8, Xor(c, Wide(b)))
  {
    hide Xor, Step, Low, Wide;
    FeedBitsAtOnce(c, b, 8);
    LowIsByte(b);
  }

  // ----- the table -----

  function LowByte(c: bv32): bv8 {
    (c & 0xff) as bv8
  }

  function High(c: bv32): bv32 {
    c & 0xffff_ff00
  }

  function Shift8(c: bv32): bv32 {
    c >> 8
  }

  lemma HighHalves(c: bv32)
    requires LowByte(c) == 0
    ensures !Odd(c) && !Odd(Half(c)) && !Odd(Half(Half(c))) && !Odd(Half(Half(Half(c))))
  {}

  lemma HighHalvesOn(c: bv32)
    requires LowByte(c) == 0
    ensures var d := Half(Half(Half(Half(c)))); !Odd(d) && !Odd(Half(d)) && !Odd(Half(Half(d))) && !Odd(Half(Half(Half(d))))
    ensures Half(Half(Half(Half(Half(Half(Half(Half(c)))))))) == Shift8(c)
  {}

  lemma StepsUnfold(n: nat, c: bv32)
    requires 1 <= n
    ensures Steps(n, c) == Steps(n - 1, Step(c)) && (!Odd(c) ==> Steps(n, c) == Steps(n - 1, Half(c)))
  {
    hide Odd, Half, Xor;
  }

  /** Eight steps only shift when the low byte is zero. */
  lemma StepsShift(c: bv32)
    requires LowByte(c) == 0
    ensures Steps(8, c) == Shift8(c)
  {
    hide Step, Odd, Half, Shift8, LowByte, Steps;
    HighHalves(c);
    HighHalvesOn(c);
    var c1 := Half(c);
    var c2 := Half(c1);
    var c3 := Half(c2);
    var c4 := Half(c3);
    var c5 := Half(c4);
    var c6 := Half(c5);
    var c7 := Half(c6);
    StepsUnfold(8, c);
    StepsUnfold(7, c1);
    StepsUnfold(6, c2);
    StepsUnfold(5, c3);
    StepsUnfold(4, c4);
    StepsUnfold(3, c5);
    StepsUnfold(2, c6);
    StepsUnfold(1, c7);
    StepsDone(Half(c7));
  }

  lemma SplitLow(x: bv32)
    ensures x == Xor(Wide(LowByte(x)), High(x)) && LowByte(High(x)) == 0 && Shift8(High(x)) == Shift8(x)
  {}

  lemma ByteShiftedOut(c: bv32, b: bv8)
    ensures Shift8(Xor(c, Wide(b))) == Shift8(c)
  {}

  /** The entry of the table for a byte. */
  function Entry(b: bv8): bv32 {
    Steps(8, Wide(b))
  }

  ghost predicate IsTable(table: seq<bv32>) {
    |table| == 256 && forall b: bv8 :: table[Value(b)] == Entry(b)
  }

  /** DO1: the low byte selects an entry. */
  function Do1(table: seq<bv32>, crc: bv32, b: bv8): bv32
    requires |table| == 256
  {
    Xor(table[Value(LowByte(Xor(crc, Wide(b))))], Shift8(crc))
  }

  /** A look-up is eight steps of the register. */
  lemma Do1IsFeed(table: seq<bv32>, crc: bv32, b: bv8)
    requires IsTable(table)
    ensures Do1(table, crc, b) == FeedBits(crc, b, 8)
  {
    hide Xor, Steps, Wide, LowByte, Value, High, Shift8, FeedBits;
    var x := Xor(crc, Wide(b));
    SplitLow(x);
    ByteShiftedOut(crc, b);
    ByteAtOnce(crc, b);
    StepsXor(8, Wide(LowByte(x)), High(x));
    StepsShift(High(x));
  }

  /** The exponents of the polynomial, x^32 aside. */
  function Term(n: nat): nat {
    match n
    case 0 => 0 case 1 => 1 case 2 => 2 case 3 => 4 case 4 => 5 case 5 => 7 case 6 => 8 case 7 => 10
    case 8 => 11 case 9 => 12 case 10 => 16 case 11 => 22 case 12 => 23 case _ => 26
  }

  /** 1 << (31 - p), the place of x^p. */
  function TermBit(p: nat): bv32 {
    match p
    case 0 => 0x8000_0000 case 1 => 0x4000_0000 case 2 => 0x2000_0000 case 4 => 0x0800_0000 case 5 => 0x0400_0000
    case 7 => 0x0100_0000 case 8 => 0x0080_0000 case 10 => 0x0020_0000 case 11 => 0x0010_0000 case 12 => 0x0008_0000
    case 16 => 0x0000_8000 case 22 => 0x0000_0200 case 23 => 0x0000_0100 case 26 => 0x0000_0020 case _ => 0
  }

  function TermsUpTo(n: nat): bv32 {
    if n == 0 then 0 else TermsUpTo(n - 1) | TermBit(Term(n - 1))
  }

  /** The fourteen terms spell the pattern. */
  lemma TermsMakePoly()
    ensures TermsUpTo(0) == 0 && TermsUpTo(14) == POLY
  {
    assert TermsUpTo(4) == 0xe800_0000;
    assert TermsUpTo(8) == 0xeda0_0000;
    assert TermsUpTo(12) == 0xedb8_8200;
  }

  /** make_crc_table, with the polynomial as computed from its terms. */
  method MakeCrcTable(table: array<bv32>)
    requires table.Length == 256
    modifies table
    ensures IsTable(table[..])
  {
    hide Step, Steps, Wide, Value, TermBit, Term, Byte, Odd, Half, Xor;
    TermsMakePoly();
    var poly: bv32 := 0;
    for n := 0 to 14
      invariant poly == TermsUpTo(n)
    {
      poly := poly | TermBit(Term(n));
    }
    hide TermsUpTo;
    for n := 0 to 256
      invariant forall b: bv8 :: Value(b) < n ==> table[Value(b)] == Entry(b)
    {
      var byte := Byte(n);
      var c := Wide(byte);
      for k := 0 to 8
        invariant forall b: bv8 :: Value(b) < n ==> table[Value(b)] == Entry(b)
        invariant Steps(8 - k, c) == Entry(byte)
      {
        StepOnce(8 - k, c);
        c := if c & 1 != 0 then poly ^ (c >> 1) else c >> 1;
      }
      StepsDone(c);
      table[n] := c;
      forall b: bv8 | Value(b) < n + 1 ensures table[Value(b)] == Entry(b) {
        if Value(b) == n {
          ValueInjective(b, byte);
        }
      }
    }
  }

  lemma StepOnce(n: nat, c: bv32)
    requires 1 <= n
    ensures Steps(n, c) == Steps(n - 1, if c & 1 != 0 then POLY ^ (c >> 1) else c >> 1)
  {
    hide Steps;
    StepsUnfold(n, c);
  }

  lemma StepsDone(c: bv32)
    ensures Steps(0, c) == c
  {}

  // ----- crc32 -----

  lemma RegisterStep(table: seq<bv32>, c: bv32, buf: seq<bv8>, p: nat)
    requires IsTable(table) && p < |buf|
    ensures Register(c, buf[p..]) == Register(Do1(table, c, buf[p]), buf[p + 1..])
  {
    hide FeedBits, Do1, IsTable;
    Do1IsFeed(table, c, buf[p]);
    assert buf[p..][1..] == buf[p + 1..];
  }

  function Complement(c: bv32): bv32 {
    Xor(c, 0xffff_ffff)
  }

  /** What crc32 computes. */
  function Crc(c: bv32, data: seq<bv8>): bv32 {
    Complement(Register(Complement(c), data))
  }

  /** crc32: eight bytes a round, and then the rest one by one. */
  method Crc32(table: array<bv32>, start: bv32, buf: seq<bv8>) returns (crc: bv32)
    requires IsTable(table[..])
    ensures crc == Crc(start, buf)
  {
    hide Register, Do1, Xor, IsTable;
    var t := table[..];
    var len, p := |buf|, 0;
    crc := Complement(start);
    ghost var want := Register(crc, buf);
    assert buf[0..] == buf;
    while len >= 8
      invariant p + len == |buf| && 0 <= p && 0 <= len && Register(crc, buf[p..]) == want
    {
      crc := Do1Next(t, crc, buf, p, want);
      crc := Do1Next(t, crc, buf, p + 1, want);
      crc := Do1Next(t, crc, buf, p + 2, want);
      crc := Do1Next(t, crc, buf, p + 3, want);
      crc := Do1Next(t, crc, buf, p + 4, want);
      crc := Do1Next(t, crc, buf, p + 5, want);
      crc := Do1Next(t, crc, buf, p + 6, want);
      crc := Do1Next(t, crc, buf, p + 7, want);
      p := p + 8;
      len := len - 8;
    }
    while len != 0
      invariant p + len == |buf| && 0 <= p && 0 <= len && Register(crc, buf[p..]) == want
    {
      crc := Do1Next(t, crc, buf, p, want);
      p := p + 1;
      len := len - 1;
    }
    assert buf[p..] == [];
    RegisterEmpty(crc);
    crc := Complement(crc);
  }

  /** DO1 in the loop: what is left of the message keeps its register. */
  method Do1Next(table: seq<bv32>, crc: bv32, buf: seq<bv8>, p: nat, ghost want: bv32) returns (r: bv32)
    requires IsTable(table) && p < |buf| && Register(crc, buf[p..]) == want
    ensures Register(r, buf[p + 1..]) == want && r == FeedBits(crc, buf[p], 8)
  {
    hide Register, Do1, FeedBits, IsTable;
    RegisterStep(table, crc, buf, p);
    Do1IsFeed(table, crc, buf[p]);
    TableSize(table);
    r := Do1(table, crc, buf[p]);
  }

  lemma TableSize(table: seq<bv32>)
    requires IsTable(table)
    ensures |table| == 256
  {}

  lemma RegisterEmpty(c: bv32)
    ensures Register(c, []) == c
  {}

  lemma ComplementTwice(c: bv32)
    ensures Complement(Complement(c)) == c && Complement(0) == 0xffff_ffff
  {}

  /** A message in two parts: the result for the first is the start for the second. */
  lemma CrcJoin(c: bv32, a: seq<bv8>, b: seq<bv8>)
    ensures Crc(Crc(c, a), b) == Crc(c, a + b)
  {
    hide Complement, Register;
    RegisterJoin(Complement(c), a, b);
    ComplementTwice(Register(Complement(c), a));
  }

  // ----- the image check -----

  /** hndcrc32: no complements. */
  method HndCrc32(table: array<bv32>, pdata: seq<bv8>, start: bv32) returns (crc: bv32)
    requires IsTable(table[..])
    ensures crc == Register(start, pdata)
  {
    hide Register, Do1, IsTable;
    crc := start;
    var p := 0;
    assert pdata[0..] == pdata;
    while p < |pdata|
      invariant 0 <= p <= |pdata| && Register(crc, pdata[p..]) == Register(start, pdata)
    {
      crc := Do1Next(table[..], crc, pdata, p, Register(start, pdata));
      p := p + 1;
    }
    assert pdata[p..] == [];
    RegisterEmpty(crc);
  }

  function Flatten(chunks: seq<seq<bv8>>): seq<bv8> {
    if chunks == [] then [] else chunks[0] + Flatten(chunks[1..])
  }

  /** The loop of caculate_crc_file: for any chunking of the image the result is the complement of
      the crc32 of the whole. */
  method CaculateCrc(table: array<bv32>, chunks: seq<seq<bv8>>) returns (crc: bv32)
    requires IsTable(table[..])
    ensures crc == Complement(Crc(0, Flatten(chunks)))
  {
    hide Register, IsTable, Complement;
    crc := 0xffff_ffff;
    ghost var want := Register(crc, Flatten(chunks));
    assert chunks[0..] == chunks;
    for i := 0 to |chunks|
      invariant Register(crc, Flatten(chunks[i..])) == want
    {
      assert chunks[i..][1..] == chunks[i + 1..];
      RegisterJoin(crc, chunks[i], Flatten(chunks[i + 1..]));
      crc := HndCrc32(table, chunks[i], crc);
    }
    assert chunks[|chunks|..] == [];
    RegisterEmpty(crc);
    ComplementTwice(0);
    ComplementTwice(want);
  }

  // ----- what the check detects -----

  function Up8(w: bv32): bv32 {
    w << 8
  }

  /** Up to four bytes as one word, the first in the low byte. */
  function Word(x: seq<bv8>): bv32 {
    if x == [] then 0 else Xor(Wide(x[0]), Up8(Word(x[1..])))
  }

  /** w has at most one, two or three bytes. */
  predicate OneByte(w: bv32) {
    w & 0xffff_ff00 == 0
  }

  predicate TwoBytes(w: bv32) {
    w & 0xffff_0000 == 0
  }

  predicate ThreeBytes(w: bv32) {
    w & 0xff00_0000 == 0
  }

  predicate InBytes(w: bv32, n: nat) {
    match n
    case 0 => w == 0
    case 1 => OneByte(w)
    case 2 => TwoBytes(w)
    case 3 => ThreeBytes(w)
    case _ => true
  }

  lemma FirstByte(b: bv8)
    ensures OneByte(Xor(Wide(b), Up8(0)))
  {}

  lemma SecondByte(w: bv32, b: bv8)
    requires OneByte(w)
    ensures TwoBytes(Xor(Wide(b), Up8(w)))
  {}

  lemma ThirdByte(w: bv32, b: bv8)
    requires TwoBytes(w)
    ensures ThreeBytes(Xor(Wide(b), Up8(w)))
  {}

  lemma OneByteMore(w: bv32, b: bv8, n: nat)
    requires n <= 3 && InBytes(w, n)
    ensures InBytes(Xor(Wide(b), Up8(w)), n + 1)
  {
    hide OneByte, TwoBytes, ThreeBytes, Xor, Wide, Up8;
    if n == 0 {
      FirstByte(b);
    } else if n == 1 {
      SecondByte(w, b);
    } else if n == 2 {
      ThirdByte(w, b);
    }
  }

  lemma NarrowOne(w: bv32)
    requires OneByte(w)
    ensures TwoBytes(w)
  {
    var m: bv32 := 0xffff_ff00;
    assert w & 0xffff_0000 == (w & m) & 0xffff_0000;
  }

  lemma NarrowTwo(w: bv32)
    requires TwoBytes(w)
    ensures ThreeBytes(w)
  {
    var m: bv32 := 0xffff_0000;
    assert w & 0xff00_0000 == (w & m) & 0xff00_0000;
  }

  lemma NarrowNone()
    ensures OneByte(0)
  {}

  lemma Fewer(w: bv32, n: nat)
    requires n <= 3 && InBytes(w, n)
    ensures ThreeBytes(w)
  {
    hide OneByte, TwoBytes, ThreeBytes;
    NarrowNone();
    if n <= 1 {
      NarrowOne(w);
    }
    if n <= 2 {
      NarrowTwo(w);
    }
  }

  lemma UpAndDown(w: bv32)
    requires ThreeBytes(w)
    ensures LowByte(Up8(w)) == 0 && Shift8(Up8(w)) == w
  {}

  lemma {:induction false} WordSmall(x: seq<bv8>)
    requires |x| <= 4
    ensures InBytes(Word(x), |x|)
  {
    hide Xor, Wide, Up8, InBytes;
    if x == [] {
      NoBytes();
    } else {
      WordSmall(x[1..]);
      OneByteMore(Word(x[1..]), x[0], |x| - 1);
    }
  }

  lemma NoBytes()
    ensures InBytes(0, 0)
  {}

  /** A short message enters the register as one word. */
  lemma {:induction false} RegisterOfWord(c: bv32, x: seq<bv8>)
    requires |x| <= 4
    ensures Register(c, x) == Steps(8 * |x|, Xor(c, Word(x)))
    decreases |x|
  {
    hide Xor, Wide, FeedBits, Step, Steps, Up8, Shift8, LowByte, InBytes, ThreeBytes;
    if x == [] {
      XorLaws(c, 0, 0);
      StepsDone(c);
    } else {
      var b, w := x[0], Word(x[1..]);
      RegisterOfWord(FeedBits(c, b, 8), x[1..]);
      ByteAtOnce(c, b);
      WordSmall(x[1..]);
      Fewer(w, |x| - 1);
      UpAndDown(w);
      StepsShift(Up8(w));
      StepsXor(8, Xor(c, Wide(b)), Up8(w));
      XorAssoc(c, Wide(b), Up8(w));
      StepsJoin(8, 8 * |x[1..]|, Xor(c, Word(x)));
    }
  }

  lemma {:induction false} WordInjective(x: seq<bv8>, y: seq<bv8>)
    requires |x| == |y| <= 4 && Word(x) == Word(y)
    ensures x == y
  {
    hide Xor, Wide, Up8, InBytes, ThreeBytes;
    if x != [] {
      WordSmall(x[1..]);
      WordSmall(y[1..]);
      Fewer(Word(x[1..]), |x| - 1);
      Fewer(Word(y[1..]), |x| - 1);
      WordParts(x[0], Word(x[1..]), y[0], Word(y[1..]));
      WordInjective(x[1..], y[1..]);
      assert x == [x[0]] + x[1..] && y == [y[0]] + y[1..];
    }
  }

  lemma WordParts(a: bv8, v: bv32, b: bv8, w: bv32)
    requires ThreeBytes(v) && ThreeBytes(w) && Xor(Wide(a), Up8(v)) == Xor(Wide(b), Up8(w))
    ensures a == b && v == w
  {
    hide Xor, Wide, Up8, LowByte, Shift8, ThreeBytes;
    WordTaken(a, v);
    WordTaken(b, w);
  }

  lemma WordTaken(a: bv8, v: bv32)
    requires ThreeBytes(v)
    ensures LowByte(Xor(Wide(a), Up8(v))) == a && Shift8(Xor(Wide(a), Up8(v))) == v
  {}

  lemma {:induction false} RegisterInjective(c: bv32, d: bv32, data: seq<bv8>)
    requires Register(c, data) == Register(d, data)
    ensures c == d
    decreases |data|
  {
    hide FeedBits, Steps, Xor, Wide;
    if data != [] {
      var b := data[0];
      RegisterInjective(FeedBits(c, b, 8), FeedBits(d, b, 8), data[1..]);
      ByteAtOnce(c, b);
      ByteAtOnce(d, b);
      StepsInjective(8, Xor(c, Wide(b)), Xor(d, Wide(b)));
      XorLaws(c, Wide(b), 0);
      XorLaws(d, Wide(b), 0);
    }
  }

  /** Damage within any four neighbouring bytes always changes the checksum. */
  lemma DamageIsDetected(c: bv32, prefix: seq<bv8>, x: seq<bv8>, y: seq<bv8>, suffix: seq<bv8>)
    requires |x| == |y| <= 4
    ensures Crc(c, prefix + x + suffix) == Crc(c, prefix + y + suffix) <==> x == y
  {
    hide Register, Complement, Steps, Xor, Word;
    var s := Complement(c);
    var p := Register(s, prefix);
    RegisterJoin(s, prefix + x, suffix);
    RegisterJoin(s, prefix, x);
    RegisterJoin(s, prefix + y, suffix);
    RegisterJoin(s, prefix, y);
    if Crc(c, prefix + x + suffix) == Crc(c, prefix + y + suffix) {
      ComplementTwice(Register(s, prefix + x + suffix));
      ComplementTwice(Register(s, prefix + y + suffix));
      RegisterInjective(Register(p, x), Register(p, y), suffix);
      RegisterOfWord(p, x);
      RegisterOfWord(p, y);
      StepsInjective(8 * |x|, Xor(p, Word(x)), Xor(p, Word(y)));
      XorLaws(Word(x), p, 0);
      XorLaws(Word(y), p, 0);
      WordInjective(x, y);
    }
  }

  // ----- the check value -----

  lemma FirstDigits()
    ensures Steps(8, 0xffff_ffce) == 0x7c23_1048
    ensures Steps(8, 0x7c23_107a) == 0xb0ac_bb32
    ensures Steps(8, 0xb0ac_bb01) == 0x77b7_9c2d
  {}

  lemma MiddleDigits()
    ensures Steps(8, 0x77b7_9c19) == 0x641c_1f5c
    ensures Steps(8, 0x641c_1f69) == 0x340a_c5e3
    ensures Steps(8, 0x340a_c5d5) == 0xf68d_2c9e
  {}

  lemma LastDigits()
    ensures Steps(8, 0xf68d_2ca9) == 0xaffc_9660
    ensures Steps(8, 0xaffc_9658) == 0x651f_2550
    ensures Steps(8, 0x651f_2569) == 0x340b_c6d9
  {}

  lemma DigitsMixed()
    ensures Xor(0xffff_ffff, Wide(49)) == 0xffff_ffce
    ensures Xor(0x7c23_1048, Wide(50)) == 0x7c23_107a
    ensures Xor(0xb0ac_bb32, Wide(51)) == 0xb0ac_bb01
    ensures Xor(0x77b7_9c2d, Wide(52)) == 0x77b7_9c19
    ensures Xor(0x641c_1f5c, Wide(53)) == 0x641c_1f69
    ensures Xor(0x340a_c5e3, Wide(54)) == 0x340a_c5d5
    ensures Xor(0xf68d_2c9e, Wide(55)) == 0xf68d_2ca9
    ensures Xor(0xaffc_9660, Wide(56)) == 0xaffc_9658
    ensures Xor(0x651f_2550, Wide(57)) == 0x651f_2569
    ensures Complement(0) == 0xffff_ffff && Complement(0x340b_c6d9) == 0xcbf4_3926
  {}

  /** The check value of CRC-32, that of the digits from 1 to 9. */
  lemma CheckValue()
    ensures Crc(0, [49, 50, 51, 52, 53, 54, 55, 56, 57]) == 0xcbf4_3926
  {
    hide FeedBits, Steps, Xor, Wide, Complement, Register;
    FirstDigits();
    MiddleDigits();
    LastDigits();
    DigitsMixed();
    var d: seq<bv8> := [49, 50, 51, 52, 53, 54, 55, 56, 57];
    assert d[0..] == d && d[9..] == [];
    RegisterEmpty(0x340b_c6d9);
    NextByte(0x651f_2550, d, 8);
    NextByte(0xaffc_9660, d, 7);
    NextByte(0xf68d_2c9e, d, 6);
    NextByte(0x340a_c5e3, d, 5);
    NextByte(0x641c_1f5c, d, 4);
    NextByte(0x77b7_9c2d, d, 3);
    NextByte(0xb0ac_bb32, d, 2);
    NextByte(0x7c23_1048, d, 1);
    NextByte(0xffff_ffff, d, 0);
  }

  lemma NextByte(c: bv32, d: seq<bv8>, i: nat)
    requires i < |d|
    ensures Register(c, d[i..]) == Register(Steps(8, Xor(c, Wide(d[i]))), d[i + 1..])
  {
    hide FeedBits, Steps, Xor, Wide;
    assert d[i..][1..] == d[i + 1..];
    ByteAtOnce(c, d[i]);
  }
}
