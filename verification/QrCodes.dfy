/** The codes of format and version information. */
module QrCodes {
  // Polynomials over GF(2) are words whose bits are the coefficients.
  import opened QrSpec
  import QrMask
  import QrNewFrame

  /** Product of two polynomials, the first of degree 5 at most. */
  function Times(q: bv32, g: bv32): bv32 {
    (if q & 1 != 0 then g else 0) ^ (if q & 2 != 0 then g << 1 else 0) ^ (if q & 4 != 0 then g << 2 else 0)
    ^ (if q & 8 != 0 then g << 3 else 0) ^ (if q & 16 != 0 then g << 4 else 0) ^ (if q & 32 != 0 then g << 5 else 0)
  }

  predicate Spells(w: bv32, n: nat) {
    w as int == n
  }

  /** n, with `cover` laid over it, is a multiple of g. */
  ghost predicate IsCodeWord(n: nat, cover: bv32, g: bv32) {
    exists w, q :: Spells(w, n) && Times(q, g) == w ^ cover
  }

  lemma OneWord(n: nat, w: bv32, q: bv32, cover: bv32, g: bv32)
    requires Spells(w, n) && Times(q, g) == w ^ cover
    ensures IsCodeWord(n, cover, g)
  {}

  // ----- format information -----

  /** The two bits that stand for a level. */
  function LevelBits(level: Level): nat {
    match level case L => 1 case M => 0 case Q => 3 case H => 2
  }

  /** The upper five of the 15 bits: the level and the mask, every second bit turned over by what is
      laid over the word. */
  function UpperFive(level: nat, mask: nat): int {
    16 * (1 - level / 2) + 8 * (level % 2) + 4 * (1 - mask / 4) + 2 * (mask / 2 % 2) + (1 - mask % 2)
  }

  lemma WordsL()
    ensures IsCodeWord(0x77c4, 0x5412, 0x537)
    ensures IsCodeWord(0x72f3, 0x5412, 0x537)
    ensures IsCodeWord(0x7daa, 0x5412, 0x537)
    ensures IsCodeWord(0x789d, 0x5412, 0x537)
    ensures IsCodeWord(0x662f, 0x5412, 0x537)
    ensures IsCodeWord(0x6318, 0x5412, 0x537)
    ensures IsCodeWord(0x6c41, 0x5412, 0x537)
    ensures IsCodeWord(0x6976, 0x5412, 0x537)
  {
    hide IsCodeWord;
    OneWord(0x77c4, 0x77c4, 10, 0x5412, 0x537);
    OneWord(0x72f3, 0x72f3, 11, 0x5412, 0x537);
    OneWord(0x7daa, 0x7daa, 8, 0x5412, 0x537);
    OneWord(0x789d, 0x789d, 9, 0x5412, 0x537);
    OneWord(0x662f, 0x662f, 15, 0x5412, 0x537);
    OneWord(0x6318, 0x6318, 14, 0x5412, 0x537);
    OneWord(0x6c41, 0x6c41, 13, 0x5412, 0x537);
    OneWord(0x6976, 0x6976, 12, 0x5412, 0x537);
  }

  lemma WordsM()
    ensures IsCodeWord(0x5412, 0x5412, 0x537)
    ensures IsCodeWord(0x5125, 0x5412, 0x537)
    ensures IsCodeWord(0x5e7c, 0x5412, 0x537)
    ensures IsCodeWord(0x5b4b, 0x5412, 0x537)
    ensures IsCodeWord(0x45f9, 0x5412, 0x537)
    ensures IsCodeWord(0x40ce, 0x5412, 0x537)
    ensures IsCodeWord(0x4f97, 0x5412, 0x537)
    ensures IsCodeWord(0x4aa0, 0x5412, 0x537)
  {
    hide IsCodeWord;
    OneWord(0x5412, 0x5412, 0, 0x5412, 0x537);
    OneWord(0x5125, 0x5125, 1, 0x5412, 0x537);
    OneWord(0x5e7c, 0x5e7c, 2, 0x5412, 0x537);
    OneWord(0x5b4b, 0x5b4b, 3, 0x5412, 0x537);
    OneWord(0x45f9, 0x45f9, 5, 0x5412, 0x537);
    OneWord(0x40ce, 0x40ce, 4, 0x5412, 0x537);
    OneWord(0x4f97, 0x4f97, 7, 0x5412, 0x537);
    OneWord(0x4aa0, 0x4aa0, 6, 0x5412, 0x537);
  }

  lemma WordsQ()
    ensures IsCodeWord(0x355f, 0x5412, 0x537)
    ensures IsCodeWord(0x3068, 0x5412, 0x537)
    ensures IsCodeWord(0x3f31, 0x5412, 0x537)
    ensures IsCodeWord(0x3a06, 0x5412, 0x537)
    ensures IsCodeWord(0x24b4, 0x5412, 0x537)
    ensures IsCodeWord(0x2183, 0x5412, 0x537)
    ensures IsCodeWord(0x2eda, 0x5412, 0x537)
    ensures IsCodeWord(0x2bed, 0x5412, 0x537)
  {
    hide IsCodeWord;
    OneWord(0x355f, 0x355f, 31, 0x5412, 0x537);
    OneWord(0x3068, 0x3068, 30, 0x5412, 0x537);
    OneWord(0x3f31, 0x3f31, 29, 0x5412, 0x537);
    OneWord(0x3a06, 0x3a06, 28, 0x5412, 0x537);
    OneWord(0x24b4, 0x24b4, 26, 0x5412, 0x537);
    OneWord(0x2183, 0x2183, 27, 0x5412, 0x537);
    OneWord(0x2eda, 0x2eda, 24, 0x5412, 0x537);
    OneWord(0x2bed, 0x2bed, 25, 0x5412, 0x537);
  }

  lemma WordsH()
    ensures IsCodeWord(0x1689, 0x5412, 0x537)
    ensures IsCodeWord(0x13be, 0x5412, 0x537)
    ensures IsCodeWord(0x1ce7, 0x5412, 0x537)
    ensures IsCodeWord(0x19d0, 0x5412, 0x537)
    ensures IsCodeWord(0x0762, 0x5412, 0x537)
    ensures IsCodeWord(0x0255, 0x5412, 0x537)
    ensures IsCodeWord(0x0d0c, 0x5412, 0x537)
    ensures IsCodeWord(0x083b, 0x5412, 0x537)
  {
    hide IsCodeWord;
    OneWord(0x1689, 0x1689, 21, 0x5412, 0x537);
    OneWord(0x13be, 0x13be, 20, 0x5412, 0x537);
    OneWord(0x1ce7, 0x1ce7, 23, 0x5412, 0x537);
    OneWord(0x19d0, 0x19d0, 22, 0x5412, 0x537);
    OneWord(0x0762, 0x0762, 16, 0x5412, 0x537);
    OneWord(0x0255, 0x0255, 17, 0x5412, 0x537);
    OneWord(0x0d0c, 0x0d0c, 18, 0x5412, 0x537);
    OneWord(0x083b, 0x083b, 19, 0x5412, 0x537);
  }

  /** Every word of the format information is, covered with 101010000010010, a code word of the BCH code
      of x^10 + x^8 + x^5 + x^4 + x^2 + x + 1, and its upper five bits are level (L 01, M 00, Q 11, H 10)
      and mask. */
  lemma FormatCode(mask: nat, level: Level)
    requires mask < 8
    ensures IsCodeWord(QrMask.FormatInfo(mask, level), 0x5412, 0x537)
    ensures QrMask.FormatInfo(mask, level) < 0x8000
    ensures QrMask.FormatInfo(mask, level) / 0x400
         == UpperFive(match level case L => 1 case M => 0 case Q => 3 case H => 2, mask)
  {
    hide IsCodeWord, UpperFive;
    WordsL();
    WordsM();
    WordsQ();
    WordsH();
    FormatUpper(mask, level);
  }

  lemma FormatUpper(mask: nat, level: Level)
    requires mask < 8
    ensures QrMask.FormatInfo(mask, level) / 0x400 == UpperFive(LevelBits(level), mask)
  {
    match level
    case L =>
    case M =>
    case Q =>
    case H =>
  }

  /** So no two words are equal. */
  lemma FormatInfoDistinct(m1: nat, l1: Level, m2: nat, l2: Level)
    requires m1 < 8 && m2 < 8 && QrMask.FormatInfo(m1, l1) == QrMask.FormatInfo(m2, l2)
    ensures m1 == m2 && l1 == l2
  {
    hide QrMask.FormatInfo, IsCodeWord;
    FormatCode(m1, l1);
    FormatCode(m2, l2);
    FiveDecide(LevelBits(l1), m1, LevelBits(l2), m2);
  }

  lemma FiveDecide(a: nat, m: nat, b: nat, n: nat)
    requires a < 4 && b < 4 && m < 8 && n < 8 && UpperFive(a, m) == UpperFive(b, n)
    ensures a == b && m == n
  {
    SameDigits(1 - a / 2, a % 2, 1 - m / 4, m / 2 % 2, 1 - m % 2, 1 - b / 2, b % 2, 1 - n / 4, n / 2 % 2, 1 - n % 2);
    InDigits(m);
    InDigits(n);
    InDigits(a);
    InDigits(b);
  }

  lemma InDigits(m: nat)
    requires m < 8
    ensures m == m / 4 * 4 + m / 2 % 2 * 2 + m % 2 && m / 2 == m / 4 * 2 + m / 2 % 2 && m / 4 < 2
  {}

  lemma SameDigits(a: nat, b: nat, c: nat, d: nat, e: nat, v: nat, w: nat, x: nat, y: nat, z: nat)
    requires a < 2 && b < 2 && c < 2 && d < 2 && e < 2 && v < 2 && w < 2 && x < 2 && y < 2 && z < 2
    requires 16 * a + 8 * b + 4 * c + 2 * d + e == 16 * v + 8 * w + 4 * x + 2 * y + z
    ensures a == v && b == w && c == x && d == y && e == z
  {}

  // ----- version information -----

  lemma Versions7()
    ensures IsCodeWord(0x07c94, 0, 0x1f25)
    ensures IsCodeWord(0x085bc, 0, 0x1f25)
    ensures IsCodeWord(0x09a99, 0, 0x1f25)
    ensures IsCodeWord(0x0a4d3, 0, 0x1f25)
    ensures IsCodeWord(0x0bbf6, 0, 0x1f25)
    ensures IsCodeWord(0x0c762, 0, 0x1f25)
    ensures IsCodeWord(0x0d847, 0, 0x1f25)
    ensures IsCodeWord(0x0e60d, 0, 0x1f25)
    ensures IsCodeWord(0x0f928, 0, 0x1f25)
    ensures IsCodeWord(0x10b78, 0, 0x1f25)
    ensures IsCodeWord(0x1145d, 0, 0x1f25)
    ensures IsCodeWord(0x12a17, 0, 0x1f25)
    ensures IsCodeWord(0x13532, 0, 0x1f25)
    ensures IsCodeWord(0x149a6, 0, 0x1f25)
  {
    hide IsCodeWord;
    OneWord(0x07c94, 0x07c94, 4, 0, 0x1f25);
    OneWord(0x085bc, 0x085bc, 12, 0, 0x1f25);
    OneWord(0x09a99, 0x09a99, 13, 0, 0x1f25);
    OneWord(0x0a4d3, 0x0a4d3, 15, 0, 0x1f25);
    OneWord(0x0bbf6, 0x0bbf6, 14, 0, 0x1f25);
    OneWord(0x0c762, 0x0c762, 10, 0, 0x1f25);
    OneWord(0x0d847, 0x0d847, 11, 0, 0x1f25);
    OneWord(0x0e60d, 0x0e60d, 9, 0, 0x1f25);
    OneWord(0x0f928, 0x0f928, 8, 0, 0x1f25);
    OneWord(0x10b78, 0x10b78, 24, 0, 0x1f25);
    OneWord(0x1145d, 0x1145d, 25, 0, 0x1f25);
    OneWord(0x12a17, 0x12a17, 27, 0, 0x1f25);
    OneWord(0x13532, 0x13532, 26, 0, 0x1f25);
    OneWord(0x149a6, 0x149a6, 30, 0, 0x1f25);
  }

  lemma Versions21()
    ensures IsCodeWord(0x15683, 0, 0x1f25)
    ensures IsCodeWord(0x168c9, 0, 0x1f25)
    ensures IsCodeWord(0x177ec, 0, 0x1f25)
    ensures IsCodeWord(0x18ec4, 0, 0x1f25)
    ensures IsCodeWord(0x191e1, 0, 0x1f25)
    ensures IsCodeWord(0x1afab, 0, 0x1f25)
    ensures IsCodeWord(0x1b08e, 0, 0x1f25)
    ensures IsCodeWord(0x1cc1a, 0, 0x1f25)
    ensures IsCodeWord(0x1d33f, 0, 0x1f25)
    ensures IsCodeWord(0x1ed75, 0, 0x1f25)
  {
    hide IsCodeWord;
    OneWord(0x15683, 0x15683, 31, 0, 0x1f25);
    OneWord(0x168c9, 0x168c9, 29, 0, 0x1f25);
    OneWord(0x177ec, 0x177ec, 28, 0, 0x1f25);
    OneWord(0x18ec4, 0x18ec4, 20, 0, 0x1f25);
    OneWord(0x191e1, 0x191e1, 21, 0, 0x1f25);
    OneWord(0x1afab, 0x1afab, 23, 0, 0x1f25);
    OneWord(0x1b08e, 0x1b08e, 22, 0, 0x1f25);
    OneWord(0x1cc1a, 0x1cc1a, 18, 0, 0x1f25);
    OneWord(0x1d33f, 0x1d33f, 19, 0, 0x1f25);
    OneWord(0x1ed75, 0x1ed75, 17, 0, 0x1f25);
  }

  lemma Versions31()
    ensures IsCodeWord(0x1f250, 0, 0x1f25)
    ensures IsCodeWord(0x209d5, 0, 0x1f25)
    ensures IsCodeWord(0x216f0, 0, 0x1f25)
    ensures IsCodeWord(0x228ba, 0, 0x1f25)
    ensures IsCodeWord(0x2379f, 0, 0x1f25)
    ensures IsCodeWord(0x24b0b, 0, 0x1f25)
    ensures IsCodeWord(0x2542e, 0, 0x1f25)
    ensures IsCodeWord(0x26a64, 0, 0x1f25)
    ensures IsCodeWord(0x27541, 0, 0x1f25)
    ensures IsCodeWord(0x28c69, 0, 0x1f25)
  {
    hide IsCodeWord;
    OneWord(0x1f250, 0x1f250, 16, 0, 0x1f25);
    OneWord(0x209d5, 0x209d5, 49, 0, 0x1f25);
    OneWord(0x216f0, 0x216f0, 48, 0, 0x1f25);
    OneWord(0x228ba, 0x228ba, 50, 0, 0x1f25);
    OneWord(0x2379f, 0x2379f, 51, 0, 0x1f25);
    OneWord(0x24b0b, 0x24b0b, 55, 0, 0x1f25);
    OneWord(0x2542e, 0x2542e, 54, 0, 0x1f25);
    OneWord(0x26a64, 0x26a64, 52, 0, 0x1f25);
    OneWord(0x27541, 0x27541, 53, 0, 0x1f25);
    OneWord(0x28c69, 0x28c69, 61, 0, 0x1f25);
  }

  /** Every word of the version information is a code word of the BCH code of
      x^12 + x^11 + x^10 + x^9 + x^8 + x^5 + x^2 + 1 with the version in the upper six of its 18 bits. */
  lemma VersionCode(version: nat)
    requires 7 <= version <= VERSION_MAX
    ensures IsCodeWord(QrNewFrame.VersionInfo(version), 0, 0x1f25)
    ensures QrNewFrame.VersionInfo(version) / 0x1000 == version
  {
    hide IsCodeWord;
    Versions7();
    Versions21();
    Versions31();
  }
}
