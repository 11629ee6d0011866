/** The tables of qrspec.c for symbol versions 1 to 40: capacities, block counts, widths of the
    length fields; and that the block sizes divide without rest. */
module QrSpec {
  import opened Arithmetic

  /** Error correction levels. */
  datatype Level = L | M | Q | H

  /** Encoding modes of an entry. */
  datatype Mode = Num | An | Eight | Kanji | Structure

  const VERSION_MAX := 40

  /** Capacity of a symbol in bytes, data and error correction together. */
  function Words(version: nat): nat {
    match version
    case 1 => 26 case 2 => 44 case 3 => 70 case 4 => 100 case 5 => 134 case 6 => 172 case 7 => 196
    case 8 => 242 case 9 => 292 case 10 => 346 case 11 => 404 case 12 => 466 case 13 => 532 case 14 => 581
    case 15 => 655 case 16 => 733 case 17 => 815 case 18 => 901 case 19 => 991 case 20 => 1085 case 21 => 1156
    case 22 => 1258 case 23 => 1364 case 24 => 1474 case 25 => 1588 case 26 => 1706 case 27 => 1828
    case 28 => 1921 case 29 => 2051 case 30 => 2185 case 31 => 2323 case 32 => 2465 case 33 => 2611
    case 34 => 2761 case 35 => 2876 case 36 => 3034 case 37 => 3196 case 38 => 3362 case 39 => 3532
    case 40 => 3706
    case _ => 0
  }

  /** Error correction bytes at level L. */
  function EccWordsL(version: nat): nat {
    match version
    case 1 => 7 case 2 => 10 case 3 => 15 case 4 => 20 case 5 => 26 case 6 => 36 case 7 => 40 case 8 => 48
    case 9 => 60 case 10 => 72 case 11 => 80 case 12 => 96 case 13 => 104 case 14 => 120 case 15 => 132
    case 16 => 144 case 17 => 168 case 18 => 180 case 19 => 196 case 20 => 224 case 21 => 224 case 22 => 252
    case 23 => 270 case 24 => 300 case 25 => 312 case 26 => 336 case 27 => 360 case 28 => 390 case 29 => 420
    case 30 => 450 case 31 => 480 case 32 => 510 case 33 => 540 case 34 => 570 case 35 => 570 case 36 => 600
    case 37 => 630 case 38 => 660 case 39 => 720 case 40 => 750
    case _ => 0
  }

  /** Number of blocks of the first kind at level L. */
  function Blocks1L(version: nat): nat {
    match version
    case 1 => 1 case 2 => 1 case 3 => 1 case 4 => 1 case 5 => 1 case 6 => 2 case 7 => 2 case 8 => 2
    case 9 => 2 case 10 => 2 case 11 => 4 case 12 => 2 case 13 => 4 case 14 => 3 case 15 => 5 case 16 => 5
    case 17 => 1 case 18 => 5 case 19 => 3 case 20 => 3 case 21 => 4 case 22 => 2 case 23 => 4 case 24 => 6
    case 25 => 8 case 26 => 10 case 27 => 8 case 28 => 3 case 29 => 7 case 30 => 5 case 31 => 13 case 32 => 17
    case 33 => 17 case 34 => 13 case 35 => 12 case 36 => 6 case 37 => 17 case 38 => 4 case 39 => 20
    case 40 => 19
    case _ => 0
  }

  /** Number of blocks of the second kind, one data byte longer, at level L. */
  function Blocks2L(version: nat): nat {
    match version
    case 1 => 0 case 2 => 0 case 3 => 0 case 4 => 0 case 5 => 0 case 6 => 0 case 7 => 0 case 8 => 0
    case 9 => 0 case 10 => 2 case 11 => 0 case 12 => 2 case 13 => 0 case 14 => 1 case 15 => 1 case 16 => 1
    case 17 => 5 case 18 => 1 case 19 => 4 case 20 => 5 case 21 => 4 case 22 => 7 case 23 => 5 case 24 => 4
    case 25 => 4 case 26 => 2 case 27 => 4 case 28 => 10 case 29 => 7 case 30 => 10 case 31 => 3 case 32 => 0
    case 33 => 1 case 34 => 6 case 35 => 7 case 36 => 14 case 37 => 4 case 38 => 18 case 39 => 4 case 40 => 6
    case _ => 0
  }

  /** Error correction bytes at level M. */
  function EccWordsM(version: nat): nat {
    match version
    case 1 => 10 case 2 => 16 case 3 => 26 case 4 => 36 case 5 => 48 case 6 => 64 case 7 => 72 case 8 => 88
    case 9 => 110 case 10 => 130 case 11 => 150 case 12 => 176 case 13 => 198 case 14 => 216 case 15 => 240
    case 16 => 280 case 17 => 308 case 18 => 338 case 19 => 364 case 20 => 416 case 21 => 442 case 22 => 476
    case 23 => 504 case 24 => 560 case 25 => 588 case 26 => 644 case 27 => 700 case 28 => 728 case 29 => 784
    case 30 => 812 case 31 => 868 case 32 => 924 case 33 => 980 case 34 => 1036 case 35 => 1064
    case 36 => 1120 case 37 => 1204 case 38 => 1260 case 39 => 1316 case 40 => 1372
    case _ => 0
  }

  /** Number of blocks of the first kind at level M. */
  function Blocks1M(version: nat): nat {
    match version
    case 1 => 1 case 2 => 1 case 3 => 1 case 4 => 2 case 5 => 2 case 6 => 4 case 7 => 4 case 8 => 2
    case 9 => 3 case 10 => 4 case 11 => 1 case 12 => 6 case 13 => 8 case 14 => 4 case 15 => 5 case 16 => 7
    case 17 => 10 case 18 => 9 case 19 => 3 case 20 => 3 case 21 => 17 case 22 => 17 case 23 => 4 case 24 => 6
    case 25 => 8 case 26 => 19 case 27 => 22 case 28 => 3 case 29 => 21 case 30 => 19 case 31 => 2
    case 32 => 10 case 33 => 14 case 34 => 14 case 35 => 12 case 36 => 6 case 37 => 29 case 38 => 13
    case 39 => 40 case 40 => 18
    case _ => 0
  }

  /** Number of blocks of the second kind, one data byte longer, at level M. */
  function Blocks2M(version: nat): nat {
    match version
    case 1 => 0 case 2 => 0 case 3 => 0 case 4 => 0 case 5 => 0 case 6 => 0 case 7 => 0 case 8 => 2
    case 9 => 2 case 10 => 1 case 11 => 4 case 12 => 2 case 13 => 1 case 14 => 5 case 15 => 5 case 16 => 3
    case 17 => 1 case 18 => 4 case 19 => 11 case 20 => 13 case 21 => 0 case 22 => 0 case 23 => 14
    case 24 => 14 case 25 => 13 case 26 => 4 case 27 => 3 case 28 => 23 case 29 => 7 case 30 => 10
    case 31 => 29 case 32 => 23 case 33 => 21 case 34 => 23 case 35 => 26 case 36 => 34 case 37 => 14
    case 38 => 32 case 39 => 7 case 40 => 31
    case _ => 0
  }

  /** Error correction bytes at level Q. */
  function EccWordsQ(version: nat): nat {
    match version
    case 1 => 13 case 2 => 22 case 3 => 36 case 4 => 52 case 5 => 72 case 6 => 96 case 7 => 108 case 8 => 132
    case 9 => 160 case 10 => 192 case 11 => 224 case 12 => 260 case 13 => 288 case 14 => 320 case 15 => 360
    case 16 => 408 case 17 => 448 case 18 => 504 case 19 => 546 case 20 => 600 case 21 => 644 case 22 => 690
    case 23 => 750 case 24 => 810 case 25 => 870 case 26 => 952 case 27 => 1020 case 28 => 1050
    case 29 => 1140 case 30 => 1200 case 31 => 1290 case 32 => 1350 case 33 => 1440 case 34 => 1530
    case 35 => 1590 case 36 => 1680 case 37 => 1770 case 38 => 1860 case 39 => 1950 case 40 => 2040
    case _ => 0
  }

  /** Number of blocks of the first kind at level Q. */
  function Blocks1Q(version: nat): nat {
    match version
    case 1 => 1 case 2 => 1 case 3 => 2 case 4 => 2 case 5 => 2 case 6 => 4 case 7 => 2 case 8 => 4
    case 9 => 4 case 10 => 6 case 11 => 4 case 12 => 4 case 13 => 8 case 14 => 11 case 15 => 5 case 16 => 15
    case 17 => 1 case 18 => 17 case 19 => 17 case 20 => 15 case 21 => 17 case 22 => 7 case 23 => 11
    case 24 => 11 case 25 => 7 case 26 => 28 case 27 => 8 case 28 => 4 case 29 => 1 case 30 => 15
    case 31 => 42 case 32 => 10 case 33 => 29 case 34 => 44 case 35 => 39 case 36 => 46 case 37 => 49
    case 38 => 48 case 39 => 43 case 40 => 34
    case _ => 0
  }

  /** Number of blocks of the second kind, one data byte longer, at level Q. */
  function Blocks2Q(version: nat): nat {
    match version
    case 1 => 0 case 2 => 0 case 3 => 0 case 4 => 0 case 5 => 2 case 6 => 0 case 7 => 4 case 8 => 2
    case 9 => 4 case 10 => 2 case 11 => 4 case 12 => 6 case 13 => 4 case 14 => 5 case 15 => 7 case 16 => 2
    case 17 => 15 case 18 => 1 case 19 => 4 case 20 => 5 case 21 => 6 case 22 => 16 case 23 => 14
    case 24 => 16 case 25 => 22 case 26 => 6 case 27 => 26 case 28 => 31 case 29 => 37 case 30 => 25
    case 31 => 1 case 32 => 35 case 33 => 19 case 34 => 7 case 35 => 14 case 36 => 10 case 37 => 10
    case 38 => 14 case 39 => 22 case 40 => 34
    case _ => 0
  }

  /** Error correction bytes at level H. */
  function EccWordsH(version: nat): nat {
    match version
    case 1 => 17 case 2 => 28 case 3 => 44 case 4 => 64 case 5 => 88 case 6 => 112 case 7 => 130 case 8 => 156
    case 9 => 192 case 10 => 224 case 11 => 264 case 12 => 308 case 13 => 352 case 14 => 384 case 15 => 432
    case 16 => 480 case 17 => 532 case 18 => 588 case 19 => 650 case 20 => 700 case 21 => 750 case 22 => 816
    case 23 => 900 case 24 => 960 case 25 => 1050 case 26 => 1110 case 27 => 1200 case 28 => 1260
    case 29 => 1350 case 30 => 1440 case 31 => 1530 case 32 => 1620 case 33 => 1710 case 34 => 1800
    case 35 => 1890 case 36 => 1980 case 37 => 2100 case 38 => 2220 case 39 => 2310 case 40 => 2430
    case _ => 0
  }

  /** Number of blocks of the first kind at level H. */
  function Blocks1H(version: nat): nat {
    match version
    case 1 => 1 case 2 => 1 case 3 => 2 case 4 => 4 case 5 => 2 case 6 => 4 case 7 => 4 case 8 => 4
    case 9 => 4 case 10 => 6 case 11 => 3 case 12 => 7 case 13 => 12 case 14 => 11 case 15 => 11 case 16 => 3
    case 17 => 2 case 18 => 2 case 19 => 9 case 20 => 15 case 21 => 19 case 22 => 34 case 23 => 16
    case 24 => 30 case 25 => 22 case 26 => 33 case 27 => 12 case 28 => 11 case 29 => 19 case 30 => 23
    case 31 => 23 case 32 => 19 case 33 => 11 case 34 => 59 case 35 => 22 case 36 => 2 case 37 => 24
    case 38 => 42 case 39 => 10 case 40 => 20
    case _ => 0
  }

  /** Number of blocks of the second kind, one data byte longer, at level H. */
  function Blocks2H(version: nat): nat {
    match version
    case 1 => 0 case 2 => 0 case 3 => 0 case 4 => 0 case 5 => 2 case 6 => 0 case 7 => 1 case 8 => 2
    case 9 => 4 case 10 => 2 case 11 => 8 case 12 => 4 case 13 => 4 case 14 => 5 case 15 => 7 case 16 => 13
    case 17 => 17 case 18 => 19 case 19 => 16 case 20 => 10 case 21 => 6 case 22 => 0 case 23 => 14
    case 24 => 2 case 25 => 13 case 26 => 4 case 27 => 28 case 28 => 31 case 29 => 26 case 30 => 25
    case 31 => 28 case 32 => 35 case 33 => 46 case 34 => 1 case 35 => 41 case 36 => 64 case 37 => 46
    case 38 => 32 case 39 => 67 case 40 => 61
    case _ => 0
  }

  function EccLength(version: nat, level: Level): nat {
    match level case L => EccWordsL(version) case M => EccWordsM(version) case Q => EccWordsQ(version) case H => EccWordsH(version)
  }

  function Blocks1(version: nat, level: Level): nat {
    match level case L => Blocks1L(version) case M => Blocks1M(version) case Q => Blocks1Q(version) case H => Blocks1H(version)
  }

  function Blocks2(version: nat, level: Level): nat {
    match level case L => Blocks2L(version) case M => Blocks2M(version) case Q => Blocks2Q(version) case H => Blocks2H(version)
  }

  /** Data capacity in bytes. */
  function DataLength(version: nat, level: Level): int {
    Words(version) - EccLength(version, level)
  }

  /** Capacity grows strictly with the version. */
  lemma DataLengthGrows(version: nat, level: Level)
    requires 1 <= version < VERSION_MAX
    ensures DataLength(version, level) < DataLength(version + 1, level)
  {}

  lemma {:induction false} DataLengthMonotone(v: nat, w: nat, level: Level)
    requires 1 <= v <= w <= VERSION_MAX
    ensures DataLength(v, level) <= DataLength(w, level)
    decreases w - v
  {
    hide DataLength;
    if v < w {
      DataLengthGrows(v, level);
      DataLengthMonotone(v + 1, w, level);
    }
  }

  /** The capacities at the ends of the three version ranges that share length fields. */
  lemma DataLengthBounds(version: nat, level: Level)
    requires 1 <= version <= VERSION_MAX
    ensures 9 <= DataLength(version, level)
    ensures version <= 9 ==> DataLength(version, level) <= 232
    ensures version <= 26 ==> DataLength(version, level) <= 1370
    ensures DataLength(version, level) <= 2956
  {
    DataLengthMonotone(1, version, level);
    DataLengthMonotone(version, VERSION_MAX, level);
    if version <= 26 {
      DataLengthMonotone(version, 26, level);
    }
    if version <= 9 {
      DataLengthMonotone(version, 9, level);
    }
  }

  /** The smallest version with room for `size` bytes, or -1. */
  function MinimumVersion(size: int, level: Level): (v: int)
    ensures v == -1 || (1 <= v <= VERSION_MAX && size <= DataLength(v, level))
    ensures forall w :: 1 <= w <= VERSION_MAX && size <= DataLength(w, level) ==> v != -1 && v <= w
  {
    FirstFit(1, size, level)
  }

  function FirstFit(i: nat, size: int, level: Level): (v: int)
    requires 1 <= i <= VERSION_MAX + 1
    ensures v == -1 || (i <= v <= VERSION_MAX && size <= DataLength(v, level))
    ensures forall w :: i <= w <= VERSION_MAX && size <= DataLength(w, level) ==> v != -1 && v <= w
    decreases VERSION_MAX + 1 - i
  {
    if i > VERSION_MAX then -1 else if DataLength(i, level) >= size then i else FirstFit(i + 1, size, level)
  }

  /** Width of the length field. */
  function LengthIndicator(mode: Mode, version: nat): nat {
    match mode
    case Num => if version <= 9 then 10 else if version <= 26 then 12 else 14
    case An => if version <= 9 then 9 else if version <= 26 then 11 else 13
    case Eight => if version <= 9 then 8 else 16
    case Kanji => if version <= 9 then 8 else if version <= 26 then 10 else 12
    case Structure => 0
  }

  function Pow2(n: nat): (p: nat)
    ensures 1 <= p
  {
    if n == 0 then 1 else 2 * Pow2(n - 1)
  }

  lemma Pow2Values()
    ensures Pow2(4) == 16 && Pow2(6) == 64 && Pow2(7) == 128 && Pow2(8) == 256 && Pow2(9) == 512 && Pow2(10) == 1024
    ensures Pow2(11) == 2048 && Pow2(12) == 4096 && Pow2(13) == 8192 && Pow2(14) == 16384 && Pow2(16) == 65536
  {}

  /** Longest entry, in bytes, that one length field can announce; 0 when there is no length. */
  function MaximumWords(mode: Mode, version: nat): int {
    if mode == Structure then 0
    else if mode == Kanji then 2 * (Pow2(LengthIndicator(mode, version)) - 1)
    else Pow2(LengthIndicator(mode, version)) - 1
  }

  /** The Reed-Solomon blocks of a symbol: count1 blocks of `data` bytes and count2 of one more,
      each with `ecc` parity bytes. */
  datatype EccSpec = EccSpec(count1: nat, data: nat, ecc: nat, count2: nat)

  function GetEccSpec(version: nat, level: Level): EccSpec {
    SplitBlocks(DataLength(version, level), EccLength(version, level), Blocks1(version, level), Blocks2(version, level))
  }

  /** The division; the first branch is for table entries that do not occur. */
  function SplitBlocks(data: int, ecc: int, b1: nat, b2: nat): EccSpec {
    if b1 == 0 || data < 0 || ecc < 0 then EccSpec(0, 0, 0, 0)
    else EccSpec(b1, data / (b1 + b2), ecc / (b1 + b2), b2)
  }

  /** dl and el are the data and parity bytes of each block of the first kind. */
  ghost predicate SpecFits(data: int, ecc: int, b1: nat, b2: nat, dl: nat, el: nat) {
    && b1 * dl + b2 * (dl + 1) == data && (b1 + b2) * el == ecc
    && 1 <= b1 && 1 <= dl && 1 <= el && dl + 1 + el <= 255
  }

  lemma SpecDivides(data: int, ecc: int, b1: nat, b2: nat, dl: nat, el: nat)
    requires SpecFits(data, ecc, b1, b2, dl, el)
    ensures 0 <= data && 0 <= ecc && data / (b1 + b2) == dl && ecc / (b1 + b2) == el
  {
    var b := b1 + b2;
    assert data == b * dl + b2 && b2 < b;
    Quotient(data, b, dl, b2);
    Quotient(ecc, b, el, 0);
  }

  lemma BlocksFit(version: nat, level: Level)
    requires 1 <= version <= VERSION_MAX
    ensures exists dl, el :: SpecFits(DataLength(version, level), EccLength(version, level), Blocks1(version, level), Blocks2(version, level), dl, el)
  {
    hide SpecFits, Words, EccWordsL, EccWordsM, EccWordsQ, EccWordsH, Blocks1L, Blocks1M, Blocks1Q, Blocks1H, Blocks2L, Blocks2M, Blocks2Q, Blocks2H;
    match level {
      case L =>
        var dl, el := BlocksFitL(version);
        assert SpecFits(DataLength(version, level), EccLength(version, level), Blocks1(version, level), Blocks2(version, level), dl, el);
      case M =>
        var dl, el := BlocksFitM(version);
        assert SpecFits(DataLength(version, level), EccLength(version, level), Blocks1(version, level), Blocks2(version, level), dl, el);
      case Q =>
        var dl, el := BlocksFitQ(version);
        assert SpecFits(DataLength(version, level), EccLength(version, level), Blocks1(version, level), Blocks2(version, level), dl, el);
      case H =>
        var dl, el := BlocksFitH(version);
        assert SpecFits(DataLength(version, level), EccLength(version, level), Blocks1(version, level), Blocks2(version, level), dl, el);
    }
  }

  /** The division in getEccSpec loses nothing: the blocks hold exactly the data and the parity
      of the symbol, and every block is a valid Reed-Solomon block. */
  lemma BlocksFillSymbol(version: nat, level: Level)
    requires 1 <= version <= VERSION_MAX
    ensures var s := GetEccSpec(version, level);
      s.count1 * s.data + s.count2 * (s.data + 1) == DataLength(version, level)
      && (s.count1 + s.count2) * s.ecc == EccLength(version, level)
      && 1 <= s.count1 && 1 <= s.data && 1 <= s.ecc && s.data + 1 + s.ecc <= 255
  {
    hide DataLength, EccLength, Blocks1, Blocks2;
    var data, ecc, b1, b2 := DataLength(version, level), EccLength(version, level), Blocks1(version, level), Blocks2(version, level);
    BlocksFit(version, level);
    var dl, el :| SpecFits(data, ecc, b1, b2, dl, el);
    SpecDivides(data, ecc, b1, b2, dl, el);
  }

  lemma BlocksFitL(version: nat) returns (dl: nat, el: nat)
    requires 1 <= version <= VERSION_MAX
    ensures SpecFits(Words(version) - EccWordsL(version), EccWordsL(version), Blocks1L(version), Blocks2L(version), dl, el)
  {
    match version {
      case 1 => dl, el := 19, 7; case 2 => dl, el := 34, 10; case 3 => dl, el := 55, 15;
      case 4 => dl, el := 80, 20; case 5 => dl, el := 108, 26; case 6 => dl, el := 68, 18;
      case 7 => dl, el := 78, 20; case 8 => dl, el := 97, 24; case 9 => dl, el := 116, 30;
      case 10 => dl, el := 68, 18; case 11 => dl, el := 81, 20; case 12 => dl, el := 92, 24;
      case 13 => dl, el := 107, 26; case 14 => dl, el := 115, 30; case 15 => dl, el := 87, 22;
      case 16 => dl, el := 98, 24; case 17 => dl, el := 107, 28; case 18 => dl, el := 120, 30;
      case 19 => dl, el := 113, 28; case 20 => dl, el := 107, 28; case 21 => dl, el := 116, 28;
      case 22 => dl, el := 111, 28; case 23 => dl, el := 121, 30; case 24 => dl, el := 117, 30;
      case 25 => dl, el := 106, 26; case 26 => dl, el := 114, 28; case 27 => dl, el := 122, 30;
      case 28 => dl, el := 117, 30; case 29 => dl, el := 116, 30; case 30 => dl, el := 115, 30;
      case 31 => dl, el := 115, 30; case 32 => dl, el := 115, 30; case 33 => dl, el := 115, 30;
      case 34 => dl, el := 115, 30; case 35 => dl, el := 121, 30; case 36 => dl, el := 121, 30;
      case 37 => dl, el := 122, 30; case 38 => dl, el := 122, 30; case 39 => dl, el := 117, 30;
      case 40 => dl, el := 118, 30;
    }
  }

  lemma BlocksFitM(version: nat) returns (dl: nat, el: nat)
    requires 1 <= version <= VERSION_MAX
    ensures SpecFits(Words(version) - EccWordsM(version), EccWordsM(version), Blocks1M(version), Blocks2M(version), dl, el)
  {
    match version {
      case 1 => dl, el := 16, 10; case 2 => dl, el := 28, 16; case 3 => dl, el := 44, 26;
      case 4 => dl, el := 32, 18; case 5 => dl, el := 43, 24; case 6 => dl, el := 27, 16;
      case 7 => dl, el := 31, 18; case 8 => dl, el := 38, 22; case 9 => dl, el := 36, 22;
      case 10 => dl, el := 43, 26; case 11 => dl, el := 50, 30; case 12 => dl, el := 36, 22;
      case 13 => dl, el := 37, 22; case 14 => dl, el := 40, 24; case 15 => dl, el := 41, 24;
      case 16 => dl, el := 45, 28; case 17 => dl, el := 46, 28; case 18 => dl, el := 43, 26;
      case 19 => dl, el := 44, 26; case 20 => dl, el := 41, 26; case 21 => dl, el := 42, 26;
      case 22 => dl, el := 46, 28; case 23 => dl, el := 47, 28; case 24 => dl, el := 45, 28;
      case 25 => dl, el := 47, 28; case 26 => dl, el := 46, 28; case 27 => dl, el := 45, 28;
      case 28 => dl, el := 45, 28; case 29 => dl, el := 45, 28; case 30 => dl, el := 47, 28;
      case 31 => dl, el := 46, 28; case 32 => dl, el := 46, 28; case 33 => dl, el := 46, 28;
      case 34 => dl, el := 46, 28; case 35 => dl, el := 47, 28; case 36 => dl, el := 47, 28;
      case 37 => dl, el := 46, 28; case 38 => dl, el := 46, 28; case 39 => dl, el := 47, 28;
      case 40 => dl, el := 47, 28;
    }
  }

  lemma BlocksFitQ(version: nat) returns (dl: nat, el: nat)
    requires 1 <= version <= VERSION_MAX
    ensures SpecFits(Words(version) - EccWordsQ(version), EccWordsQ(version), Blocks1Q(version), Blocks2Q(version), dl, el)
  {
    match version {
      case 1 => dl, el := 13, 13; case 2 => dl, el := 22, 22; case 3 => dl, el := 17, 18;
      case 4 => dl, el := 24, 26; case 5 => dl, el := 15, 18; case 6 => dl, el := 19, 24;
      case 7 => dl, el := 14, 18; case 8 => dl, el := 18, 22; case 9 => dl, el := 16, 20;
      case 10 => dl, el := 19, 24; case 11 => dl, el := 22, 28; case 12 => dl, el := 20, 26;
      case 13 => dl, el := 20, 24; case 14 => dl, el := 16, 20; case 15 => dl, el := 24, 30;
      case 16 => dl, el := 19, 24; case 17 => dl, el := 22, 28; case 18 => dl, el := 22, 28;
      case 19 => dl, el := 21, 26; case 20 => dl, el := 24, 30; case 21 => dl, el := 22, 28;
      case 22 => dl, el := 24, 30; case 23 => dl, el := 24, 30; case 24 => dl, el := 24, 30;
      case 25 => dl, el := 24, 30; case 26 => dl, el := 22, 28; case 27 => dl, el := 23, 30;
      case 28 => dl, el := 24, 30; case 29 => dl, el := 23, 30; case 30 => dl, el := 24, 30;
      case 31 => dl, el := 24, 30; case 32 => dl, el := 24, 30; case 33 => dl, el := 24, 30;
      case 34 => dl, el := 24, 30; case 35 => dl, el := 24, 30; case 36 => dl, el := 24, 30;
      case 37 => dl, el := 24, 30; case 38 => dl, el := 24, 30; case 39 => dl, el := 24, 30;
      case 40 => dl, el := 24, 30;
    }
  }

  lemma BlocksFitH(version: nat) returns (dl: nat, el: nat)
    requires 1 <= version <= VERSION_MAX
    ensures SpecFits(Words(version) - EccWordsH(version), EccWordsH(version), Blocks1H(version), Blocks2H(version), dl, el)
  {
    match version {
      case 1 => dl, el := 9, 17; case 2 => dl, el := 16, 28; case 3 => dl, el := 13, 22;
      case 4 => dl, el := 9, 16; case 5 => dl, el := 11, 22; case 6 => dl, el := 15, 28;
      case 7 => dl, el := 13, 26; case 8 => dl, el := 14, 26; case 9 => dl, el := 12, 24;
      case 10 => dl, el := 15, 28; case 11 => dl, el := 12, 24; case 12 => dl, el := 14, 28;
      case 13 => dl, el := 11, 22; case 14 => dl, el := 12, 24; case 15 => dl, el := 12, 24;
      case 16 => dl, el := 15, 30; case 17 => dl, el := 14, 28; case 18 => dl, el := 14, 28;
      case 19 => dl, el := 13, 26; case 20 => dl, el := 15, 28; case 21 => dl, el := 16, 30;
      case 22 => dl, el := 13, 24; case 23 => dl, el := 15, 30; case 24 => dl, el := 16, 30;
      case 25 => dl, el := 15, 30; case 26 => dl, el := 16, 30; case 27 => dl, el := 15, 30;
      case 28 => dl, el := 15, 30; case 29 => dl, el := 15, 30; case 30 => dl, el := 15, 30;
      case 31 => dl, el := 15, 30; case 32 => dl, el := 15, 30; case 33 => dl, el := 15, 30;
      case 34 => dl, el := 16, 30; case 35 => dl, el := 15, 30; case 36 => dl, el := 15, 30;
      case 37 => dl, el := 15, 30; case 38 => dl, el := 15, 30; case 39 => dl, el := 15, 30;
      case 40 => dl, el := 15, 30;
    }
  }

  /** The share of the symbol that can be recovered, half of its parity bytes, is what the level stands
      for, 7, 15, 25 or 30 per cent, and below that of the next level. */
  lemma LevelShare(version: nat, level: Level)
    requires 1 <= version <= VERSION_MAX
    ensures var n, e := 100 * EccLength(version, level), Words(version);
      match level
      case L => 14 * e <= n < 30 * e
      case M => 30 * e <= n < 50 * e
      case Q => 50 * e <= n < 60 * e
      case H => 60 * e <= n
  {
    if version <= 20 {
    } else {
    }
  }
}
