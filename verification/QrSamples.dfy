/** Literal samples. */
module QrSamples {
  // Bits and pictures written out, as JIS X0510:2004 and the samples beside the encoder have them.
  import opened Arithmetic
  import opened QrSpec
  import opened QrBits
  import opened QrSegments
  import QrMask

  // ----- bits of entries -----

  /** Bits written as digits. */
  function Flags(s: string): (r: seq<bool>)
    ensures |r| == |s| && forall i :: 0 <= i < |s| ==> r[i] == (s[i] == '1')
  {
    seq(|s|, i requires 0 <= i < |s| => s[i] == '1')
  }

  /** The number that the first n digits spell. */
  function Spelled(s: string, n: nat): nat
    requires n <= |s|
  {
    if n == 0 then 0 else 2 * Spelled(s, n - 1) + (if s[n - 1] == '1' then 1 else 0)
  }

  lemma {:induction false} BitsSpelled(s: string, n: nat)
    requires n <= |s|
    ensures ToBits(n, Spelled(s, n)) == Flags(s)[..n]
  {
    if n > 0 {
      BitsSpelled(s, n - 1);
      assert Flags(s)[..n] == Flags(s)[..n - 1] + [s[n - 1] == '1'];
    }
  }

  lemma SpelledOut(s: string)
    ensures ToBits(|s|, Spelled(s, |s|)) == Flags(s)
  {
    BitsSpelled(s, |s|);
  }

  /** Table 5 of the standard: the values of the 45 characters, and of no others. */
  lemma AnDigits(c: Byte, v: nat)
    requires v < 10
    ensures AnValue(c) == v <==> c == "0123456789"[v] as int
  {}

  lemma AnLetters(c: Byte, v: nat)
    requires v < 26
    ensures AnValue(c) == 10 + v <==> c == "ABCDEFGHIJKLMNOPQRSTUVWXYZ"[v] as int
  {}

  lemma AnSigns(c: Byte, v: nat)
    requires v < 9
    ensures AnValue(c) == 36 + v <==> c == " $%*+-./:"[v] as int
  {}

  /** The codes of Kanji mode, byte by byte: two ranges of first bytes, and one value a code. */
  lemma KanjiCodes(h: Byte, t: Byte)
    ensures IsKanjiPair(h, t) <==>
      (0x81 <= h <= 0x9f && (h == 0x81 ==> 0x40 <= t) && (h == 0x9f ==> t <= 0xfc))
      || (0xe0 <= h <= 0xeb && (h == 0xe0 ==> 0x40 <= t) && (h == 0xeb ==> t <= 0xbf))
    ensures IsKanjiPair(h, t) ==>
      KanjiValue(h, t) == 192 * (if h < 0xe0 then h - 0x81 else h - 0xc1) + if 0x40 <= t then t - 0x40 else t
  {
    if IsKanjiPair(h, t) {
      var k := if h < 0xe0 then h - 0x81 else h - 0xc1;
      var w := 256 * k + (t - 0x40);
      if 0x40 <= t {
        assert w / 256 == k && w % 256 == t - 0x40;
      } else {
        assert w / 256 == k - 1 && w % 256 == t + 0xc0;
      }
    }
  }

  /** Table 3 of the standard: bits of the length field. */
  lemma LengthFields(version: nat)
    requires 1 <= version <= 40
    ensures version <= 9 ==> forall m :: LengthIndicator(m, version) == match m case Num => 10 case An => 9 case Eight => 8 case Kanji => 8 case Structure => 0
    ensures 10 <= version <= 26 ==> forall m :: LengthIndicator(m, version) == match m case Num => 12 case An => 11 case Eight => 16 case Kanji => 10 case Structure => 0
    ensures 27 <= version ==> forall m :: LengthIndicator(m, version) == match m case Num => 14 case An => 13 case Eight => 16 case Kanji => 12 case Structure => 0
  {}

  lemma DigitsPieces()
    ensures ToBits(4, 1) == Flags("0001")
    ensures ToBits(10, 8) == Flags("0000001000")
    ensures ToBits(10, 12) == Flags("0000001100")
    ensures ToBits(10, 345) == Flags("0101011001")
    ensures ToBits(7, 67) == Flags("1000011")
  {
    hide ToBits, Flags;
    SpelledOut("0001");
    SpelledOut("0000001000");
    SpelledOut("0000001100");
    SpelledOut("0101011001");
    SpelledOut("1000011");
  }

  /** The digits 01234567. */
  lemma SampleDigits()
    ensures var e := Entry(Num, [48, 49, 50, 51, 52, 53, 54, 55]);
      GoodEntry(e) && ChunkBits(e, 1)
        == Flags("0001") + (Flags("0000001000") + (Flags("0000001100") + (Flags("0101011001") + Flags("1000011"))))
  {
    hide ToBits, Flags;
    DigitsPieces();
    var d := [48, 49, 50, 51, 52, 53, 54, 55];
    assert d[3..] == [51, 52, 53, 54, 55] && d[3..][3..] == [54, 55];
  }

  lemma LettersPieces()
    ensures ToBits(4, 2) == Flags("0010")
    ensures ToBits(9, 5) == Flags("000000101")
    ensures ToBits(11, 462) == Flags("00111001110")
    ensures ToBits(11, 1849) == Flags("11100111001")
    ensures ToBits(6, 2) == Flags("000010")
  {
    hide ToBits, Flags;
    SpelledOut("0010");
    SpelledOut("000000101");
    SpelledOut("00111001110");
    SpelledOut("11100111001");
    SpelledOut("000010");
  }

  /** AC-42 in alphanumeric mode. */
  lemma SampleLetters()
    ensures var e := Entry(An, [65, 67, 45, 52, 50]);
      GoodEntry(e) && ChunkBits(e, 1)
        == Flags("0010") + (Flags("000000101") + (Flags("00111001110") + (Flags("11100111001") + Flags("000010"))))
  {
    hide ToBits, Flags;
    LettersPieces();
    var d := [65, 67, 45, 52, 50];
    assert d[2..] == [45, 52, 50] && d[2..][2..] == [50];
  }

  lemma BytesPieces()
    ensures ToBits(4, 4) == Flags("0100")
    ensures ToBits(8, 5) == Flags("00000101")
    ensures ToBits(8, 65) == Flags("01000001")
    ensures ToBits(8, 67) == Flags("01000011")
    ensures ToBits(8, 45) == Flags("00101101")
    ensures ToBits(8, 52) == Flags("00110100")
    ensures ToBits(8, 50) == Flags("00110010")
  {
    hide ToBits, Flags;
    SpelledOut("0100");
    SpelledOut("00000101");
    SpelledOut("01000001");
    SpelledOut("01000011");
    SpelledOut("00101101");
    SpelledOut("00110100");
    SpelledOut("00110010");
  }

  /** AC-42 in 8-bit mode. */
  lemma SampleBytes()
    ensures var e := Entry(Eight, [65, 67, 45, 52, 50]);
      GoodEntry(e) && ChunkBits(e, 1)
        == Flags("0100") + (Flags("00000101") + (Flags("01000001") + (Flags("01000011") + (Flags("00101101") + (Flags("00110100") + Flags("00110010"))))))
  {
    hide ToBits, Flags;
    BytesPieces();
    var d := [65, 67, 45, 52, 50];
    assert d[1..] == [67, 45, 52, 50] && d[1..][1..] == [45, 52, 50] && [45, 52, 50][1..] == [52, 50] && [52, 50][1..] == [50] && [50][1..] == [];
  }

  lemma KanjiPieces()
    ensures ToBits(4, 8) == Flags("1000")
    ensures ToBits(8, 2) == Flags("00000010")
    ensures ToBits(13, 0xd9f) == Flags("0110110011111")
    ensures ToBits(13, 0x1aaa) == Flags("1101010101010")
  {
    hide ToBits, Flags;
    SpelledOut("1000");
    SpelledOut("00000010");
    assert Spelled("0110110011111", 7) == 54;
    SpelledOut("0110110011111");
    assert Spelled("1101010101010", 7) == 106;
    SpelledOut("1101010101010");
  }

  /** One Kanji code of either range. */
  lemma SampleKanji()
    ensures var e := Entry(Kanji, [0x93, 0x5f, 0xe4, 0xaa]);
      GoodEntry(e) && ChunkBits(e, 1) == Flags("1000") + (Flags("00000010") + (Flags("0110110011111") + Flags("1101010101010")))
  {
    hide ToBits, Flags;
    KanjiPieces();
    var d := [0x93, 0x5f, 0xe4, 0xaa];
    assert d[2..] == [0xe4, 0xaa] && d[2..][2..] == [];
  }

  lemma HeaderPieces()
    ensures ToBits(4, 3) == Flags("0011")
    ensures ToBits(4, 0) == Flags("0000")
    ensures ToBits(4, 15) == Flags("1111")
    ensures ToBits(8, 0xa5) == Flags("10100101")
  {
    hide ToBits, Flags;
    SpelledOut("0011");
    SpelledOut("0000");
    SpelledOut("1111");
    SpelledOut("10100101");
  }

  /** The header of the first of 16 symbols with parity 0xa5. */
  lemma SampleHeader()
    ensures var e := Entry(Structure, [16, 1, 0xa5]);
      GoodEntry(e) && ChunkBits(e, 1) == Flags("0011") + (Flags("0000") + (Flags("1111") + Flags("10100101")))
  {
    hide ToBits, Flags;
    HeaderPieces();
  }

  // ----- masks -----

  /** One tile of each mask, dark where it inverts. */
  function Tile(mask: nat): seq<string>
    requires mask < 8
  {
    match mask
    case 0 => ["#_#_#_", "_#_#_#", "#_#_#_", "_#_#_#", "#_#_#_", "_#_#_#"]
    case 1 => ["######", "______", "######", "______", "######", "______"]
    case 2 => ["#__#__", "#__#__", "#__#__", "#__#__", "#__#__", "#__#__"]
    case 3 => ["#__#__", "__#__#", "_#__#_", "#__#__", "__#__#", "_#__#_"]
    case 4 => ["###___", "###___", "___###", "___###"]
    case 5 => ["######", "#_____", "#__#__", "#_#_#_", "#__#__", "#_____"]
    case 6 => ["######", "###___", "##_##_", "#_#_#_", "#_##_#", "#___##"]
    case 7 => ["#_#_#_", "___###", "#___##", "_#_#_#", "###___", "_###__"]
  }

  lemma ProductModulo(x: nat, y: nat, m: nat)
    requires m == 2 || m == 3
    ensures x * y % m == (x % 6) * (y % 6) % m
  {
    var i, j, k := x % 6, y % 6, x / 6 * y + x % 6 * (y / 6);
    SixTimes(x, y);
    assert x * y == 6 * k + i * j;
    if m == 2 {
      Residue(3 * k, i * j, 2);
    } else {
      Residue(2 * k, i * j, 3);
    }
  }

  lemma SixTimes(x: nat, y: nat)
    ensures x * y == 6 * (x / 6 * y + x % 6 * (y / 6)) + x % 6 * (y % 6)
  {
    var a, i, b, j := x / 6, x % 6, y / 6, y % 6;
    assert x == 6 * a + i && y == 6 * b + j;
    assert x * y == 6 * (a * y) + i * y;
    assert i * y == 6 * (i * b) + i * j;
  }

  lemma Residue(k: nat, r: nat, m: nat)
    requires m == 2 || m == 3
    ensures (m * k + r) % m == r % m
  {}

  /** The masks repeat. */
  lemma MaskRepeats(mask: nat, x: nat, y: nat)
    requires mask < 8
    ensures QrMask.Inverts(mask, x, y) <==> QrMask.Inverts(mask, x % 6, y % |Tile(mask)|)
  {
    if mask < 5 {
      SumRepeats(x, y);
    } else {
      ProductRepeats(mask, x, y);
    }
  }

  lemma ProductRepeats(mask: nat, x: nat, y: nat)
    requires 5 <= mask < 8
    ensures QrMask.Inverts(mask, x, y) <==> QrMask.Inverts(mask, x % 6, y % 6)
  {
    ProductModulo(x, y, 2);
    ProductModulo(x, y, 3);
    if mask == 7 {
      SumRepeats(x, y);
    }
  }

  lemma SumRepeats(x: nat, y: nat)
    ensures y % 6 % 2 == y % 2 && x % 6 % 3 == x % 3
    ensures (x % 6 + y % 6) % 2 == (x + y) % 2 && (x % 6 + y % 6) % 3 == (x + y) % 3
    ensures (y % 4 / 2 + x % 6 / 3) % 2 == (y / 2 + x / 3) % 2
  {
    var a, i, b, j := x / 6, x % 6, y / 6, y % 6;
    assert x + y == 2 * (3 * a + 3 * b) + (i + j) && x + y == 3 * (2 * a + 2 * b) + (i + j);
    Residue(3 * a + 3 * b, i + j, 2);
    Residue(2 * a + 2 * b, i + j, 3);
    Residue(3 * b, j, 2);
    Residue(2 * a, i, 3);
    assert y / 2 + x / 3 == 2 * (y / 4 + a) + (y % 4 / 2 + i / 3);
    Residue(y / 4 + a, y % 4 / 2 + i / 3, 2);
  }

  /** The tiles, one kind after the other. */
  lemma TileOfOne(mask: nat, i: nat, j: nat)
    requires mask < 3 && i < 6 && j < 6
    ensures |Tile(mask)[j]| == 6
    ensures QrMask.Inverts(mask, i, j) <==> Tile(mask)[j][i] == '#'
  {
    if j == 0 {
    } else if j == 1 {
    } else if j == 2 {
    } else if j == 3 {
    } else if j == 4 {
    } else {
    }
  }

  lemma TileOfSums(mask: nat, i: nat, j: nat)
    requires 3 <= mask < 5 && i < 6 && j < |Tile(mask)|
    ensures |Tile(mask)[j]| == 6
    ensures QrMask.Inverts(mask, i, j) <==> Tile(mask)[j][i] == '#'
  {
    if j == 0 {
    } else if j == 1 {
    } else if j == 2 {
    } else if j == 3 {
    } else if j == 4 {
    } else {
    }
  }

  lemma TileFive(i: nat, j: nat)
    requires i < 6 && j < 6
    ensures |Tile(5)[j]| == 6
    ensures QrMask.Inverts(5, i, j) <==> Tile(5)[j][i] == '#'
  {
    hide QrMask.Inverts;
    InvertsByResidues(i, j);
  }

  lemma TileSix(i: nat, j: nat)
    requires i < 6 && j < 6
    ensures |Tile(6)[j]| == 6
    ensures QrMask.Inverts(6, i, j) <==> Tile(6)[j][i] == '#'
  {
    hide QrMask.Inverts;
    InvertsByResidues(i, j);
  }

  lemma TileSeven(i: nat, j: nat)
    requires i < 6 && j < 6
    ensures |Tile(7)[j]| == 6
    ensures QrMask.Inverts(7, i, j) <==> Tile(7)[j][i] == '#'
  {
    hide QrMask.Inverts;
    InvertsByResidues(i, j);
  }

  /** The three masks that take a product, without it. */
  lemma InvertsByResidues(i: nat, j: nat)
    requires i < 6 && j < 6
    ensures var p := i % 2 != 0 && j % 2 != 0; var q := i % 3 == 0 || j % 3 == 0; var same := i % 3 == j % 3;
      && (QrMask.Inverts(5, i, j) <==> !p && q)
      && (QrMask.Inverts(6, i, j) <==> if q then !p else if same then p else !p)
      && (QrMask.Inverts(7, i, j) <==> if q || !same then i % 2 == j % 2 else i % 2 != j % 2)
  {
    hide QrMask.Inverts;
    Residues(i, j);
    ByResidues(i, j, i * j % 2, i * j % 3);
  }

  lemma ByResidues(x: nat, y: nat, two: nat, three: nat)
    requires two == x * y % 2 && three == x * y % 3
    ensures QrMask.Inverts(5, x, y) <==> two + three == 0
    ensures QrMask.Inverts(6, x, y) <==> (two + three) % 2 == 0
    ensures QrMask.Inverts(7, x, y) <==> (three + (x + y) % 2) % 2 == 0
  {}

  /** Residues of a product. */
  lemma Residues(i: nat, j: nat)
    requires i < 6 && j < 6
    ensures i * j % 2 == (if i % 2 == 0 || j % 2 == 0 then 0 else 1)
    ensures i * j % 3 == (if i % 3 == 0 || j % 3 == 0 then 0 else if i % 3 == j % 3 then 1 else 2)
  {
    if j == 0 {
    } else if j == 1 {
    } else if j == 2 {
    } else if j == 3 {
    } else if j == 4 {
    } else {
    }
  }

  /** The masks, module by module: their tiles, repeated without end. */
  lemma MaskPicture(mask: nat, x: nat, y: nat)
    requires mask < 8
    ensures var row := y % |Tile(mask)|;
      |Tile(mask)[row]| == 6 && (QrMask.Inverts(mask, x, y) <==> Tile(mask)[row][x % 6] == '#')
  {
    hide QrMask.Inverts;
    MaskRepeats(mask, x, y);
    if mask < 3 {
      TileOfOne(mask, x % 6, y % 6);
    } else if mask < 5 {
      TileOfSums(mask, x % 6, y % |Tile(mask)|);
    } else if mask == 5 {
      TileFive(x % 6, y % 6);
    } else if mask == 6 {
      TileSix(x % 6, y % 6);
    } else {
      TileSeven(x % 6, y % 6);
    }
  }
}
