/** What the frame looks like. */
module QrPicture {
  // The function patterns as colours, by themselves: corners, timing lines, alignment positions and
  // the two copies of the version.
  import opened QrSpec
  import opened QrBits
  import opened QrFrame
  import opened QrPatterns
  import opened QrNewFrame
  import QrMask

  /** A finder pattern with its separator, from the corner of the symbol. */
  const CORNER := ["#######_", "#_____#_", "#_###_#_", "#_###_#_", "#_###_#_", "#_____#_", "#######_", "________"]

  predicate DarkAt(version: nat, x: int, y: int) {
    QrMask.DarkByte(FrameModule(version, x, y))
  }

  lemma AcrossPlaces(version: nat, t: int)
    requires 1 <= version <= VERSION_MAX
    ensures var n := Positions(version);
      && (0 <= Across(version, t, n) ==> 16 <= t)
      && (2 <= n && 0 <= Across(version, t, n - 1) ==> 16 <= t <= Width(version) - 21)
  {
    hide Across, Width, Centre;
    var n := Positions(version);
    if version == 1 {
      AcrossNone(version, t);
    } else {
      if 0 <= Across(version, t, n) {
        AcrossRange(version, t, n);
      }
      if 2 <= n && 0 <= Across(version, t, n - 1) {
        AcrossRange(version, t, n - 1);
      }
    }
  }

  lemma NoAlignmentInCorner(version: nat, x: int, y: int)
    requires 1 <= version <= VERSION_MAX
    requires x < 8 || Width(version) - 8 <= x
    requires y < 8 || Width(version) - 8 <= y
    requires x < 8 || y < 8
    ensures !InAlignment(version, x, y)
  {
    hide Across, Positions, Width;
    WidthFits(version);
    AcrossPlaces(version, x);
    AcrossPlaces(version, y);
  }

  lemma CornerModule(version: nat, x: int, y: int, i: nat, j: nat)
    requires 1 <= version <= VERSION_MAX && i < 8 && j < 8 && |CORNER[j]| == 8
    requires x == i || x == Width(version) - 1 - i
    requires y == j || y == Width(version) - 1 - j
    requires x == i || y == j
    ensures DarkAt(version, x, y) <==> CORNER[j][i] == '#'
  {
    hide Width, WithAlignment, InAlignment, VersionInfo, Bit, WithTiming, QrMask.DarkByte;
    WidthFits(version);
    NoAlignmentInCorner(version, x, y);
    OffAlignment(version, x, y);
    CornerLayers(Width(version), x, y, i, j);
  }

  lemma CornerLayers(w: nat, x: int, y: int, i: nat, j: nat)
    requires 21 <= w && i < 8 && j < 8 && |CORNER[j]| == 8
    requires x == i || x == w - 1 - i
    requires y == j || y == w - 1 - j
    requires x == i || y == j
    ensures QrMask.DarkByte(WithTiming(w, x, y)) <==> CORNER[j][i] == '#'
  {
    if i == 7 || j == 7 {
      assert InSeparator(w, x, y);
    } else {
      assert InFinder(w, x, y) && !InSeparator(w, x, y) && !InFormat(w, x, y) && !InTiming(w, x, y);
    }
  }

  lemma CornerRows(j: nat)
    requires j < 8
    ensures |CORNER[j]| == 8
  {}

  /** The three corners mirror each other. */
  lemma Corners(version: nat, i: nat, j: nat)
    requires 1 <= version <= VERSION_MAX && i < 8 && j < 8
    ensures |CORNER[j]| == 8
    ensures DarkAt(version, i, j) <==> CORNER[j][i] == '#'
    ensures DarkAt(version, Width(version) - 1 - i, j) <==> CORNER[j][i] == '#'
    ensures DarkAt(version, i, Width(version) - 1 - j) <==> CORNER[j][i] == '#'
  {
    hide Width, DarkAt;
    CornerRows(j);
    CornerModule(version, i, j, i, j);
    CornerModule(version, Width(version) - 1 - i, j, i, j);
    CornerModule(version, i, Width(version) - 1 - j, i, j);
  }

  lemma CentresEven(version: nat, i: nat)
    ensures Centre(version, i) % 2 == 0
  {
    StartEven(version);
    NextEven(version);
    var k := Distance(version) / 2;
    assert Distance(version) == 2 * k;
    assert i * Distance(version) == 2 * (i * k);
  }

  lemma StartEven(version: nat)
    ensures AlignmentStart(version) % 2 == 0
  {}

  lemma NextEven(version: nat)
    ensures AlignmentNext(version) % 2 == 0
  {}

  lemma {:induction false} AcrossParity(version: nat, t: int, n: nat)
    requires 0 <= Across(version, t, n)
    ensures Across(version, t, n) % 2 == t % 2
  {
    hide Centre;
    CentresEven(version, n - 1);
    if !(Centre(version, n - 1) - 2 <= t <= Centre(version, n - 1) + 2) {
      AcrossParity(version, t, n - 1);
    }
  }

  lemma MiddleOfMark(o: int)
    requires 0 <= o <= 4
    ensures QrMask.DarkByte(AlignmentMark(o, 2)) <==> o % 2 == 0
    ensures QrMask.DarkByte(AlignmentMark(2, o)) <==> o % 2 == 0
  {}

  /** The timing lines alternate from corner to corner, alignment patterns or not. */
  lemma TimingLines(version: nat, t: nat)
    requires 1 <= version <= VERSION_MAX && 8 <= t <= Width(version) - 9
    ensures DarkAt(version, t, 6) <==> t % 2 == 0
    ensures DarkAt(version, 6, t) <==> t % 2 == 0
  {
    hide Across, Positions, AlignmentMark, VersionInfo, Bit, Centre;
    var n := Positions(version);
    AcrossPlaces(version, t);
    AcrossPlaces(version, 6);
    AcrossNone(version, t);
    AcrossNone(version, 6);
    if 2 <= n && 0 <= Across(version, t, n - 1) {
      AcrossParity(version, t, n - 1);
      MiddleOfMark(Across(version, t, n - 1));
    }
  }

  /** Bit b of the version is in column b % 3 of the block at the top right, and mirrored. */
  lemma VersionCopies(version: nat, b: nat)
    requires 7 <= version <= VERSION_MAX && b < 18
    ensures DarkAt(version, Width(version) - 11 + b % 3, b / 3) <==> Bit(VersionInfo(version), b)
    ensures DarkAt(version, b / 3, Width(version) - 11 + b % 3) <==> Bit(VersionInfo(version), b)
  {
    hide VersionInfo, Bit, WithAlignment;
  }

  /** The centres of version 7 and more are evenly spaced from the far edge: as far as the span from
      6 to there allows when it is rounded to the next even number, save at version 32. */
  lemma Spacing(version: nat)
    requires 7 <= version <= VERSION_MAX
    ensures var a := version / 7 + 1;
      Distance(version) == if version == 32 then 26 else (4 * version + 4 + 2 * a - 1) / (2 * a) * 2
  {
    if version < 14 {
      assert version / 7 == 1;
    } else if version < 21 {
      assert version / 7 == 2;
    } else if version < 28 {
      assert version / 7 == 3;
    } else if version < 35 {
      assert version / 7 == 4;
    } else {
      assert version / 7 == 5;
    }
  }

  /** The first byte is the 2 by 4 block in the last corner, from right to left and upwards. */
  lemma FirstByte(version: nat, k: nat)
    requires 1 <= version <= VERSION_MAX && k < 8
    ensures 0 < Width(version)
    ensures var order := ZigzagOrder(Width(version), Patterns(version));
      k < |order| && order[k] == Cell(Width(version) - 1 - k % 2, Width(version) - 1 - k / 2)
  {
    hide Width, InPattern;
    WidthFits(version);
    forall j: nat | j < 8 ensures Cell(Width(version) - 1 - j % 2, Width(version) - 1 - j / 2) !in Patterns(version) {
      LastCorner(version, Width(version) - 1 - j % 2, Width(version) - 1 - j / 2);
    }
    var reserved := Patterns(version);
    UpTheRight(Width(version), reserved, 0);
  }

  lemma LastCorner(version: nat, x: int, y: int)
    requires 1 <= version <= VERSION_MAX && Width(version) - 2 <= x < Width(version) && Width(version) - 4 <= y < Width(version)
    ensures !InPattern(version, x, y)
  {
    hide Across, Centre, Width, AlignmentStart, AlignmentNext;
    WidthFits(version);
    var n := Positions(version);
    AcrossPlaces(version, x);
    AcrossPlaces(version, y);
    if 2 <= version {
      if 0 <= Across(version, x, n) {
        AcrossRange(version, x, n);
      }
    } else {
      AcrossNone(version, x);
    }
  }

  lemma SomePairs(w: nat)
    requires 21 <= w
    ensures 0 < Pairs(w)
  {}

  lemma StepOfFour(w: nat, k: nat)
    requires 21 <= w && k < 8
    ensures Next(w, Place(0, k / 2, k % 2)) == Place(0, (k + 1) / 2, (k + 1) % 2)
    ensures CellAt(w, Place(0, k / 2, k % 2)) == Cell(w - 1 - k % 2, w - 1 - k / 2)
  {}

  lemma {:induction false} UpTheRight(w: nat, reserved: set<Cell>, k: nat)
    requires 21 <= w && k <= 8
    requires forall j: nat :: j < 8 ==> Cell(w - 1 - j % 2, w - 1 - j / 2) !in reserved
    ensures var r := FreeFrom(w, reserved, Place(0, k / 2, k % 2));
      8 - k <= |r| && forall j: nat :: k <= j < 8 ==> r[j - k] == Cell(w - 1 - j % 2, w - 1 - j / 2)
    decreases 8 - k
  {
    hide Next, CellAt, Pairs;
    SomePairs(w);
    if k < 8 {
      UpTheRight(w, reserved, k + 1);
      StepOfFour(w, k);
    }
  }
}
