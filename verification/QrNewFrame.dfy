/** The empty frame of a symbol, QRspec_createFrame of qrspec.c. */
module QrNewFrame {
  // The patterns are layers, and a later one covers an earlier one. Every module of a pattern has
  // its highest bit set.
  import opened Arithmetic
  import opened QrSpec
  import opened QrBits
  import opened QrFrame
  import opened QrPatterns
  import QrMask

  // ----- the layers -----

  /** Distance of (x, y) from a centre module (r, r), along the rows or columns. */
  function Ring(x: int, y: int, r: int): int {
    var a, b := if x < r then r - x else x - r, if y < r then r - y else y - r;
    if a < b then b else a
  }

  /** Module of a finder pattern, 7 by 7: the second ring is light. */
  function FinderMark(x: int, y: int): bv8 {
    if Ring(x, y, 3) == 2 then 0xc0 else 0xc1
  }

  /** Module of an alignment pattern, 5 by 5: the first ring is light. */
  function AlignmentMark(x: int, y: int): bv8 {
    if Ring(x, y, 2) == 1 then 0xa0 else 0xa1
  }

  function WithFinders(w: nat, x: int, y: int): bv8 {
    if !InFinder(w, x, y) then 0
    else FinderMark(if x < 7 then x else x - (w - 7), if y < 7 then y else y - (w - 7))
  }

  function WithSeparators(w: nat, x: int, y: int): bv8 {
    if InSeparator(w, x, y) then 0xc0 else WithFinders(w, x, y)
  }

  function WithFormat(w: nat, x: int, y: int): bv8 {
    if InFormat(w, x, y) then 0x84 else WithSeparators(w, x, y)
  }

  /** The timing pattern is dark in every second row or column, the even ones. */
  function WithTiming(w: nat, x: int, y: int): bv8 {
    if InTiming(w, x, y) then (if (x + y) % 2 == 0 then 0x91 else 0x90) else WithFormat(w, x, y)
  }

  /** With the patterns of row 6 and column 6 around the first n positions. */
  function WithEdges(version: nat, n: nat, x: int, y: int): bv8 {
    if 4 <= y <= 8 && 0 <= Across(version, x, n) then AlignmentMark(Across(version, x, n), y - 4)
    else if 4 <= x <= 8 && 0 <= Across(version, y, n) then AlignmentMark(x - 4, Across(version, y, n))
    else WithTiming(Width(version), x, y)
  }

  function WithAlignment(version: nat, x: int, y: int): bv8 {
    var n := Positions(version);
    if 0 <= Across(version, x, n) && 0 <= Across(version, y, n) then AlignmentMark(Across(version, x, n), Across(version, y, n))
    else WithEdges(version, if n < 2 then 0 else n - 1, x, y)
  }

  /** QRspec_getVersionPattern. */
  function VersionInfo(version: nat): nat {
    if version < 7 || version > VERSION_MAX then 0
    else
      [0x07c94, 0x085bc, 0x09a99, 0x0a4d3, 0x0bbf6, 0x0c762, 0x0d847, 0x0e60d,
       0x0f928, 0x10b78, 0x1145d, 0x12a17, 0x13532, 0x149a6, 0x15683, 0x168c9,
       0x177ec, 0x18ec4, 0x191e1, 0x1afab, 0x1b08e, 0x1cc1a, 0x1d33f, 0x1ed75,
       0x1f250, 0x209d5, 0x216f0, 0x228ba, 0x2379f, 0x24b0b, 0x2542e, 0x26a64,
       0x27541, 0x28c69][version - 7]
  }

  function VersionModule(bit: bool): bv8 {
    if bit then 0x89 else 0x88
  }

  /** Bit 3 * long + short of the version information is at distance `long` from the edge. */
  function WithVersion(version: nat, x: int, y: int): bv8 {
    var w := Width(version);
    if !InVersion(version, x, y) || x < 0 || y < 0 then WithAlignment(version, x, y)
    else if y <= 5 then VersionModule(Bit(VersionInfo(version), 3 * y + (x - (w - 11))))
    else VersionModule(Bit(VersionInfo(version), 3 * x + (y - (w - 11))))
  }

  /** The module of a frame: all layers, and the dark module. */
  function FrameModule(version: nat, x: int, y: int): bv8 {
    if x == 8 && y == Width(version) - 8 then 0x81 else WithVersion(version, x, y)
  }

  lemma MarksReserved(x: int, y: int)
    ensures Reserved(FinderMark(x, y)) && Reserved(AlignmentMark(x, y))
  {}

  lemma LayersReserved(w: nat, x: int, y: int)
    ensures Reserved(WithTiming(w, x, y)) <==> InFinder(w, x, y) || InSeparator(w, x, y) || InFormat(w, x, y) || InTiming(w, x, y)
    ensures WithTiming(w, x, y) == 0 || Reserved(WithTiming(w, x, y))
  {
    hide FinderMark, InFinder, InSeparator, InFormat, InTiming;
    MarksReserved(if x < 7 then x else x - (w - 7), if y < 7 then y else y - (w - 7));
  }

  /** Exactly the modules of the patterns are reserved, and the others are still empty. */
  lemma FrameReserved(version: nat, x: int, y: int)
    requires 1 <= version <= VERSION_MAX && 0 <= x < Width(version) && 0 <= y < Width(version)
    ensures Reserved(FrameModule(version, x, y)) <==> Cell(x, y) in Patterns(version)
    ensures FrameModule(version, x, y) == 0 || Reserved(FrameModule(version, x, y))
  {
    hide Positions, Across, Width, WithTiming, AlignmentMark, InFinder, InSeparator, InFormat, InTiming, InVersion, Bit, VersionInfo;
    var n := Positions(version);
    LayersReserved(Width(version), x, y);
    MarksReserved(Across(version, x, n), Across(version, y, n));
    AcrossNone(version, x);
    AcrossNone(version, y);
    if 2 <= n {
      MarksReserved(Across(version, x, n - 1), y - 4);
      MarksReserved(x - 4, Across(version, y, n - 1));
    }
  }

  // ----- painting -----

  const FINDER: seq<seq<bv8>> :=
    [[0xc1, 0xc1, 0xc1, 0xc1, 0xc1, 0xc1, 0xc1],
     [0xc1, 0xc0, 0xc0, 0xc0, 0xc0, 0xc0, 0xc1],
     [0xc1, 0xc0, 0xc1, 0xc1, 0xc1, 0xc0, 0xc1],
     [0xc1, 0xc0, 0xc1, 0xc1, 0xc1, 0xc0, 0xc1],
     [0xc1, 0xc0, 0xc1, 0xc1, 0xc1, 0xc0, 0xc1],
     [0xc1, 0xc0, 0xc0, 0xc0, 0xc0, 0xc0, 0xc1],
     [0xc1, 0xc1, 0xc1, 0xc1, 0xc1, 0xc1, 0xc1]]

  const MARKER: seq<seq<bv8>> :=
    [[0xa1, 0xa1, 0xa1, 0xa1, 0xa1],
     [0xa1, 0xa0, 0xa0, 0xa0, 0xa1],
     [0xa1, 0xa0, 0xa1, 0xa0, 0xa1],
     [0xa1, 0xa0, 0xa0, 0xa0, 0xa1],
     [0xa1, 0xa1, 0xa1, 0xa1, 0xa1]]

  /** The tables of the source are rings around the middle. */
  lemma FinderTable(x: int, y: int)
    requires 0 <= x < 7 && 0 <= y < 7
    ensures |FINDER| == 7 && |FINDER[y]| == 7 && FINDER[y][x] == FinderMark(x, y)
  {}

  lemma MarkerTable(x: int, y: int)
    requires 0 <= x < 5 && 0 <= y < 5
    ensures |MARKER| == 5 && |MARKER[y]| == 5 && MARKER[y][x] == AlignmentMark(x, y)
  {}

  method PutFinderPattern(frame: array2<bv8>, ox: nat, oy: nat)
    requires ox + 7 <= frame.Length1 && oy + 7 <= frame.Length0
    modifies frame
    ensures forall y, x :: 0 <= y < frame.Length0 && 0 <= x < frame.Length1 ==>
      frame[y, x] == if ox <= x < ox + 7 && oy <= y < oy + 7 then FinderMark(x - ox, y - oy) else old(frame[y, x])
  {
    hide FinderMark;
    for i := 0 to 7
      invariant forall y, x :: 0 <= y < frame.Length0 && 0 <= x < frame.Length1 ==>
        frame[y, x] == if ox <= x < ox + 7 && oy <= y < oy + i then FinderMark(x - ox, y - oy) else old(frame[y, x])
    {
      for j := 0 to 7
        invariant forall y, x :: 0 <= y < frame.Length0 && 0 <= x < frame.Length1 ==>
          frame[y, x] == if (ox <= x < ox + 7 && oy <= y < oy + i) || (y == oy + i && ox <= x < ox + j)
                         then FinderMark(x - ox, y - oy) else old(frame[y, x])
      {
        FinderTable(j, i);
        frame[oy + i, ox + j] := FINDER[i][j];
      }
    }
  }

  method PutAlignmentMarker(frame: array2<bv8>, ox: nat, oy: nat)
    requires 2 <= ox && ox + 3 <= frame.Length1 && 2 <= oy && oy + 3 <= frame.Length0
    modifies frame
    ensures forall y, x :: 0 <= y < frame.Length0 && 0 <= x < frame.Length1 ==>
      frame[y, x] == if ox - 2 <= x <= ox + 2 && oy - 2 <= y <= oy + 2 then AlignmentMark(x - ox + 2, y - oy + 2) else old(frame[y, x])
  {
    hide AlignmentMark;
    for i := 0 to 5
      invariant forall y, x :: 0 <= y < frame.Length0 && 0 <= x < frame.Length1 ==>
        frame[y, x] == if ox - 2 <= x <= ox + 2 && oy - 2 <= y < oy - 2 + i then AlignmentMark(x - ox + 2, y - oy + 2) else old(frame[y, x])
    {
      for j := 0 to 5
        invariant forall y, x :: 0 <= y < frame.Length0 && 0 <= x < frame.Length1 ==>
          frame[y, x] == if (ox - 2 <= x <= ox + 2 && oy - 2 <= y < oy - 2 + i) || (y == oy - 2 + i && ox - 2 <= x < ox - 2 + j)
                         then AlignmentMark(x - ox + 2, y - oy + 2) else old(frame[y, x])
      {
        MarkerTable(j, i);
        frame[oy - 2 + i, ox - 2 + j] := MARKER[i][j];
      }
    }
  }

  /** memset on a part of a row. */
  method FillRow(frame: array2<bv8>, row: nat, from: nat, n: nat, v: bv8)
    requires row < frame.Length0 && from + n <= frame.Length1
    modifies frame
    ensures forall y, x :: 0 <= y < frame.Length0 && 0 <= x < frame.Length1 ==>
      frame[y, x] == if y == row && from <= x < from + n then v else old(frame[y, x])
  {
    for i := 0 to n
      invariant forall y, x :: 0 <= y < frame.Length0 && 0 <= x < frame.Length1 ==>
        frame[y, x] == if y == row && from <= x < from + i then v else old(frame[y, x])
    {
      frame[row, from + i] := v;
    }
  }

  /** The same down a column. */
  method FillColumn(frame: array2<bv8>, column: nat, from: nat, n: nat, v: bv8)
    requires column < frame.Length1 && from + n <= frame.Length0
    modifies frame
    ensures forall y, x :: 0 <= y < frame.Length0 && 0 <= x < frame.Length1 ==>
      frame[y, x] == if x == column && from <= y < from + n then v else old(frame[y, x])
  {
    for i := 0 to n
      invariant forall y, x :: 0 <= y < frame.Length0 && 0 <= x < frame.Length1 ==>
        frame[y, x] == if x == column && from <= y < from + i then v else old(frame[y, x])
    {
      frame[from + i, column] := v;
    }
  }

  /** Finder patterns, separators, format area. */
  method PutCorners(frame: array2<bv8>)
    requires 21 <= frame.Length0 == frame.Length1
    requires forall y, x :: 0 <= y < frame.Length0 && 0 <= x < frame.Length1 ==> frame[y, x] == 0
    modifies frame
    ensures forall y, x :: 0 <= y < frame.Length0 && 0 <= x < frame.Length1 ==> frame[y, x] == WithFormat(frame.Length0, x, y)
  {
    hide FinderMark;
    var width := frame.Length0;
    PutFinderPattern(frame, 0, 0);
    PutFinderPattern(frame, width - 7, 0);
    PutFinderPattern(frame, 0, width - 7);
    PutSeparators(frame);
    FillRow(frame, 8, 0, 9, 0x84);
    FillRow(frame, 8, width - 8, 8, 0x84);
    FillColumn(frame, 8, 0, 8, 0x84);
    FillColumn(frame, 8, width - 7, 7, 0x84);
  }

  method PutSeparators(frame: array2<bv8>)
    requires 21 <= frame.Length0 == frame.Length1
    modifies frame
    ensures forall y, x :: 0 <= y < frame.Length0 && 0 <= x < frame.Length1 ==>
      frame[y, x] == if InSeparator(frame.Length0, x, y) then 0xc0 else old(frame[y, x])
  {
    var width := frame.Length0;
    for y := 0 to 7
      invariant forall i, x :: 0 <= i < width && 0 <= x < width ==>
        frame[i, x] == if ((x == 7 || x == width - 8) && i < y) || (x == 7 && width - 7 <= i < width - 7 + y) then 0xc0 else old(frame[i, x])
    {
      frame[y, 7] := 0xc0;
      frame[y, width - 8] := 0xc0;
      frame[width - 7 + y, 7] := 0xc0;
    }
    FillRow(frame, 7, 0, 8, 0xc0);
    FillRow(frame, 7, width - 8, 8, 0xc0);
    FillRow(frame, width - 8, 0, 8, 0xc0);
  }

  method PutTiming(frame: array2<bv8>)
    requires 21 <= frame.Length0 == frame.Length1
    modifies frame
    ensures forall y, x :: 0 <= y < frame.Length0 && 0 <= x < frame.Length1 ==>
      frame[y, x] == if InTiming(frame.Length0, x, y) then (if (x + y) % 2 == 0 then 0x91 else 0x90) else old(frame[y, x])
  {
    var width := frame.Length0;
    for x := 1 to width - 15
      invariant forall i, j :: 0 <= i < width && 0 <= j < width ==>
        frame[i, j] == if (i == 6 && 8 <= j < 7 + x) || (j == 6 && 8 <= i < 7 + x) then (if (i + j) % 2 == 0 then 0x91 else 0x90) else old(frame[i, j])
    {
      var v: bv8 := if x % 2 == 1 then 0x91 else 0x90;
      frame[6, 7 + x] := v;
      frame[7 + x, 6] := v;
    }
  }

  /** Two more markers on row 6 and column 6. */
  lemma EdgeStep(version: nat, k: nat, x: int, y: int)
    requires 2 <= version <= VERSION_MAX && k < Positions(version)
    ensures var c := Centre(version, k);
      WithEdges(version, k + 1, x, y) ==
        if c - 2 <= x <= c + 2 && 4 <= y <= 8 then AlignmentMark(x - c + 2, y - 4)
        else if 4 <= x <= 8 && c - 2 <= y <= c + 2 then AlignmentMark(x - 4, y - c + 2)
        else WithEdges(version, k, x, y)
  {
    hide Across, Centre, Positions, AlignmentMark, WithTiming, Width;
    AcrossStep(version, x, k);
    AcrossStep(version, y, k);
    CentreBetween(version, k);
    if 0 <= Across(version, x, k) {
      AcrossRange(version, x, k);
    }
    if 0 <= Across(version, y, k) {
      AcrossRange(version, y, k);
    }
  }

  /** The grid when r rows of it have been painted, and c patterns of the next row. */
  function WithGrid(version: nat, r: nat, c: nat, x: int, y: int): bv8 {
    var n := Positions(version);
    if Centre(version, r) - 2 <= y <= Centre(version, r) + 2 && 0 <= Across(version, x, c) then AlignmentMark(Across(version, x, c), y - Centre(version, r) + 2)
    else if 0 <= Across(version, x, n) && 0 <= Across(version, y, r) then AlignmentMark(Across(version, x, n), Across(version, y, r))
    else WithEdges(version, if n < 2 then 0 else n - 1, x, y)
  }

  lemma GridStep(version: nat, r: nat, c: nat, x: int, y: int)
    requires 2 <= version <= VERSION_MAX && r < Positions(version) && c < Positions(version)
    ensures var a, b := Centre(version, c), Centre(version, r);
      WithGrid(version, r, c + 1, x, y) ==
        if a - 2 <= x <= a + 2 && b - 2 <= y <= b + 2 then AlignmentMark(x - a + 2, y - b + 2) else WithGrid(version, r, c, x, y)
  {
    hide Across, Centre, Positions, AlignmentMark, WithEdges;
    AcrossStep(version, x, c);
  }

  lemma GridRow(version: nat, r: nat, x: int, y: int)
    ensures WithGrid(version, r, Positions(version), x, y) == WithGrid(version, r + 1, 0, x, y)
  {
    hide Centre, Positions, AlignmentMark, WithEdges;
    hide Across;
    AcrossStep(version, y, r);
    AcrossNone(version, x);
  }

  lemma GridEnds(version: nat, x: int, y: int)
    ensures var n := Positions(version);
      && WithGrid(version, 0, 0, x, y) == WithEdges(version, if n < 2 then 0 else n - 1, x, y)
      && WithGrid(version, n, 0, x, y) == WithAlignment(version, x, y)
      && WithEdges(version, 0, x, y) == WithTiming(Width(version), x, y)
  {
    hide Centre, Positions, AlignmentMark, WithTiming;
    hide Across;
    AcrossNone(version, x);
    AcrossNone(version, y);
  }

  lemma CentreNext(version: nat, i: nat)
    ensures Centre(version, 0) == AlignmentStart(version)
    ensures Centre(version, i + 1) == Centre(version, i) + Distance(version)
  {
    hide AlignmentStart, AlignmentNext;
  }

  method PutEdges(version: nat, frame: array2<bv8>, w: nat)
    requires 2 <= version <= VERSION_MAX && frame.Length0 == frame.Length1 == Width(version) && w == Positions(version) + 1 && 3 <= w
    requires forall y, x :: 0 <= y < frame.Length0 && 0 <= x < frame.Length1 ==> frame[y, x] == WithEdges(version, 0, x, y)
    modifies frame
    ensures forall y, x :: 0 <= y < frame.Length0 && 0 <= x < frame.Length1 ==> frame[y, x] == WithEdges(version, w - 2, x, y)
  {
    hide Width, WithEdges, AlignmentMark, Positions, AlignmentStart, AlignmentNext, Centre;
    WidthAtLeast(version);
    CentreNext(version, 0);
    var cx := AlignmentStart(version);
    for x := 1 to w - 1
      invariant cx == Centre(version, x - 1)
      invariant forall i, j :: 0 <= i < frame.Length0 && 0 <= j < frame.Length1 ==> frame[i, j] == WithEdges(version, x - 1, j, i)
    {
      CentreBetween(version, x - 1);
      PutAlignmentMarker(frame, 6, cx);
      PutAlignmentMarker(frame, cx, 6);
      forall i, j | 0 <= i < frame.Length0 && 0 <= j < frame.Length1 ensures frame[i, j] == WithEdges(version, x, j, i) {
        EdgeStep(version, x - 1, j, i);
      }
      cx := cx + Distance(version);
      CentreNext(version, x - 1);
    }
  }

  method PutGrid(version: nat, frame: array2<bv8>, w: nat)
    requires 2 <= version <= VERSION_MAX && frame.Length0 == frame.Length1 == Width(version) && w == Positions(version) + 1
    requires forall y, x :: 0 <= y < frame.Length0 && 0 <= x < frame.Length1 ==> frame[y, x] == WithGrid(version, 0, 0, x, y)
    modifies frame
    ensures forall y, x :: 0 <= y < frame.Length0 && 0 <= x < frame.Length1 ==> frame[y, x] == WithGrid(version, w - 1, 0, x, y)
  {
    hide Width, WithGrid, AlignmentMark, Positions, AlignmentStart, AlignmentNext, Centre;
    CentreNext(version, 0);
    var cy := AlignmentStart(version);
    for y := 0 to w - 1
      invariant cy == Centre(version, y)
      invariant forall i, j :: 0 <= i < frame.Length0 && 0 <= j < frame.Length1 ==> frame[i, j] == WithGrid(version, y, 0, j, i)
    {
      var cx := AlignmentStart(version);
      CentreBetween(version, y);
      for x := 0 to w - 1
        invariant cx == Centre(version, x)
        invariant forall i, j :: 0 <= i < frame.Length0 && 0 <= j < frame.Length1 ==> frame[i, j] == WithGrid(version, y, x, j, i)
      {
        CentreBetween(version, x);
        PutAlignmentMarker(frame, cx, cy);
        forall i, j | 0 <= i < frame.Length0 && 0 <= j < frame.Length1 ensures frame[i, j] == WithGrid(version, y, x + 1, j, i) {
          GridStep(version, y, x, j, i);
        }
        cx := cx + Distance(version);
        CentreNext(version, x);
      }
      forall i, j | 0 <= i < frame.Length0 && 0 <= j < frame.Length1 ensures frame[i, j] == WithGrid(version, y + 1, 0, j, i) {
        GridRow(version, y, j, i);
      }
      cy := cy + Distance(version);
      CentreNext(version, y);
    }
  }

  /** The code finds the number of positions, counting the first one, from the width. */
  lemma PositionCount(version: nat)
    requires 2 <= version <= VERSION_MAX
    ensures var d := AlignmentNext(version) - AlignmentStart(version);
      && d != 0 && AlignmentStart(version) <= Width(version)
      && Positions(version) + 1 == (if d < 0 then 2 else (Width(version) - AlignmentStart(version)) / d + 2)
    ensures Positions(version) == 1 ==> Centre(version, 0) == AlignmentStart(version)
  {
    hide AlignmentStart, AlignmentNext;
    TableFits(version);
    CentreNext(version, 0);
    if 7 <= version {
      MulMonotone(Distance(version), 0, version / 7);
    }
  }

  /** QRspec_putAlignmentPattern. */
  method PutAlignmentPattern(version: nat, frame: array2<bv8>)
    requires 1 <= version <= VERSION_MAX && frame.Length0 == frame.Length1 == Width(version)
    requires forall y, x :: 0 <= y < frame.Length0 && 0 <= x < frame.Length1 ==> frame[y, x] == WithTiming(Width(version), x, y)
    modifies frame
    ensures forall y, x :: 0 <= y < frame.Length0 && 0 <= x < frame.Length1 ==> frame[y, x] == WithAlignment(version, x, y)
  {
    hide Width, WithTiming, WithEdges, WithAlignment, WithGrid, AlignmentMark, AlignmentStart, AlignmentNext, Centre;
    forall x: int, y: int {
      GridEnds(version, x, y);
    }
    if version < 2 {
      return;
    }
    hide Positions;
    PositionCount(version);
    var d := AlignmentNext(version) - AlignmentStart(version);
    var w := if d < 0 then 2 else (frame.Length0 - AlignmentStart(version)) / d + 2;
    if w * w - 3 == 1 {
      PutSingle(version, frame);
      return;
    }
    SquareOfTwo(w);
    PutEdges(version, frame, w);
    PutGrid(version, frame, w);
  }

  lemma SquareOfTwo(w: nat)
    requires 2 <= w && w * w - 3 != 1
    ensures 3 <= w
  {}

  /** Versions 2 to 6 have one pattern off the finder patterns. */
  method PutSingle(version: nat, frame: array2<bv8>)
    requires 2 <= version <= VERSION_MAX && frame.Length0 == frame.Length1 == Width(version) && Positions(version) == 1
    requires forall y, x :: 0 <= y < frame.Length0 && 0 <= x < frame.Length1 ==> frame[y, x] == WithGrid(version, 0, 0, x, y)
    modifies frame
    ensures forall y, x :: 0 <= y < frame.Length0 && 0 <= x < frame.Length1 ==> frame[y, x] == WithGrid(version, 1, 0, x, y)
  {
    hide Width, WithGrid, AlignmentMark, AlignmentStart, AlignmentNext, Centre, Positions;
    PositionCount(version);
    CentreBetween(version, 0);
    PutAlignmentMarker(frame, AlignmentStart(version), AlignmentStart(version));
    forall i, j | 0 <= i < frame.Length0 && 0 <= j < frame.Length1 ensures frame[i, j] == WithGrid(version, 1, 0, j, i) {
      GridStep(version, 0, 0, j, i);
      GridRow(version, 0, j, i);
    }
  }

  /** Version information: three columns beside the pattern at the bottom left, three rows beside
      the one at the top right. */
  method PutVersion(version: nat, frame: array2<bv8>)
    requires 7 <= version <= VERSION_MAX && frame.Length0 == frame.Length1 == Width(version)
    requires forall y, x :: 0 <= y < frame.Length0 && 0 <= x < frame.Length1 ==> frame[y, x] == WithAlignment(version, x, y)
    modifies frame
    ensures forall y, x :: 0 <= y < frame.Length0 && 0 <= x < frame.Length1 ==> frame[y, x] == WithVersion(version, x, y)
  {
    hide WithAlignment, VersionInfo, VersionModule, Bit, QrMask.Half;
    var width := frame.Length0;
    ghost var info := VersionInfo(version);
    PutVersionBelow(version, frame, info);
    var v := VersionInfo(version);
    QrMask.HalfNone(info);
    for y := 0 to 6
      invariant v == QrMask.Half(info, 3 * y)
      invariant forall i, j :: 0 <= i < width && 0 <= j < width ==>
        frame[i, j] == if width - 11 <= j < width - 8 && i < y then VersionModule(Bit(info, 3 * i + (j - (width - 11)))) else WithVersionBelow(version, j, i)
    {
      for x := 0 to 3
        invariant v == QrMask.Half(info, 3 * y + x)
        invariant forall i, j :: 0 <= i < width && 0 <= j < width ==>
          frame[i, j] == if (width - 11 <= j < width - 8 && i < y) || (i == y && width - 11 <= j < width - 11 + x)
                         then VersionModule(Bit(info, 3 * i + (j - (width - 11)))) else WithVersionBelow(version, j, i)
      {
        QrMask.HalfStep(info, 3 * y + x);
        frame[y, width - 11 + x] := VersionModule(v % 2 == 1);
        v := v / 2;
      }
    }
  }

  /** With the version information at the bottom left only. */
  function WithVersionBelow(version: nat, x: int, y: int): bv8 {
    var w := Width(version);
    if w - 11 <= y <= w - 9 && 0 <= x <= 5 then VersionModule(Bit(VersionInfo(version), 3 * x + (y - (w - 11))))
    else WithAlignment(version, x, y)
  }

  method PutVersionBelow(version: nat, frame: array2<bv8>, ghost info: nat)
    requires 7 <= version <= VERSION_MAX && frame.Length0 == frame.Length1 == Width(version) && info == VersionInfo(version)
    requires forall y, x :: 0 <= y < frame.Length0 && 0 <= x < frame.Length1 ==> frame[y, x] == WithAlignment(version, x, y)
    modifies frame
    ensures forall y, x :: 0 <= y < frame.Length0 && 0 <= x < frame.Length1 ==> frame[y, x] == WithVersionBelow(version, x, y)
  {
    hide WithAlignment, VersionInfo, VersionModule, Bit, QrMask.Half;
    var width := frame.Length0;
    var v := VersionInfo(version);
    QrMask.HalfNone(info);
    for x := 0 to 6
      invariant v == QrMask.Half(info, 3 * x)
      invariant forall i, j :: 0 <= i < width && 0 <= j < width ==>
        frame[i, j] == if width - 11 <= i < width - 8 && j < x then VersionModule(Bit(info, 3 * j + (i - (width - 11)))) else WithAlignment(version, j, i)
    {
      for y := 0 to 3
        invariant v == QrMask.Half(info, 3 * x + y)
        invariant forall i, j :: 0 <= i < width && 0 <= j < width ==>
          frame[i, j] == if (width - 11 <= i < width - 8 && j < x) || (j == x && width - 11 <= i < width - 11 + y)
                         then VersionModule(Bit(info, 3 * j + (i - (width - 11)))) else WithAlignment(version, j, i)
      {
        QrMask.HalfStep(info, 3 * x + y);
        frame[width - 11 + y, x] := VersionModule(v % 2 == 1);
        v := v / 2;
      }
    }
  }

  lemma NoVersion(version: nat, x: int, y: int)
    requires version < 7
    ensures WithVersion(version, x, y) == WithAlignment(version, x, y)
  {
    hide WithAlignment;
  }

  /** QRspec_createFrame: all patterns, the rest of the symbol empty. */
  method CreateFrame(version: nat) returns (frame: array2<bv8>)
    requires 1 <= version <= VERSION_MAX
    ensures fresh(frame) && frame.Length0 == frame.Length1 == Width(version)
    ensures forall y, x :: 0 <= y < frame.Length0 && 0 <= x < frame.Length1 ==> frame[y, x] == FrameModule(version, x, y)
  {
    hide WithAlignment, WithVersion, InTiming, WithFormat;
    var width := Width(version);
    frame := new bv8[width, width]((y, x) => 0);
    PutCorners(frame);
    PutTiming(frame);
    PutAlignmentPattern(version, frame);
    if version >= 7 {
      PutVersion(version, frame);
    } else {
      forall x: int, y: int {
        NoVersion(version, x, y);
      }
    }
    frame[width - 8, 8] := 0x81;
  }

  lemma OffAlignment(version: nat, x: int, y: int)
    requires !InAlignment(version, x, y)
    ensures WithAlignment(version, x, y) == WithTiming(Width(version), x, y)
  {
    hide Across, Positions, AlignmentMark, WithTiming;
    AcrossNone(version, x);
    AcrossNone(version, y);
  }

  lemma FormatOffAlignment(version: nat, x: int, y: int)
    requires 1 <= version <= VERSION_MAX && OnFrame(Width(version), Cell(x, y)) && x != 6 && y != 6 && InFormat(Width(version), x, y)
    ensures !InAlignment(version, x, y)
  {
    hide Positions, Across, All, Early, Width, InAlignment, Product, Span, Middle;
    AlignmentCellsWhere(version, Cell(x, y));
    AlignmentWhere(version, x);
    AlignmentWhere(version, y);
  }

  /** The modules of the format information start out light and are reserved. */
  lemma FormatArea(version: nat, x: nat, y: nat)
    requires 1 <= version <= VERSION_MAX && x < Width(version) && y < Width(version) && 0 <= QrMask.FormatBit(Width(version), y, x)
    ensures FrameModule(version, x, y) == 0x84
  {
    hide Width, WithAlignment, InAlignment, VersionInfo, Bit;
    WidthFits(version);
    FormatOffAlignment(version, x, y);
    OffAlignment(version, x, y);
  }

  /** QRspec_newFrame. */
  method NewFrame(version: int) returns (frame: array2?<bv8>)
    ensures frame == null <==> version < 1 || VERSION_MAX < version
    ensures frame != null ==> fresh(frame) && frame.Length0 == frame.Length1 == Width(version)
    ensures frame != null ==>
      forall y, x :: 0 <= y < frame.Length0 && 0 <= x < frame.Length1 ==> frame[y, x] == FrameModule(version, x, y)
  {
    hide FrameModule;
    if version < 1 || version > VERSION_MAX {
      return null;
    }
    frame := CreateFrame(version);
  }
}
