/** Where the function patterns of a symbol are, and how many modules they leave for data. */
module QrPatterns {
  // The places that QRspec_createFrame of qrspec.c writes to: finder patterns with separators, the
  // format area, timing and alignment patterns, version information and the dark module.
  import opened Arithmetic
  import opened Sets
  import opened QrSpec
  import opened QrBits
  import opened QrFrame

  /** Edge length of a symbol. */
  function Width(version: nat): nat {
    17 + 4 * version
  }

  /** Bits that are left over when the bytes of a symbol have been placed. */
  function Remainder(version: nat): nat {
    if 2 <= version <= 6 then 7
    else if 14 <= version <= 20 || 28 <= version <= 34 then 3
    else if 21 <= version <= 27 then 4
    else 0
  }

  // ----- alignment patterns -----

  /** The second position of the alignment patterns, and the third; the first is 6. */
  function AlignmentStart(version: nat): nat {
    match version
    case 1 => 0 case 2 => 18 case 3 => 22 case 4 => 26 case 5 => 30 case 6 => 34 case 7 => 22 case 8 => 24
    case 9 => 26 case 10 => 28 case 11 => 30 case 12 => 32 case 13 => 34 case 14 => 26 case 15 => 26
    case 16 => 26 case 17 => 30 case 18 => 30 case 19 => 30 case 20 => 34 case 21 => 28 case 22 => 26
    case 23 => 30 case 24 => 28 case 25 => 32 case 26 => 30 case 27 => 34 case 28 => 26 case 29 => 30
    case 30 => 26 case 31 => 30 case 32 => 34 case 33 => 30 case 34 => 34 case 35 => 30 case 36 => 24
    case 37 => 28 case 38 => 32 case 39 => 26 case 40 => 30
    case _ => 0
  }

  function AlignmentNext(version: nat): nat {
    match version
    case 1 => 0 case 2 => 0 case 3 => 0 case 4 => 0 case 5 => 0 case 6 => 0 case 7 => 38 case 8 => 42
    case 9 => 46 case 10 => 50 case 11 => 54 case 12 => 58 case 13 => 62 case 14 => 46 case 15 => 48
    case 16 => 50 case 17 => 54 case 18 => 56 case 19 => 58 case 20 => 62 case 21 => 50 case 22 => 50
    case 23 => 54 case 24 => 54 case 25 => 58 case 26 => 58 case 27 => 62 case 28 => 50 case 29 => 54
    case 30 => 52 case 31 => 56 case 32 => 60 case 33 => 58 case 34 => 62 case 35 => 54 case 36 => 50
    case 37 => 54 case 38 => 58 case 39 => 54 case 40 => 58
    case _ => 0
  }

  function Distance(version: nat): int {
    AlignmentNext(version) - AlignmentStart(version)
  }

  /** Number of positions, the first one aside. */
  function Positions(version: nat): nat {
    if version < 2 then 0
    else if Distance(version) <= 0 then 1
    else if Width(version) < AlignmentStart(version) then 0
    else (Width(version) - AlignmentStart(version)) / Distance(version) + 1
  }

  function Centre(version: nat, i: nat): int {
    AlignmentStart(version) + i * Distance(version)
  }

  /** From 0 to 4 across the pattern around one of the first n positions, or -1. */
  function Across(version: nat, t: int, n: nat): (o: int)
    ensures -1 <= o <= 4
  {
    if n == 0 then -1
    else if Centre(version, n - 1) - 2 <= t <= Centre(version, n - 1) + 2 then t - Centre(version, n - 1) + 2
    else Across(version, t, n - 1)
  }

  /** The positions are 18 or more, 16 or more apart, and the last one is 7 from the edge. */
  lemma PositionsFit(version: nat)
    requires 2 <= version <= VERSION_MAX
    ensures 18 <= AlignmentStart(version)
    ensures Positions(version) == version / 7 + 1
    ensures 7 <= version ==> 16 <= Distance(version)
    ensures Centre(version, version / 7) == Width(version) - 7
  {
    var q := version / 7;
    TableFits(version);
    if 7 <= version {
      Quotient(Width(version) - AlignmentStart(version), Distance(version), q, 7);
    }
  }

  lemma TableFits(version: nat)
    requires 2 <= version <= VERSION_MAX
    ensures 18 <= AlignmentStart(version)
    ensures version < 7 ==> Distance(version) < 0
    ensures 7 <= version ==> 16 <= Distance(version)
    ensures AlignmentStart(version) + version / 7 * Distance(version) == Width(version) - 7
  {
    if version < 7 {
    } else if version < 14 {
    } else if version < 21 {
    } else if version < 28 {
    } else if version < 35 {
    } else {
    }
  }

  /** The k-th centre lies between the first and the last. */
  lemma CentreBetween(version: nat, i: nat)
    requires 2 <= version <= VERSION_MAX && i < Positions(version)
    ensures 18 <= Centre(version, i) <= Width(version) - 7
    ensures i + 1 < Positions(version) ==> Centre(version, i) + 16 <= Centre(version, i + 1)
    ensures i + 1 < Positions(version) ==> Centre(version, i) <= Width(version) - 23
    ensures i + 1 == Positions(version) ==> Centre(version, i) == Width(version) - 7
  {
    hide AlignmentStart, AlignmentNext, Positions, Distance;
    PositionsFit(version);
    if 7 <= version {
      MulMonotone(Distance(version), 0, i);
      MulMonotone(Distance(version), i, version / 7);
      MulMonotone(Distance(version), if i < version / 7 then i + 1 else i, version / 7);
      MulMonotone(Distance(version), i + 1, i + 1);
    }
  }

  /** What Across tells: near one of the positions, none of which is near a finder pattern. */
  lemma {:induction false} AcrossRange(version: nat, t: int, n: nat)
    requires 2 <= version <= VERSION_MAX && n <= Positions(version) && 0 <= Across(version, t, n)
    ensures 1 <= n && 16 <= t <= Centre(version, n - 1) + 2
    ensures n < Positions(version) ==> t <= Width(version) - 21
    ensures t <= Width(version) - 5
  {
    hide Centre, Positions;
    CentreBetween(version, n - 1);
    if !(Centre(version, n - 1) - 2 <= t <= Centre(version, n - 1) + 2) {
      AcrossRange(version, t, n - 1);
      CentreBetween(version, n - 2);
    }
  }

  // ----- where the patterns are -----

  predicate InFinder(w: nat, x: int, y: int) {
    (x < 7 || w - 7 <= x) && (y < 7 || w - 7 <= y) && (x < 7 || y < 7)
  }

  predicate InSeparator(w: nat, x: int, y: int) {
    || (x == 7 && (y <= 7 || w - 8 <= y)) || (x == w - 8 && y <= 7)
    || (y == 7 && (x <= 7 || w - 8 <= x)) || (y == w - 8 && x <= 7)
  }

  predicate InFormat(w: nat, x: int, y: int) {
    (y == 8 && (x <= 8 || w - 8 <= x)) || (x == 8 && (y <= 7 || w - 7 <= y))
  }

  predicate InTiming(w: nat, x: int, y: int) {
    (y == 6 && 8 <= x <= w - 9) || (x == 6 && 8 <= y <= w - 9)
  }

  predicate InVersion(version: nat, x: int, y: int) {
    var w := Width(version);
    7 <= version && ((w - 11 <= x <= w - 9 && y <= 5) || (w - 11 <= y <= w - 9 && x <= 5))
  }

  /** On an alignment pattern of the grid, of row 6 or of column 6. */
  predicate InAlignment(version: nat, x: int, y: int) {
    var n := Positions(version);
    || (0 <= Across(version, x, n) && 0 <= Across(version, y, n))
    || (2 <= n && 4 <= y <= 8 && 0 <= Across(version, x, n - 1))
    || (2 <= n && 4 <= x <= 8 && 0 <= Across(version, y, n - 1))
  }

  predicate InPattern(version: nat, x: int, y: int) {
    var w := Width(version);
    || InFinder(w, x, y) || InSeparator(w, x, y) || InFormat(w, x, y) || InTiming(w, x, y)
    || InAlignment(version, x, y) || InVersion(version, x, y) || (x == 8 && y == w - 8)
  }

  /** The modules of all patterns. */
  ghost function Patterns(version: nat): (r: set<Cell>)
    ensures forall c :: c in r <==> OnFrame(Width(version), c) && InPattern(version, c.x, c.y)
  {
    set x, y | 0 <= x < Width(version) && 0 <= y < Width(version) && InPattern(version, x, y) :: Cell(x, y)
  }

  // ----- counting -----

  /** The numbers from a up to b. */
  ghost function Span(a: int, b: int): (r: set<int>)
    ensures forall t :: t in r <==> a <= t < b
    ensures a <= b ==> |r| == b - a
    decreases b - a
  {
    if b <= a then {} else Span(a, b - 1) + {b - 1}
  }

  /** Columns xs in rows ys. */
  ghost function Product(xs: set<int>, ys: set<int>): (r: set<Cell>)
    ensures forall c :: c in r <==> c.x in xs && c.y in ys
  {
    set x, y | x in xs && y in ys :: Cell(x, y)
  }

  lemma {:induction false} ProductSize(xs: set<int>, ys: set<int>)
    ensures |Product(xs, ys)| == |xs| * |ys|
    decreases |ys|
  {
    hide Product;
    if ys == {} {
      assert Product(xs, ys) == {};
    } else {
      var y := PickMember(ys);
      var rest := ys - {y};
      ProductSize(xs, rest);
      RowSize(xs, y);
      assert Product(xs, ys) == Product(xs, rest) + Product(xs, {y});
      MulMonotone(|xs|, |ys|, |ys|);
    }
  }

  lemma {:induction false} RowSize(xs: set<int>, y: int)
    ensures |Product(xs, {y})| == |xs|
    decreases |xs|
  {
    hide Product;
    if xs == {} {
      assert Product(xs, {y}) == {};
    } else {
      var x := PickMember(xs);
      RowSize(xs - {x}, y);
      assert Product(xs, {y}) == Product(xs - {x}, {y}) + {Cell(x, y)};
    }
  }

  /** The columns or rows that the patterns around the first n positions take. */
  ghost function Taken(version: nat, n: nat): (r: set<int>)
    ensures forall t :: t in r <==> 0 <= t < Width(version) && 0 <= Across(version, t, n)
  {
    set t | 0 <= t < Width(version) && 0 <= Across(version, t, n)
  }

  lemma AcrossNone(version: nat, t: int)
    ensures Across(version, t, 0) == -1
  {}

  lemma AcrossStep(version: nat, t: int, n: nat)
    ensures Across(version, t, n + 1) ==
      if Centre(version, n) - 2 <= t <= Centre(version, n) + 2 then t - Centre(version, n) + 2 else Across(version, t, n)
  {}

  /** The last of n patterns lies behind the others. */
  lemma LastPattern(version: nat, n: nat)
    requires 2 <= version <= VERSION_MAX && n < Positions(version)
    ensures forall t: int :: 0 <= Across(version, t, n) ==> t < Centre(version, n) - 2
    ensures 0 <= Centre(version, n) - 2 && Centre(version, n) + 3 <= Width(version)
  {
    hide Centre, Positions, Across;
    CentreBetween(version, n);
    forall t: int | 0 <= Across(version, t, n) ensures t < Centre(version, n) - 2 {
      AcrossRange(version, t, n);
      CentreBetween(version, n - 1);
    }
  }

  lemma {:induction false} TakenSize(version: nat, n: nat)
    requires 2 <= version <= VERSION_MAX && n <= Positions(version)
    ensures |Taken(version, n)| == 5 * n
  {
    hide Centre, Positions, Across, Taken, Span, Width;
    if n == 0 {
      forall t: int ensures t !in Taken(version, 0) {
        AcrossNone(version, t);
      }
    } else {
      TakenSize(version, n - 1);
      LastPattern(version, n - 1);
      var before, last := Taken(version, n - 1), Span(Centre(version, n - 1) - 2, Centre(version, n - 1) + 3);
      forall t: int ensures t in Taken(version, n) <==> t in before + last {
        AcrossStep(version, t, n - 1);
      }
      assert Taken(version, n) == before + last && before !! last;
    }
  }

  /** The set of the numbers in two ranges. */
  ghost function Columns(): (r: set<int>)
    ensures forall t :: t in r <==> 0 <= t <= 8 && t != 6
    ensures |r| == 8
  {
    Span(0, 6) + Span(7, 9)
  }

  ghost function Middle(): (r: set<int>)
    ensures forall t :: t in r <==> 4 <= t <= 8 && t != 6
    ensures |r| == 4
  {
    Span(4, 6) + Span(7, 9)
  }

  /** What the patterns take of row 6 or column 6, the last position aside. */
  ghost function Early(version: nat): (r: set<int>)
    ensures Positions(version) < 2 ==> r == {}
  {
    if 2 <= Positions(version) then Taken(version, Positions(version) - 1) else {}
  }

  ghost function All(version: nat): (r: set<int>) {
    Taken(version, Positions(version))
  }

  lemma NoAlignment(t: int)
    ensures t !in All(1) && t !in Early(1)
  {
    AcrossNone(1, t);
  }

  lemma EarlyWhere(version: nat, t: int)
    requires 2 <= version <= VERSION_MAX && t in Early(version)
    ensures 16 <= t <= Width(version) - 21
  {
    hide Across, Positions, Width;
    AcrossRange(version, t, Positions(version) - 1);
  }

  lemma AllWhere(version: nat, t: int)
    requires 2 <= version <= VERSION_MAX
    ensures t in All(version) <==> t in Early(version) || Width(version) - 9 <= t <= Width(version) - 5
  {
    hide Across, Positions, Distance, AlignmentStart, Centre;
    PositionsFit(version);
    var k := Positions(version) - 1;
    CentreBetween(version, k);
    AcrossStep(version, t, k);
    LastPattern(version, k);
    if k == 0 {
      AcrossNone(version, t);
    }
  }

  lemma AlignmentSizes(version: nat)
    requires 2 <= version <= VERSION_MAX
    ensures |All(version)| == 5 * (version / 7 + 1) && |Early(version)| == 5 * (version / 7)
  {
    hide Across, Positions, Taken, Width;
    PositionsFit(version);
    TakenSize(version, Positions(version));
    TakenSize(version, Positions(version) - 1);
  }

  lemma AlignmentWhere(version: nat, t: int)
    requires 1 <= version <= VERSION_MAX
    ensures t in Early(version) ==> 16 <= t <= Width(version) - 21
    ensures t in All(version) ==> 16 <= t
    ensures t in All(version) <==> t in Early(version) || (2 <= version && Width(version) - 9 <= t <= Width(version) - 5)
  {
    hide Across, Positions, All, Early, Width;
    if version == 1 {
      NoAlignment(t);
    } else {
      if t in Early(version) {
        EarlyWhere(version, t);
      }
      AllWhere(version, t);
      assert 25 <= Width(version) by {
        hide *;
        WidthAtLeast(version);
      }
    }
  }

  lemma WidthAtLeast(version: nat)
    requires 2 <= version
    ensures 25 <= Width(version)
  {}

  /** The modules of all patterns outside column 6, in nine rectangles. */
  ghost function CornerCells(w: int): set<Cell> {
    Product(Columns(), Span(0, 9)) + Product(Span(w - 8, w), Span(0, 9)) + Product(Columns(), Span(w - 8, w))
  }

  ghost function TimingCells(w: int): set<Cell> {
    Product(Span(9, w - 8), {6})
  }

  ghost function VersionCells(version: nat): set<Cell> {
    var w := Width(version);
    if version < 7 then {} else Product(Span(w - 11, w - 8), Span(0, 6)) + Product(Span(0, 6), Span(w - 11, w - 8))
  }

  ghost function AlignmentCells(version: nat): set<Cell> {
    Product(All(version), All(version)) + Product(Early(version), Middle()) + Product(Middle(), Early(version))
  }

  ghost function PatternCells(version: nat): set<Cell> {
    CornerCells(Width(version)) + TimingCells(Width(version)) + VersionCells(version) + AlignmentCells(version)
  }

  /** The nine rectangles are the modules of the patterns outside column 6. */
  lemma PatternsWhere(version: nat, c: Cell)
    requires 1 <= version <= VERSION_MAX
    ensures c in PatternCells(version) <==> c in Patterns(version) && c.x != 6
  {
    hide Positions, Across, All, Early, Width, InAlignment, InFinder, InSeparator, InFormat, InTiming, InVersion, CornerCells, TimingCells, VersionCells, AlignmentCells;
    var w := Width(version);
    WidthFits(version);
    if OnFrame(w, c) && c.x != 6 {
      CornersWhere(w, c);
      VersionCellsWhere(version, c);
      AlignmentCellsWhere(version, c);
      AlignmentWhere(version, c.x);
      if c.y == 6 && c.x in Early(version) {
        TimingCovers(version, c);
      }
    } else if c in PatternCells(version) {
      CellsInside(version, c);
    }
  }

  lemma WidthFits(version: nat)
    requires 1 <= version
    ensures 21 <= Width(version) && IsWidth(Width(version))
  {}

  lemma CellsInside(version: nat, c: Cell)
    requires 1 <= version <= VERSION_MAX && c in PatternCells(version)
    ensures OnFrame(Width(version), c) && c.x != 6
  {
    hide Positions, Across, All, Early, Width, Span, Product, Columns, Middle;
    WidthFits(version);
    AlignmentWhere(version, c.x);
    AlignmentWhere(version, c.y);
  }

  lemma TimingCovers(version: nat, c: Cell)
    requires 1 <= version && c.y == 6 && 16 <= c.x <= Width(version) - 21
    ensures c in TimingCells(Width(version))
  {}

  lemma CornersWhere(w: nat, c: Cell)
    requires 21 <= w && OnFrame(w, c)
    ensures c in CornerCells(w) + TimingCells(w) <==>
      c.x != 6 && (InFinder(w, c.x, c.y) || InSeparator(w, c.x, c.y) || InFormat(w, c.x, c.y) || InTiming(w, c.x, c.y) || (c.x == 8 && c.y == w - 8))
  {
    hide Span, Columns, Product;
  }

  lemma VersionCellsWhere(version: nat, c: Cell)
    requires OnFrame(Width(version), c)
    ensures c in VersionCells(version) <==> InVersion(version, c.x, c.y)
  {
    hide Product, Span;
  }

  lemma AlignmentCellsWhere(version: nat, c: Cell)
    requires 1 <= version <= VERSION_MAX && OnFrame(Width(version), c) && c.x != 6
    ensures c in AlignmentCells(version) || (c.y == 6 && c.x in Early(version)) <==> InAlignment(version, c.x, c.y)
  {
    hide Positions, Across, Span, Columns, Product;
  }

  lemma CornerCellsSize(w: int)
    requires 21 <= w
    ensures |CornerCells(w)| == 208
  {
    hide Span, Columns, Product;
    ProductSize(Columns(), Span(0, 9));
    ProductSize(Span(w - 8, w), Span(0, 9));
    ProductSize(Columns(), Span(w - 8, w));
    var a, b, c := Product(Columns(), Span(0, 9)), Product(Span(w - 8, w), Span(0, 9)), Product(Columns(), Span(w - 8, w));
    assert a !! b && a + b !! c;
  }

  lemma TimingCellsSize(w: int)
    requires 21 <= w
    ensures |TimingCells(w)| == w - 17
  {
    hide Product;
    ProductSize(Span(9, w - 8), {6});
  }

  lemma VersionCellsSize(version: nat)
    requires 1 <= version
    ensures |VersionCells(version)| == if version < 7 then 0 else 36
  {
    hide Product, Span;
    var w := Width(version);
    ProductSize(Span(w - 11, w - 8), Span(0, 6));
    ProductSize(Span(0, 6), Span(w - 11, w - 8));
    if 7 <= version {
      assert Product(Span(w - 11, w - 8), Span(0, 6)) !! Product(Span(0, 6), Span(w - 11, w - 8));
    }
  }

  lemma AlignmentCellsSize(version: nat)
    requires 1 <= version <= VERSION_MAX
    ensures var a, b := |All(version)|, |Early(version)|;
      |AlignmentCells(version)| == a * a + 4 * b + 4 * b
  {
    hide Product, Span, All, Early, Middle;
    ProductSize(All(version), All(version));
    ProductSize(Early(version), Middle());
    ProductSize(Middle(), Early(version));
    forall t: int ensures (t in Early(version) ==> 16 <= t) && (t in All(version) ==> 16 <= t) {
      AlignmentWhere(version, t);
    }
    var a, b, c := Product(All(version), All(version)), Product(Early(version), Middle()), Product(Middle(), Early(version));
    assert a !! b && a + b !! c;
  }

  lemma PatternsApart(version: nat)
    requires 1 <= version <= VERSION_MAX
    ensures var w := Width(version);
      && CornerCells(w) !! TimingCells(w) && CornerCells(w) + TimingCells(w) !! VersionCells(version)
      && CornerCells(w) + TimingCells(w) + VersionCells(version) !! AlignmentCells(version)
  {
    hide Positions, Across, All, Early, Width, Span, Product, Columns, Middle;
    WidthFits(version);
    forall c | c in AlignmentCells(version) ensures c !in CornerCells(Width(version)) + TimingCells(Width(version)) + VersionCells(version) {
      AlignmentWhere(version, c.x);
      AlignmentWhere(version, c.y);
    }
  }

  /** Modules of the patterns outside column 6. */
  lemma PatternCellsSize(version: nat)
    requires 1 <= version <= VERSION_MAX
    ensures var a, b := |All(version)|, |Early(version)|;
      |PatternCells(version)| == 208 + (Width(version) - 17) + (if version < 7 then 0 else 36) + (a * a + 8 * b)
  {
    hide Positions, Across, All, Early, Width, CornerCells, TimingCells, VersionCells, AlignmentCells;
    WidthFits(version);
    PatternsApart(version);
    CornerCellsSize(Width(version));
    TimingCellsSize(Width(version));
    VersionCellsSize(version);
    AlignmentCellsSize(version);
  }

  /** How many modules that should leave. */
  lemma TablesAgree(version: nat)
    requires 1 <= version <= VERSION_MAX
    ensures var w, q := Width(version), version / 7;
      var a := if version == 1 then 0 else 5 * (q + 1);
      (w - 1) * w - 208 - (w - 17) - (if version < 7 then 0 else 36) - (a * a + 8 * (5 * q)) == 8 * Words(version) + Remainder(version)
  {
    if version < 7 {
    } else if version < 14 {
    } else if version < 21 {
    } else if version < 28 {
    } else if version < 35 {
    } else {
    }
  }

  /** The modules outside column 6 that no pattern takes are exactly as many as the bytes of the
      symbol and its remainder need. */
  lemma FreeModules(version: nat)
    requires 1 <= version <= VERSION_MAX
    ensures IsWidth(Width(version))
    ensures |ZigzagOrder(Width(version), Patterns(version))| == 8 * Words(version) + Remainder(version)
  {
    hide Positions, Across, All, Early, Width, Words, Remainder, ZigzagOrder, PatternCells, Patterns, PlaceOf, Before, OnFrame, Span, IsWidth, Product;
    var w := Width(version);
    WidthFits(version);
    var order := ZigzagOrder(w, Patterns(version));
    ZigzagOrderIsExact(w, Patterns(version));
    DistinctSize(order);
    forall c ensures c in (set x | x in order) <==> c in AllCells(w) - PatternCells(version) {
      PatternsWhere(version, c);
      AllCellsWhere(w, c);
    }
    assert (set x | x in order) == AllCells(w) - PatternCells(version);
    forall c | c in PatternCells(version) ensures c in AllCells(w) {
      PatternsWhere(version, c);
      InsideFrame(version, c);
      AllCellsWhere(w, c);
    }
    AllCellsSize(w);
    PatternCellsSize(version);
    Sizes(version);
    TablesAgree(version);
  }

  lemma InsideFrame(version: nat, c: Cell)
    requires c in Patterns(version)
    ensures OnFrame(Width(version), c)
  {
    hide OnFrame, InPattern, Width;
  }

  /** All modules outside column 6. */
  ghost function AllCells(w: nat): set<Cell> {
    Product(Span(0, w) - {6}, Span(0, w))
  }

  lemma AllCellsWhere(w: nat, c: Cell)
    ensures c in AllCells(w) <==> OnFrame(w, c) && c.x != 6
  {
    hide Product, Span;
  }

  lemma AllCellsSize(w: nat)
    requires 21 <= w
    ensures |AllCells(w)| == (w - 1) * w
  {
    hide Product, Span;
    ProductSize(Span(0, w) - {6}, Span(0, w));
  }

  lemma Sizes(version: nat)
    requires 1 <= version <= VERSION_MAX
    ensures var q := version / 7; var a := if version == 1 then 0 else 5 * (q + 1);
      |All(version)| == a && |Early(version)| == 5 * q
  {
    hide All, Early;
    if version == 1 {
      forall t: int ensures t !in All(1) && t !in Early(1) {
        NoAlignment(t);
      }
      assert All(1) == {} && Early(1) == {};
    } else {
      AlignmentSizes(version);
    }
  }

  /** What the walk of the frame filler relies on. */
  lemma PatternsShape(version: nat)
    requires 1 <= version <= VERSION_MAX
    ensures FrameShape(Width(version), Patterns(version))
  {
    hide Positions, Across, All, Early, Width, InAlignment;
    var w := Width(version);
    WidthFits(version);
    AlignmentWhere(version, w - 1);
    AlignmentCellsWhere(version, Cell(w - 1, w - 1));
    assert Cell(w - 1, w - 1) !in AlignmentCells(version) by {
      hide Span, Middle, Product;
    }
    forall y | 0 <= y < 9 ensures Cell(4, y) in Patterns(version) && Cell(5, y) in Patterns(version) {
    }
  }
}
