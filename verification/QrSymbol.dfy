/** The whole of QRcode_encodeMask. */
module QrSymbol {
  // From the input list to the finished symbol, and a receiver that sees nothing but the colours of
  // its modules.
  import opened QrSpec
  import opened QrBits
  import opened QrSegments
  import opened QrInput
  import opened QrFrame
  import opened QrRaw
  import opened QrEncode
  import opened QrPatterns
  import opened QrNewFrame
  import QrMask
  import QrCodes
  import GF256

  // ----- the receiver -----

  type Colours = seq<seq<bool>>

  /** The rows of a symbol of the given version, true for dark. */
  predicate Sized(dark: Colours, version: nat) {
    |dark| == Width(version) && forall y :: 0 <= y < |dark| ==> |dark[y]| == |dark|
  }

  /** The level and the mask, from the upper five bits of the format information, which are the first
      modules of row 8, every second one turned over. */
  function LevelRead(dark: Colours, version: nat): Level
    requires 1 <= version && Sized(dark, version)
  {
    match (!dark[8][0], dark[8][1])
    case (false, true) => L
    case (false, false) => M
    case (true, true) => Q
    case (true, false) => H
  }

  function MaskRead(dark: Colours, version: nat): (m: nat)
    requires 1 <= version && Sized(dark, version)
    ensures m < 8
  {
    (if dark[8][2] then 0 else 4) + (if dark[8][3] then 2 else 0) + (if dark[8][4] then 0 else 1)
  }

  /** The modules that no pattern takes, along the zig-zag, without the mask. */
  ghost function DataBits(dark: Colours, version: nat, mask: nat, order: seq<Cell>, n: nat): (r: seq<bool>)
    requires Sized(dark, version) && n <= |order|
    requires forall k :: 0 <= k < |order| ==> OnFrame(Width(version), order[k])
    ensures |r| == n
  {
    seq(n, k requires 0 <= k < n => Unmasked(dark, version, mask, order[k]))
  }

  predicate Unmasked(dark: Colours, version: nat, mask: nat, c: Cell)
    requires Sized(dark, version) && OnFrame(Width(version), c)
  {
    dark[c.y][c.x] != QrMask.Inverts(mask, c.x, c.y)
  }

  lemma OrderFits(version: nat)
    requires 1 <= version <= VERSION_MAX
    ensures IsWidth(Width(version))
    ensures var order := ZigzagOrder(Width(version), Patterns(version));
      8 * Words(version) <= |order| && forall k :: 0 <= k < |order| ==> OnFrame(Width(version), order[k])
  {
    hide ZigzagOrder, Patterns, Width, OnFrame, PlaceOf, Before, Words, Remainder;
    FreeModules(version);
    ZigzagOrderIsExact(Width(version), Patterns(version));
  }

  /** A receiver reads mask and level in the format information, takes the mask off, and reads the
      segments that the free modules hold. */
  ghost function ReadSymbol(dark: Colours, version: nat): Segments
    requires 1 <= version <= VERSION_MAX && Sized(dark, version)
  {
    OrderFits(version);
    var order := ZigzagOrder(Width(version), Patterns(version));
    var level := LevelRead(dark, version);
    Receive(DataBits(dark, version, MaskRead(dark, version), order, 8 * Capacity(version, level)), version, level)
  }

  function ColoursOf(rows: QrMask.Rows): (r: Colours)
    ensures |r| == |rows| && forall y :: 0 <= y < |r| ==> |r[y]| == |rows[y]|
  {
    seq(|rows|, y requires 0 <= y < |rows| => seq(|rows[y]|, x requires 0 <= x < |rows[y]| => QrMask.DarkByte(rows[y][x])))
  }

  // ----- the format information is read -----

  lemma BitDown(n: nat, k: nat)
    ensures Bit(n, k + 1) <==> Bit(n / 2, k)
  {}

  lemma BitDownFive(n: nat, k: nat)
    ensures Bit(n, k + 5) <==> Bit(n / 32, k)
  {
    hide Bit;
    BitDown(n, k + 4);
    BitDown(n / 2, k + 3);
    BitDown(n / 2 / 2, k + 2);
    BitDown(n / 2 / 2 / 2, k + 1);
    BitDown(n / 2 / 2 / 2 / 2, k);
    assert n / 2 / 2 / 2 / 2 / 2 == n / 32;
  }

  lemma BitDownTen(n: nat, k: nat)
    ensures Bit(n, k + 10) <==> Bit(n / 0x400, k)
  {
    hide Bit;
    BitDownFive(n, k + 5);
    BitDownFive(n / 32, k);
    assert n / 32 / 32 == n / 0x400;
  }

  /** Bits 10 to 14 of a number whose upper part is UpperFive. */
  lemma UpperBits(n: nat, level: nat, mask: nat)
    requires level < 4 && mask < 8 && n / 0x400 == QrCodes.UpperFive(level, mask)
    ensures (Bit(n, 14) <==> level / 2 == 0) && (Bit(n, 13) <==> level % 2 == 1)
    ensures (Bit(n, 12) <==> mask / 4 == 0) && (Bit(n, 11) <==> mask / 2 % 2 == 1) && (Bit(n, 10) <==> mask % 2 == 0)
  {
    hide Bit, QrCodes.UpperFive;
    BitDownTen(n, 0);
    BitDownTen(n, 1);
    BitDownTen(n, 2);
    BitDownTen(n, 3);
    BitDownTen(n, 4);
    FiveParts(level, mask);
    FiveBits(n / 0x400);
  }

  lemma FiveBits(v: nat)
    requires v < 32
    ensures (Bit(v, 0) <==> v % 2 == 1) && (Bit(v, 1) <==> v / 2 % 2 == 1) && (Bit(v, 2) <==> v / 4 % 2 == 1)
    ensures (Bit(v, 3) <==> v / 8 % 2 == 1) && (Bit(v, 4) <==> v / 16 == 1)
  {
    assert v / 2 / 2 == v / 4 && v / 2 / 2 / 2 == v / 8 && v / 2 / 2 / 2 / 2 == v / 16;
  }

  lemma FiveParts(level: nat, mask: nat)
    requires level < 4 && mask < 8
    ensures var v := QrCodes.UpperFive(level, mask);
      && 0 <= v < 32 && v / 16 == 1 - level / 2 && v / 8 % 2 == level % 2
      && v / 4 % 2 == 1 - mask / 4 && v / 2 % 2 == mask / 2 % 2 && v % 2 == 1 - mask % 2
  {
    SumParts(1 - level / 2, level % 2, 1 - mask / 4, mask / 2 % 2, 1 - mask % 2);
  }

  lemma SumParts(a: int, b: int, c: int, d: int, e: int)
    requires 0 <= a <= 1 && 0 <= b <= 1 && 0 <= c <= 1 && 0 <= d <= 1 && 0 <= e <= 1
    ensures var v := 16 * a + 8 * b + 4 * c + 2 * d + e;
      0 <= v < 32 && v / 16 == a && v / 8 % 2 == b && v / 4 % 2 == c && v / 2 % 2 == d && v % 2 == e
  {
    var v := 16 * a + 8 * b + 4 * c + 2 * d + e;
    assert v / 2 == 8 * a + 4 * b + 2 * c + d;
    assert v / 4 == 4 * a + 2 * b + c;
    assert v / 8 == 2 * a + b;
  }

  // ----- what masking leaves to be read -----

  /** A frame with its patterns, all other modules given to data. */
  ghost predicate Filled(rows: QrMask.Rows, version: nat) {
    && 1 <= version <= VERSION_MAX && QrMask.Square(rows) && |rows| == Width(version)
    && forall y, x :: 0 <= y < |rows| && 0 <= x < |rows| ==>
      if Cell(x, y) in Patterns(version) then rows[y][x] == FrameModule(version, x, y) else !Reserved(rows[y][x])
  }

  /** Colours of the free modules that hold the bytes of the symbol. */
  ghost function FreeBits(rows: QrMask.Rows, version: nat): (r: seq<bool>)
    requires Filled(rows, version)
    ensures |r| == 8 * Words(version)
  {
    OrderFits(version);
    var order := ZigzagOrder(Width(version), Patterns(version));
    seq(8 * Words(version), k requires 0 <= k < 8 * Words(version) => DarkAt(rows, order[k]))
  }

  predicate DarkAt(rows: QrMask.Rows, c: Cell)
    requires QrMask.Square(rows) && OnFrame(|rows|, c)
  {
    QrMask.DarkByte(rows[c.y][c.x])
  }

  lemma FormatReserved(rows: QrMask.Rows, version: nat)
    requires Filled(rows, version)
    ensures QrMask.FormatLight(rows)
    ensures forall y, x :: 0 <= y < |rows| && 0 <= x < |rows| && 0 <= QrMask.FormatBit(|rows|, y, x) < 15 ==> rows[y][x] & 0x80 != 0
  {
    hide FrameModule, Patterns, Width, QrMask.FormatBit;
    forall y, x | 0 <= y < |rows| && 0 <= x < |rows| && 0 <= QrMask.FormatBit(|rows|, y, x) < 15
      ensures rows[y][x] & 0x80 != 0 && !QrMask.DarkByte(rows[y][x])
    {
      FormatArea(version, x, y);
      FrameReserved(version, x, y);
    }
  }

  /** A free module under a mask, with the format information written. */
  lemma MaskedModule(rows: QrMask.Rows, version: nat, mask: nat, level: Level, c: Cell)
    requires Filled(rows, version) && mask < 8 && OnFrame(Width(version), c) && c !in Patterns(version)
    ensures Sized(ColoursOf(QrMask.Candidate(rows, mask, level)), version)
    ensures Unmasked(ColoursOf(QrMask.Candidate(rows, mask, level)), version, mask, c) == DarkAt(rows, c)
  {
    hide Patterns, Width, FrameModule, QrMask.FormatBit, QrMask.FormatInfo, QrMask.Flip, QrMask.Inverts, QrMask.DarkByte, Reserved, QrMask.FormatModule, Bit;
    FormatReserved(rows, version);
    var b := rows[c.y][c.x];
    QrMask.FlipTwice(b, QrMask.Inverts(mask, c.x, c.y));
    NotReserved(b);
  }

  lemma NotReserved(b: bv8)
    requires !Reserved(b)
    ensures b & 0x80 == 0
  {}

  /** Both copies of the format information, module by module: one along row 8 from the right and up
      column 8 from the bottom, the other down column 8 and along row 8 to the left edge. */
  lemma CandidateAnnounces(rows: QrMask.Rows, version: nat, mask: nat, level: Level)
    requires Filled(rows, version) && mask < 8
    ensures Sized(ColoursOf(QrMask.Candidate(rows, mask, level)), version) && 21 <= Width(version)
    ensures var dark, w, n := ColoursOf(QrMask.Candidate(rows, mask, level)), Width(version), QrMask.FormatInfo(mask, level);
      && (forall b: nat :: b < 8 ==> (dark[8][w - 1 - b] <==> Bit(n, b)))
      && (forall b: nat :: 8 <= b < 15 ==> (dark[w - 15 + b][8] <==> Bit(n, b)))
      && (forall b: nat :: b < 6 ==> (dark[b][8] <==> Bit(n, b)))
      && (dark[7][8] <==> Bit(n, 6)) && (dark[8][8] <==> Bit(n, 7)) && (dark[8][7] <==> Bit(n, 8))
      && (forall b: nat :: 9 <= b < 15 ==> (dark[8][14 - b] <==> Bit(n, b)))
  {
    hide Patterns, Width, FrameModule, QrMask.FormatInfo, QrMask.DarkByte, QrMask.Masked, Reserved, QrMask.FormatModule, Bit;
    var w := Width(version);
    WidthFits(version);
    forall b: nat, y: nat, x: nat | b < 15 && y < w && x < w && QrMask.FormatBit(w, y, x) == b
      ensures ColoursOf(QrMask.Candidate(rows, mask, level))[y][x] <==> Bit(QrMask.FormatInfo(mask, level), b)
    {
      QrMask.FormatModuleDark(Bit(QrMask.FormatInfo(mask, level), b));
    }
  }

  /** So the receiver reads the level and the mask that were written. */
  lemma CandidateNamed(rows: QrMask.Rows, version: nat, mask: nat, level: Level)
    requires Filled(rows, version) && mask < 8
    ensures var dark := ColoursOf(QrMask.Candidate(rows, mask, level));
      Sized(dark, version) && LevelRead(dark, version) == level && MaskRead(dark, version) == mask
  {
    hide Width, FrameModule, Patterns, Reserved, QrMask.Candidate, QrMask.FormatInfo, ColoursOf, Bit, QrCodes.UpperFive, QrCodes.IsCodeWord;
    var dark := ColoursOf(QrMask.Candidate(rows, mask, level));
    CandidateAnnounces(rows, version, mask, level);
    QrCodes.FormatCode(mask, level);
    var n := QrMask.FormatInfo(mask, level);
    UpperBits(n, QrCodes.LevelBits(level), mask);
    assert dark[8][14 - 14] == Bit(n, 14) && dark[8][14 - 13] == Bit(n, 13) && dark[8][14 - 12] == Bit(n, 12);
    assert dark[8][14 - 11] == Bit(n, 11) && dark[8][14 - 10] == Bit(n, 10);
  }

  /** A receiver of any of the eight candidates reads the bits that were filled in. */
  lemma CandidateReads(rows: QrMask.Rows, version: nat, mask: nat, level: Level)
    requires Filled(rows, version) && mask < 8
    ensures Sized(ColoursOf(QrMask.Candidate(rows, mask, level)), version)
    ensures 8 * Capacity(version, level) == |FreeBits(rows, version)|
    ensures ReadSymbol(ColoursOf(QrMask.Candidate(rows, mask, level)), version) == Receive(FreeBits(rows, version), version, level)
  {
    hide Patterns, Width, FrameModule, QrMask.Candidate, Unmasked, DarkAt, Reserved, QrMask.Inverts, Words, EccLength, ZigzagOrder, LevelRead, MaskRead, Sized, ColoursOf, PlaceOf, Before, OnFrame, Receive;
    var dark, order := ColoursOf(QrMask.Candidate(rows, mask, level)), ZigzagOrder(Width(version), Patterns(version));
    CandidateNamed(rows, version, mask, level);
    OrderFits(version);
    ZigzagOrderIsExact(Width(version), Patterns(version));
    var n := 8 * Words(version);
    var bits, free := DataBits(dark, version, mask, order, n), FreeBits(rows, version);
    forall k | 0 <= k < n ensures bits[k] == free[k] {
      MaskedModule(rows, version, mask, level, order[k]);
    }
    assert bits == free;
  }

  // ----- the encoder -----

  lemma FrameMarks(version: nat)
    requires 1 <= version <= VERSION_MAX
    ensures forall x, y :: 0 <= x < Width(version) && 0 <= y < Width(version) ==>
      (Reserved(FrameModule(version, x, y)) <==> Cell(x, y) in Patterns(version))
  {
    hide FrameModule, Patterns, Width, Reserved;
    forall x, y | 0 <= x < Width(version) && 0 <= y < Width(version)
      ensures Reserved(FrameModule(version, x, y)) <==> Cell(x, y) in Patterns(version)
    {
      FrameReserved(version, x, y);
    }
  }

  /** Writing the bits touches no pattern and fills free modules only. */
  lemma WrittenIsFilled(version: nat, before: seq<seq<bv8>>, frame: array2<bv8>, order: seq<Cell>, bits: seq<bool>)
    requires 1 <= version <= VERSION_MAX && order == ZigzagOrder(Width(version), Patterns(version)) && |bits| <= |order|
    requires frame.Length0 == frame.Length1 == Width(version) == |before| && forall y :: 0 <= y < |before| ==> |before[y]| == Width(version)
    requires forall y, x :: 0 <= y < |before| && 0 <= x < |before| ==> before[y][x] == FrameModule(version, x, y)
    requires forall k :: 0 <= k < |order| ==> 0 <= order[k].x < Width(version) && 0 <= order[k].y < Width(version)
    requires Written(before, frame, order, bits)
    ensures Filled(Rows(frame), version)
  {
    hide FrameModule, Patterns, Width, Reserved, ZigzagOrder, Module, PlaceOf, Before;
    WidthFits(version);
    ZigzagOrderIsExact(Width(version), Patterns(version));
    forall y, x | 0 <= y < |before| && 0 <= x < |before|
      ensures if Cell(x, y) in Patterns(version) then frame[y, x] == FrameModule(version, x, y) else !Reserved(frame[y, x])
    {
      FrameReserved(version, x, y);
      if Cell(x, y) in order[..|bits|] {
        var k :| 0 <= k < |bits| && order[k] == Cell(x, y);
        ModuleFree(bits[k]);
        assert Cell(x, y) in order;
      }
    }
  }

  lemma SameBits(version: nat, frame: array2<bv8>)
    requires Filled(Rows(frame), version) && frame.Length0 == frame.Length1 == Width(version)
    ensures var order := ZigzagOrder(Width(version), Patterns(version));
      && 8 * Words(version) <= |order| && (forall k :: 0 <= k < |order| ==> 0 <= order[k].x < Width(version) && 0 <= order[k].y < Width(version))
      && ModuleBits(frame, order, 8 * Words(version)) == FreeBits(Rows(frame), version)
  {
    hide ZigzagOrder, Patterns, Width, Words, FrameModule, Reserved;
    OrderFits(version);
  }

  lemma EmptyRows(version: nat, frame: array2<bv8>)
    requires frame.Length0 == frame.Length1 == Width(version)
    requires forall y, x :: 0 <= y < frame.Length0 && 0 <= x < frame.Length1 ==> frame[y, x] == FrameModule(version, x, y)
    ensures forall y, x :: 0 <= y < Width(version) && 0 <= x < Width(version) ==> Rows(frame)[y][x] == FrameModule(version, x, y)
  {
    hide FrameModule, Width;
  }

  /** The part of QRcode_encodeMask before masking: the bytes of the input, with their parity, in a
      new frame. The free modules never run out, so it fails only when no version can hold the
      data. */
  method FillSymbol(input: QRinput) returns (frame: array2?<bv8>)
    requires input.Valid()
    modifies input`version, input`streams
    ensures input.Valid() && Converted(input.entries, input.level, old(input.version)).version == input.version
    ensures frame != null <==> Converted(input.entries, input.level, old(input.version)).ok
    ensures frame != null ==> fresh(frame) && Filled(Rows(frame), input.version)
    ensures frame != null ==>
      |FreeBits(Rows(frame), input.version)| == 8 * Capacity(input.version, input.level)
      && Receive(FreeBits(Rows(frame), input.version), input.version, input.level)
         == Segments(ReadEntries(AllChunks(input.entries, input.version)))
  {
    hide ZigzagOrder, FrameShape, Reserved, Converted, GetEccSpec, EccLength, AllChunks, ReadEntries, ReadStream, ByteBits, Receive, Words, Remainder,
      Joined, Coded, Shaped, Interleaved, GoodEntry, Written, ToBits, Rows, OnFrame, PlaceOf, Before, Width, Patterns, FrameModule, Filled, IsWidth;
    var ok, raw := NewRaw(input);
    if !ok {
      return null;
    }
    var version := input.version;
    WidthFits(version);
    ghost var spec := GetEccSpec(version, input.level);
    ghost var reserved, order := Patterns(version), ZigzagOrder(Width(version), Patterns(version));
    CodesFill(raw, spec, version, input.level);
    ReceiveBlocks(raw.blocks, version, input.level);
    frame := NewFrame(version);
    FrameMarks(version);
    PatternsShape(version);
    FreeModules(version);
    OrderOnFrame(Width(version), reserved);
    ghost var before := Rows(frame);
    EmptyRows(version, frame);
    ghost var values := Values(Interleaved(raw.blocks, spec.data, spec.ecc));
    ok := FillFrame(Width(version), frame, reserved, raw, spec.data, spec.ecc, Remainder(version));
    ReadModules(before, frame, order, values, Remainder(version));
    WrittenIsFilled(version, before, frame, order, ByteBits(values) + ToBits(Remainder(version), 0));
    SameBits(version, frame);
  }

  /** QRcode_encodeMask: mask 0 to 7 is the caller's choice, a negative one is left to the points,
      except -2 for the frame without a mask. A symbol comes out unless no version can hold the data
      or the mask does not exist, and whoever sees its colours reads the entries of the input. */
  method EncodeMask(input: QRinput, mask: int) returns (symbol: array2?<bv8>, ghost filled: QrMask.Rows, ghost k: nat)
    requires input.Valid()
    modifies input`version, input`streams
    ensures input.Valid() && Converted(input.entries, input.level, old(input.version)).version == input.version
    ensures symbol != null <==> Converted(input.entries, input.level, old(input.version)).ok && mask < 8
    ensures symbol != null ==> fresh(symbol) && Filled(filled, input.version) && k < 8
    ensures symbol != null && mask == -2 ==> QrMask.Shows(symbol, filled)
    ensures symbol != null && mask != -2 ==> QrMask.Shows(symbol, QrMask.Candidate(filled, k, input.level))
    ensures symbol != null && 0 <= mask ==> k == mask
    ensures symbol != null && mask < 0 && mask != -2 ==>
      forall i :: 0 <= i < 8 ==>
        QrMask.Demerit(QrMask.Candidate(filled, k, input.level)) <= QrMask.Demerit(QrMask.Candidate(filled, i, input.level))
    ensures symbol != null && mask != -2 ==>
      var dark := ColoursOf(QrMask.Candidate(filled, k, input.level));
      Sized(dark, input.version) && ReadSymbol(dark, input.version) == Segments(ReadEntries(AllChunks(input.entries, input.version)))
  {
    hide QrMask.Candidate, QrMask.Demerit, Receive, FreeBits, Converted, AllChunks, ReadEntries, ReadSymbol, Capacity, Rows, ColoursOf, Patterns, FrameModule, Width,
      QrMask.FormatLight, QrMask.FormatBit, Reserved, GoodEntry, Sized;
    k, filled := 0, [];
    var frame := FillSymbol(input);
    if frame == null {
      return null, filled, k;
    }
    filled := Rows(frame);
    FrameRows(frame, input.version);
    WidthFits(input.version);
    FormatReserved(filled, input.version);
    if mask == -2 {
      symbol := frame;
    } else if mask < 0 {
      symbol, k := QrMask.Mask(frame, input.level, filled);
      CandidateReads(filled, input.version, k, input.level);
    } else {
      symbol := QrMask.MakeMask(frame, mask, input.level, filled);
      if symbol != null {
        k := mask;
        CandidateReads(filled, input.version, k, input.level);
      }
    }
  }

  lemma FrameRows(frame: array2<bv8>, version: nat)
    requires Filled(Rows(frame), version)
    ensures QrMask.Shows(frame, Rows(frame)) && 21 <= |Rows(frame)| <= 177
  {
    hide FrameModule, Patterns, Reserved;
    var rows := Rows(frame);
    assert |rows[0]| == frame.Length1;
    forall y, x | 0 <= y < |rows| && 0 <= x < |rows| ensures frame[y, x] == rows[y][x] {
    }
  }
}
