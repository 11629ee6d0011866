/** Module placement in the zig-zag of qrencode.c. */
module QrFrame {
  // The frame filler walks over the free modules of a symbol in the order of section 8.7 of
  // JIS X0510:2004, and the encoder writes the code bits there.
  import opened QrSpec
  import opened QrBits

  datatype Cell = Cell(x: int, y: int)

  /** A place in the zig-zag: the pair of columns, counted from the right without the timing
      column 6; how far along it; and the right (0) or left (1) column. Even pairs go up. */
  datatype Place = Place(pair: nat, along: nat, left: nat)

  predicate IsWidth(w: nat) {
    w >= 21 && w % 4 == 1
  }

  /** Number of column pairs. */
  function Pairs(w: nat): nat {
    w / 2
  }

  /** The pair of columns 5 and 4, the first beyond the timing column. */
  function Beyond(w: nat): int {
    (w - 7) / 2
  }

  predicate InZigzag(w: nat, p: Place) {
    p.pair < Pairs(w) && p.along < w && p.left < 2
  }

  function CellAt(w: nat, p: Place): Cell {
    Cell((if p.pair < Beyond(w) then w - 1 - 2 * p.pair else w - 2 - 2 * p.pair) - p.left,
         if p.pair % 2 == 0 then w - 1 - p.along else p.along)
  }

  predicate OnFrame(w: nat, c: Cell) {
    0 <= c.x < w && 0 <= c.y < w
  }

  /** The place of a cell. */
  function PlaceOf(w: nat, c: Cell): Place
    requires IsWidth(w) && OnFrame(w, c) && c.x != 6
  {
    var d := if c.x > 6 then w - 1 - c.x else w - 2 - c.x;
    Place(d / 2, if d / 2 % 2 == 0 then w - 1 - c.y else c.y, d % 2)
  }

  /** The zig-zag passes through every cell outside column 6 exactly once. */
  lemma ZigzagIsOnto(w: nat, c: Cell)
    requires IsWidth(w) && OnFrame(w, c) && c.x != 6
    ensures InZigzag(w, PlaceOf(w, c)) && CellAt(w, PlaceOf(w, c)) == c
  {}

  lemma ZigzagIsOneToOne(w: nat, p: Place)
    requires IsWidth(w) && InZigzag(w, p)
    ensures OnFrame(w, CellAt(w, p)) && CellAt(w, p).x != 6 && PlaceOf(w, CellAt(w, p)) == p
  {}

  /** The next place; `pair` reaches Pairs(w) behind the last one. */
  function Next(w: nat, p: Place): Place {
    if p.left == 0 then Place(p.pair, p.along, 1)
    else if p.along + 1 < w then Place(p.pair, p.along + 1, 0)
    else Place(p.pair + 1, 0, 0)
  }

  /** The unreserved cells from a place on. */
  function FreeFrom(w: nat, reserved: set<Cell>, p: Place): (r: seq<Cell>)
    requires p.along < w && p.left < 2
    decreases Pairs(w) - p.pair, w - p.along, 2 - p.left
  {
    if Pairs(w) <= p.pair then []
    else (if CellAt(w, p) in reserved then [] else [CellAt(w, p)]) + FreeFrom(w, reserved, Next(w, p))
  }

  /** All unreserved cells in zig-zag order. */
  function ZigzagOrder(w: nat, reserved: set<Cell>): seq<Cell>
    requires 0 < w
  {
    FreeFrom(w, reserved, Place(0, 0, 0))
  }

  predicate Before(p: Place, q: Place) {
    p.pair < q.pair || (p.pair == q.pair && (p.along < q.along || (p.along == q.along && p.left < q.left)))
  }

  lemma NothingBetween(w: nat, p: Place, q: Place)
    requires p.along < w && p.left < 2 && q.along < w && q.left < 2
    ensures Before(p, q) <==> !Before(q, Next(w, p))
    ensures Before(p, q) <==> p != q && !Before(q, p)
  {}

  /** FreeFrom lists free cells only, none before p, in increasing order of place. */
  predicate Listed(w: nat, reserved: set<Cell>, p: Place, r: seq<Cell>)
    requires IsWidth(w)
  {
    && (forall k :: 0 <= k < |r| ==> OnFrame(w, r[k]) && r[k].x != 6 && r[k] !in reserved && !Before(PlaceOf(w, r[k]), p))
    && (forall j, k :: 0 <= j < k < |r| ==> Before(PlaceOf(w, r[j]), PlaceOf(w, r[k])))
  }

  lemma {:induction false} FreeFromSorted(w: nat, reserved: set<Cell>, p: Place)
    requires IsWidth(w) && p.along < w && p.left < 2
    ensures Listed(w, reserved, p, FreeFrom(w, reserved, p))
    decreases Pairs(w) - p.pair, w - p.along, 2 - p.left
  {
    hide CellAt, PlaceOf, OnFrame, Before;
    if p.pair < Pairs(w) {
      var tail := FreeFrom(w, reserved, Next(w, p));
      FreeFromSorted(w, reserved, Next(w, p));
      ZigzagIsOneToOne(w, p);
      NothingBetween(w, p, p);
      forall k | 0 <= k < |tail| ensures Before(p, PlaceOf(w, tail[k])) && !Before(PlaceOf(w, tail[k]), p) {
        ZigzagIsOnto(w, tail[k]);
        NothingBetween(w, p, PlaceOf(w, tail[k]));
      }
    }
  }

  /** FreeFrom misses no free cell. */
  lemma {:induction false} FreeFromComplete(w: nat, reserved: set<Cell>, p: Place, c: Cell)
    requires IsWidth(w) && p.along < w && p.left < 2
    requires OnFrame(w, c) && c.x != 6 && c !in reserved && !Before(PlaceOf(w, c), p)
    ensures c in FreeFrom(w, reserved, p)
    decreases Pairs(w) - p.pair, w - p.along, 2 - p.left
  {
    hide CellAt, PlaceOf, OnFrame;
    ZigzagIsOnto(w, c);
    if PlaceOf(w, c) != p {
      FreeFromComplete(w, reserved, Next(w, p), c);
    }
  }

  /** The order lists exactly the unreserved cells outside column 6, each once, along the zig-zag. */
  lemma ZigzagOrderIsExact(w: nat, reserved: set<Cell>)
    requires IsWidth(w)
    ensures var r := ZigzagOrder(w, reserved);
      && (forall c :: c in r <==> OnFrame(w, c) && c.x != 6 && c !in reserved)
      && (forall k :: 0 <= k < |r| ==> OnFrame(w, r[k]) && r[k].x != 6)
      && (forall j, k :: 0 <= j < k < |r| ==> Before(PlaceOf(w, r[j]), PlaceOf(w, r[k])) && r[j] != r[k])
  {
    hide CellAt, PlaceOf, OnFrame, FreeFrom;
    var r := ZigzagOrder(w, reserved);
    FreeFromSorted(w, reserved, Place(0, 0, 0));
    forall c | c in r ensures OnFrame(w, c) && c.x != 6 && c !in reserved {
      var k :| 0 <= k < |r| && r[k] == c;
    }
    forall c | OnFrame(w, c) && c.x != 6 && c !in reserved ensures c in r {
      FreeFromComplete(w, reserved, Place(0, 0, 0), c);
    }
  }

  /** A module that belongs to a function pattern. */
  predicate Reserved(b: bv8) {
    b & 0x80 != 0
  }

  /** What the walk relies on: the format information covers rows 0 to 8 of columns 4 and 5, and
      the bottom-right corner is free. */
  predicate FrameShape(w: nat, reserved: set<Cell>) {
    && (forall y :: 0 <= y < 9 ==> Cell(4, y) in reserved && Cell(5, y) in reserved)
    && Cell(w - 1, w - 1) !in reserved
  }

  /** Nothing is lost by entering the pair beyond the timing column at row 9. */
  lemma {:induction false} SkipReserved(w: nat, reserved: set<Cell>, along: nat)
    requires IsWidth(w) && FrameShape(w, reserved) && along <= 9
    ensures FreeFrom(w, reserved, Place(Beyond(w), along, 0)) == FreeFrom(w, reserved, Place(Beyond(w), 9, 0))
    decreases 9 - along
  {
    hide FreeFrom;
    if along < 9 {
      var p, q := Place(Beyond(w), along, 0), Place(Beyond(w), along, 1);
      TopCells(w, along);
      Unfold(w, reserved, p);
      Unfold(w, reserved, q);
      assert [] + FreeFrom(w, reserved, q) == FreeFrom(w, reserved, q);
      SkipReserved(w, reserved, along + 1);
    }
  }

  lemma TopCells(w: nat, along: nat)
    requires IsWidth(w) && along < 9
    ensures var p, q := Place(Beyond(w), along, 0), Place(Beyond(w), along, 1);
      && InZigzag(w, p) && InZigzag(w, q) && Next(w, p) == q && Next(w, q) == Place(Beyond(w), along + 1, 0)
      && CellAt(w, p) == Cell(5, along) && CellAt(w, q) == Cell(4, along)
  {}

  class FrameFiller {
    const width: nat
    const frame: array2<bv8>
    ghost const reserved: set<Cell>
    var x: int
    var y: int
    var dir: int
    var bit: int

    /** The frame still has the reserved modules that it had at the start. */
    ghost predicate Marks()
      reads frame
    {
      && IsWidth(width) && frame.Length0 == width && frame.Length1 == width && FrameShape(width, reserved)
      && forall cx, cy :: 0 <= cx < width && 0 <= cy < width ==> (Reserved(frame[cy, cx]) <==> Cell(cx, cy) in reserved)
    }

    /** The fields describe a place. */
    ghost predicate AtPlace(p: Place)
      reads this
    {
      InZigzag(width, p) && Cell(x, y) == CellAt(width, p) && bit == p.left && dir == if p.pair % 2 == 0 then -1 else 1
    }

    ghost predicate AtStart()
      reads this
    {
      x == width - 1 && y == width - 1 && dir == -1
    }

    /** The cells that are still to come; nothing is said once the end has been reported. */
    ghost predicate ToCome(cells: seq<Cell>)
      reads this
    {
      if bit == -1 then 0 < width && AtStart() && cells == ZigzagOrder(width, reserved)
      else exists p :: AtPlace(p) && cells == FreeFrom(width, reserved, Next(width, p))
    }

    /** FrameFiller_new, for full-size symbols. */
    constructor (width: nat, frame: array2<bv8>, ghost reserved: set<Cell>)
      requires IsWidth(width)
      ensures this.width == width && this.frame == frame && this.reserved == reserved
      ensures ToCome(ZigzagOrder(width, reserved))
    {
      this.width, this.frame, this.reserved := width, frame, reserved;
      x, y, dir, bit := width - 1, width - 1, -1, -1;
    }

    /** FrameFiller_next: the next free module, or nothing when there is none. */
    method Advance(ghost cells: seq<Cell>) returns (found: bool, c: Cell)
      requires Marks() && ToCome(cells)
      modifies this
      ensures found <==> cells != []
      ensures found ==> c == cells[0] && ToCome(cells[1..])
    {
      hide CellAt, FreeFrom, IsWidth, Reserved;
      if bit == -1 {
        bit := 0;
        StartOfWalk(width, reserved);
        assert AtPlace(Place(0, 0, 0));
        return true, Cell(x, y);
      }
      ghost var p :| AtPlace(p) && cells == FreeFrom(width, reserved, Next(width, p));
      found, c := Walk(cells, p);
    }

    /** The part behind the first call, a tail recursion. */
    method Walk(ghost cells: seq<Cell>, ghost p: Place) returns (found: bool, c: Cell)
      requires Marks() && AtPlace(p) && cells == FreeFrom(width, reserved, Next(width, p))
      modifies this
      ensures found <==> cells != []
      ensures found ==> c == cells[0] && ToCome(cells[1..])
      decreases Pairs(width) - p.pair, width - p.along, 2 - p.left
    {
      hide FreeFrom, Reserved;
      hide CellAt, IsWidth, Landing, Next, FrameShape;
      ghost var q := Landing(width, p);
      LandingKeeps(width, reserved, p);
      StepLands(width, p);
      var nx, ny, w := x, y, width;
      if bit == 0 {
        nx := nx - 1;
        bit := bit + 1;
      } else {
        nx := nx + 1;
        ny := ny + dir;
        bit := bit - 1;
      }
      if dir < 0 {
        if ny < 0 {
          ny := 0;
          nx := nx - 2;
          dir := 1;
          if nx == 6 {
            nx := nx - 1;
            ny := 9;
          }
        }
      } else {
        if ny == w {
          ny := w - 1;
          nx := nx - 2;
          dir := -1;
          if nx == 6 {
            nx := nx - 1;
            ny := ny - 8;
          }
        }
      }
      if nx < 0 || ny < 0 {
        NothingLeft(width, reserved, q);
        return false, Cell(0, 0);
      }
      x, y := nx, ny;
      assert AtPlace(q);
      Unfold(width, reserved, q);
      ZigzagIsOneToOne(width, q);
      if Reserved(frame[ny, nx]) {
        found, c := Walk(cells, q);
        return;
      }
      return true, Cell(nx, ny);
    }
  }

  lemma StartOfWalk(w: nat, reserved: set<Cell>)
    requires IsWidth(w) && FrameShape(w, reserved)
    ensures CellAt(w, Place(0, 0, 0)) == Cell(w - 1, w - 1) && InZigzag(w, Place(0, 0, 0))
    ensures ZigzagOrder(w, reserved) == [Cell(w - 1, w - 1)] + FreeFrom(w, reserved, Next(w, Place(0, 0, 0)))
  {}

  /** Where one step of the walk lands. */
  ghost function Landing(w: nat, p: Place): (q: Place)
    requires IsWidth(w) && InZigzag(w, p)
    ensures q.along < w && q.left < 2 && Before(p, q)
  {
    if Next(w, p) == Place(Beyond(w), 0, 0) then Place(Beyond(w), 9, 0) else Next(w, p)
  }

  lemma LandingKeeps(w: nat, reserved: set<Cell>, p: Place)
    requires IsWidth(w) && InZigzag(w, p) && FrameShape(w, reserved)
    ensures FreeFrom(w, reserved, Landing(w, p)) == FreeFrom(w, reserved, Next(w, p))
  {
    hide FreeFrom;
    SkipReserved(w, reserved, 0);
  }

  lemma Unfold(w: nat, reserved: set<Cell>, p: Place)
    requires InZigzag(w, p)
    ensures FreeFrom(w, reserved, p)
         == (if CellAt(w, p) in reserved then [] else [CellAt(w, p)]) + FreeFrom(w, reserved, Next(w, p))
  {}

  lemma NothingLeft(w: nat, reserved: set<Cell>, p: Place)
    requires p.along < w && p.left < 2 && Pairs(w) <= p.pair
    ensures FreeFrom(w, reserved, p) == []
  {}

  /** What a step to the left column does to the fields. */
  lemma StepLeft(w: nat, p: Place)
    requires IsWidth(w) && InZigzag(w, p) && p.left == 0
    ensures var q, c := Landing(w, p), CellAt(w, p);
      q == Place(p.pair, p.along, 1) && CellAt(w, q) == Cell(c.x - 1, c.y) && 0 <= c.y < w && 1 <= c.x < w
  {}

  /** What a step along the columns does. */
  lemma StepAlong(w: nat, p: Place)
    requires IsWidth(w) && InZigzag(w, p) && p.left == 1
    ensures var q, c := Landing(w, p), CellAt(w, p);
      && var ny := if p.pair % 2 == 0 then c.y - 1 else c.y + 1;
      && 0 <= c.y < w && 0 <= c.x < w - 1
      && (p.along + 1 < w <==> 0 <= ny < w)
      && (p.along + 1 < w ==> q == Place(p.pair, p.along + 1, 0) && CellAt(w, q) == Cell(c.x + 1, ny))
  {}

  /** What a step to the next pair does. The pair of columns 8 and 7 goes up, so the walk meets the
      timing column only at the top. */
  lemma StepAcross(w: nat, p: Place)
    requires IsWidth(w) && InZigzag(w, p) && p.left == 1 && p.along + 1 == w
    ensures var q, c := Landing(w, p), CellAt(w, p);
      && q.pair == p.pair + 1 && q.left == 0
      && (p.pair % 2 == 0 ==> c.y == 0 && CellAt(w, q) == if c.x == 7 then Cell(5, 9) else Cell(c.x - 1, 0))
      && (p.pair % 2 == 1 ==> c.x != 7 && c.y == w - 1 && CellAt(w, q) == Cell(c.x - 1, w - 1))
      && (Pairs(w) <= q.pair <==> CellAt(w, q).x < 0)
  {}

  lemma StepLands(w: nat, p: Place)
    requires IsWidth(w) && InZigzag(w, p)
    ensures var q, c := Landing(w, p), CellAt(w, p);
      && var d := CellAt(w, q);
      && var up := p.pair % 2 == 0;
      && var ny := if up then c.y - 1 else c.y + 1;
      && 0 <= c.y < w && 0 <= c.x < w
      && (p.left == 0 ==> q == Place(p.pair, p.along, 1) && d == Cell(c.x - 1, c.y) && 0 <= d.x)
      && (p.left == 1 && 0 <= ny < w ==> q.pair == p.pair && q.left == 0 && d == Cell(c.x + 1, ny))
      && (p.left == 1 && ny < 0 ==> up && q.pair == p.pair + 1 && q.left == 0 && d == if c.x == 7 then Cell(5, 9) else Cell(c.x - 1, 0))
      && (p.left == 1 && ny == w ==> !up && c.x != 7 && q.pair == p.pair + 1 && q.left == 0 && d == Cell(c.x - 1, w - 1))
      && (Pairs(w) <= q.pair <==> d.x < 0) && 0 <= d.y
  {
    hide CellAt, Landing;
    if p.left == 0 {
      StepLeft(w, p);
    } else {
      StepAlong(w, p);
      if p.along + 1 == w {
        StepAcross(w, p);
      }
    }
  }

  /** The value of a module that holds a code bit. */
  function Module(b: bool): bv8 {
    0x02 | (if b then 1 else 0)
  }

  lemma ModuleFree(b: bool)
    ensures !Reserved(Module(b)) && (Module(b) & 1 == 1 <==> b)
  {}

  /** The first cells of the order hold the given bits and every other cell is as it was. */
  ghost predicate Written(before: seq<seq<bv8>>, frame: array2<bv8>, order: seq<Cell>, bits: seq<bool>)
    requires |bits| <= |order|
    requires forall k :: 0 <= k < |order| ==> 0 <= order[k].x < frame.Length1 && 0 <= order[k].y < frame.Length0
    requires |before| == frame.Length0 && forall y :: 0 <= y < |before| ==> |before[y]| == frame.Length1
    reads frame
  {
    && (forall k :: 0 <= k < |bits| ==> frame[order[k].y, order[k].x] == Module(bits[k]))
    && forall y, x :: 0 <= y < frame.Length0 && 0 <= x < frame.Length1 && Cell(x, y) !in order[..|bits|] ==> frame[y, x] == before[y][x]
  }

  ghost function Rows(frame: array2<bv8>): (r: seq<seq<bv8>>)
    ensures |r| == frame.Length0 && forall y :: 0 <= y < |r| ==> |r[y]| == frame.Length1
    reads frame
  {
    seq(frame.Length0, y requires 0 <= y < frame.Length0 reads frame =>
      seq(frame.Length1, x requires 0 <= x < frame.Length1 reads frame => frame[y, x]))
  }

  /** The k-th cell of an order takes its bit. */
  method Put(frame: array2<bv8>, ghost before: seq<seq<bv8>>, ghost order: seq<Cell>, ghost bits: seq<bool>, c: Cell, b: bool)
    requires |bits| < |order| && c == order[|bits|]
    requires forall j, k :: 0 <= j < k < |order| ==> order[j] != order[k]
    requires forall k :: 0 <= k < |order| ==> 0 <= order[k].x < frame.Length1 && 0 <= order[k].y < frame.Length0
    requires |before| == frame.Length0 && forall y :: 0 <= y < |before| ==> |before[y]| == frame.Length1
    requires Written(before, frame, order, bits)
    modifies frame
    ensures Written(before, frame, order, bits + [b])
    ensures forall y, x :: 0 <= y < frame.Length0 && 0 <= x < frame.Length1 ==>
      frame[y, x] == old(frame[y, x]) || frame[y, x] == Module(b)
    ensures forall y, x :: 0 <= y < frame.Length0 && 0 <= x < frame.Length1 && Cell(x, y) != c ==> frame[y, x] == old(frame[y, x])
    ensures frame[c.y, c.x] == Module(b)
  {
    hide Module;
    frame[c.y, c.x] := Module(b);
    var n := |bits|;
    assert order[..n + 1] == order[..n] + [c];
  }

  /** The bits have been written to the first cells of the order and the filler stands behind them. */
  ghost predicate Filling(filler: FrameFiller, before: seq<seq<bv8>>, order: seq<Cell>, bits: seq<bool>)
    reads filler, filler.frame
  {
    && filler.Marks() && |bits| <= |order|
    && order == ZigzagOrder(filler.width, filler.reserved)
    && |before| == filler.width && (forall y :: 0 <= y < |before| ==> |before[y]| == filler.width)
    && (forall k :: 0 <= k < |order| ==> 0 <= order[k].x < filler.width && 0 <= order[k].y < filler.width)
    && Written(before, filler.frame, order, bits) && filler.ToCome(order[|bits|..])
  }

  /** One round of the loop: *p is set for the next p. */
  method PutNext(filler: FrameFiller, ghost before: seq<seq<bv8>>, ghost order: seq<Cell>, ghost bits: seq<bool>, b: bool)
    returns (found: bool)
    requires Filling(filler, before, order, bits)
    modifies filler, filler.frame
    ensures found <==> |bits| < |order|
    ensures found ==> Filling(filler, before, order, bits + [b])
  {
    hide Module, Reserved, ZigzagOrder, FrameShape, IsWidth, Written, FrameFiller.ToCome, OnFrame, PlaceOf, Before;
    ZigzagOrderIsExact(filler.width, filler.reserved);
    var c;
    found, c := filler.Advance(order[|bits|..]);
    if found {
      assert order[|bits|..][1..] == order[|bits| + 1..];
      assert Written(before, filler.frame, order, bits);
      ModuleFree(b);
      assert c !in filler.reserved;
      Put(filler.frame, before, order, bits, c, b);
    }
  }

  /** The inner loop: the bits of one code, most significant first. */
  method PutCode(filler: FrameFiller, ghost before: seq<seq<bv8>>, ghost order: seq<Cell>, ghost bits: seq<bool>, code: Byte)
    returns (found: bool)
    requires Filling(filler, before, order, bits)
    modifies filler, filler.frame
    ensures found <==> |bits| + 8 <= |order|
    ensures found ==> Filling(filler, before, order, bits + ToBits(8, code))
  {
    hide Filling, ToBits, Bit;
    FillingWithin(filler, before, order, bits);
    assert bits + ToBits(8, code)[..0] == bits;
    for j := 0 to 8
      invariant |bits| + j <= |order| && Filling(filler, before, order, bits + ToBits(8, code)[..j])
    {
      BitAt(8, code, j);
      var b := Bit(code, 7 - j);
      found := PutNext(filler, before, order, bits + ToBits(8, code)[..j], b);
      if !found {
        return;
      }
      assert bits + ToBits(8, code)[..j + 1] == bits + ToBits(8, code)[..j] + [b];
    }
    assert ToBits(8, code)[..8] == ToBits(8, code);
    return true;
  }

  lemma ByteBitsStep(codes: seq<Byte>, i: nat)
    requires i < |codes|
    ensures ByteBits(codes[i..]) == ToBits(8, codes[i]) + ByteBits(codes[i + 1..])
  {
    assert codes[i..][1..] == codes[i + 1..];
  }

  lemma FillingStarts(filler: FrameFiller, before: seq<seq<bv8>>)
    requires filler.Marks() && before == Rows(filler.frame) && filler.ToCome(ZigzagOrder(filler.width, filler.reserved))
    ensures Filling(filler, before, ZigzagOrder(filler.width, filler.reserved), [])
  {
    hide ZigzagOrder, FrameFiller.ToCome, Reserved, FrameShape;
    var order := ZigzagOrder(filler.width, filler.reserved);
    ZigzagOrderIsExact(filler.width, filler.reserved);
    assert order[0..] == order;
  }

  lemma FillingWithin(filler: FrameFiller, before: seq<seq<bv8>>, order: seq<Cell>, bits: seq<bool>)
    requires Filling(filler, before, order, bits)
    ensures |bits| <= |order| && forall k :: 0 <= k < |order| ==> 0 <= order[k].x < filler.width && 0 <= order[k].y < filler.width
    ensures |before| == filler.frame.Length0 && forall y :: 0 <= y < |before| ==> |before[y]| == filler.frame.Length1
    ensures filler.frame.Length0 == filler.frame.Length1 == filler.width
    ensures Written(before, filler.frame, order, bits)
  {}
}
