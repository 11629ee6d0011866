/** Symbols of a series are full. */
module QrSeries {
  // Structured append puts as much into each symbol as there is room for beside the header, so that
  // nothing of what a later symbol begins with would have fitted into the one before it.
  import opened QrSpec
  import opened QrBits
  import opened QrSegments
  import opened QrInput
  import opened QrStruct

  /** The least that can be taken off the front of an entry. */
  function FirstUnit(e: Entry): Entry {
    if e.mode == Structure || |e.data| <= Unit(e.mode) then e else Entry(e.mode, e.data[..Unit(e.mode)])
  }

  predicate FrontOf(part: Entry, e: Entry) {
    part.mode == e.mode && 0 < |part.data| <= |e.data| && part.data == e.data[..|part.data|]
  }

  /** The last entry, made longer. */
  function Lengthened(piece: seq<Entry>, more: Entry): seq<Entry>
    requires piece != []
  {
    var last := piece[|piece| - 1];
    piece[..|piece| - 1] + [Entry(last.mode, last.data + more.data)]
  }

  predicate TooMuch(piece: seq<Entry>, version: nat, level: Level) {
    Good(piece) && Room(version, level) < |StreamBits(piece, version)|
  }

  /** No more of `next` has room in the symbol in front of it: not its first unit by itself; and, unless
      `next` begins one of the whole entries of the input, not its first unit in the entry that was cut. */
  predicate Full(piece: seq<Entry>, next: Entry, whole: seq<Entry>, version: nat, level: Level) {
    && TooMuch(piece + [FirstUnit(next)], version, level)
    && ((exists e :: e in whole && FrontOf(next, e))
        || (piece != [] && piece[|piece| - 1].mode == next.mode && TooMuch(Lengthened(piece, FirstUnit(next)), version, level)))
  }

  predicate AllFull(pieces: seq<seq<Entry>>, whole: seq<Entry>, version: nat, level: Level) {
    forall k :: 0 < k < |pieces| ==> pieces[k] != [] && Full(pieces[k - 1], pieces[k][0], whole, version, level)
  }

  // ----- one cut -----

  lemma FirstUnitGood(e: Entry)
    requires GoodEntry(e)
    ensures GoodEntry(FirstUnit(e)) && (e.mode == Kanji ==> 2 <= |e.data|) && 1 <= |e.data|
    ensures e.mode != Structure ==> |FirstUnit(e).data| == Unit(e.mode)
  {
    hide GoodEntry;
    QrStruct.KanjiEven(e);
    if e.mode != Structure && Unit(e.mode) < |e.data| {
      SliceChecks(e, Unit(e.mode));
    }
  }

  /** A short entry takes one length field. */
  lemma ShortEntry(e: Entry, version: nat)
    requires GoodEntry(e) && e.mode != Structure && |e.data| <= MaximumWords(e.mode, version)
    ensures |EntryBits(e, version)| == 4 + LengthIndicator(e.mode, version) + EstimatePayload(e.mode, |e.data|)
  {
    hide EntryBits, MaximumWords, EstimatePayload, PayloadBits, LengthIndicator;
    EntryBitsWhole(e, version);
    PayloadLength(e);
  }

  /** A unit more than lengthOfCode gives does not fit. */
  lemma UnitMore(e: Entry, bits: nat, version: nat, level: Level)
    requires GoodEntry(e) && e.mode != Structure && 1 <= version <= VERSION_MAX && bits <= Room(version, level)
    requires |e.data| == LengthOfCode(e.mode, version, Room(version, level) - bits) + Unit(e.mode)
    ensures Room(version, level) < bits + |EntryBits(e, version)|
    ensures |e.data| <= MaximumWords(e.mode, version) || Room(version, level) < EstimatePayload(e.mode, |e.data|)
  {
    hide EntryBits, MaximumWords, EstimatePayload, LengthIndicator, LengthOfCode, Room;
    QrStruct.KanjiEven(e);
    if |e.data| <= MaximumWords(e.mode, version) {
      LengthOfCodeExact(e.mode, version, Room(version, level) - bits, |e.data|);
      ShortEntry(e, version);
    } else {
      PayloadBelowReal(e, version);
      if EstimatePayload(e.mode, |e.data|) <= Room(version, level) {
        ShortField(e.mode, |e.data|, version, level);
      }
    }
  }

  /** Nor does the unit by itself, behind what was cut off. */
  lemma UnitApart(e: Entry, n: nat, bits: nat, version: nat, level: Level)
    requires GoodEntry(e) && e.mode != Structure && 1 <= version <= VERSION_MAX && bits <= Room(version, level)
    requires n == LengthOfCode(e.mode, version, Room(version, level) - bits) && 0 < n && |e.data| == n + Unit(e.mode)
    ensures GoodEntry(Entry(e.mode, e.data[..n])) && GoodEntry(Entry(e.mode, e.data[n..]))
    ensures Room(version, level)
          < bits + |EntryBits(Entry(e.mode, e.data[..n]), version)| + |EntryBits(Entry(e.mode, e.data[n..]), version)|
  {
    hide EntryBits, MaximumWords, EstimatePayload, LengthIndicator, LengthOfCode, Room, GoodEntry;
    LengthOfCodeBelow(e.mode, version, Room(version, level) - bits);
    SliceChecks(e, n);
    var a, b := Entry(e.mode, e.data[..n]), Entry(e.mode, e.data[n..]);
    UnitMore(e, bits, version, level);
    PayloadAdds(e.mode, n, Unit(e.mode));
    if |e.data| <= MaximumWords(e.mode, version) {
      ShortEntry(a, version);
      ShortEntry(b, version);
      ShortEntry(e, version);
    } else {
      PayloadBelowReal(a, version);
      PayloadBelowReal(b, version);
    }
  }

  /** Where nothing is taken, not even a unit fits. */
  lemma NothingFits(e: Entry, bits: nat, version: nat, level: Level)
    requires GoodEntry(e) && 1 <= version <= VERSION_MAX && bits <= Room(version, level)
    requires LengthOfCode(e.mode, version, Room(version, level) - bits) == 0
    ensures GoodEntry(FirstUnit(e)) && Room(version, level) < bits + |EntryBits(FirstUnit(e), version)|
  {
    hide EntryBits, EstimatePayload, LengthIndicator, Room, GoodEntry;
    FirstUnitGood(e);
    if e.mode == Structure {
      HeaderExact(e, version, level);
      HeaderNone(version, Room(version, level) - bits);
    } else {
      UnitMore(FirstUnit(e), bits, version, level);
    }
  }

  lemma HeaderNone(version: nat, bits: int)
    requires LengthOfCode(Structure, version, bits) == 0
    ensures bits < HEADER_BITS
  {}

  // ----- the walk -----

  /** The first symbol begins with what is under construction, or with the front of the list. */
  lemma {:induction false} WalkBegins(current: seq<Entry>, list: seq<Entry>, bits: nat, version: nat, level: Level)
    requires Good(list) && 1 <= version <= VERSION_MAX && bits <= Room(version, level)
    requires (current == [] ==> bits == 0) && (current != [] || list != [])
    ensures var r := Walk(current, list, bits, version, level);
      r.Pieces? ==>
        r.pieces[0] != []
        && (if current != [] then r.pieces[0][0] == current[0]
            else FrontOf(r.pieces[0][0], list[0]) && FirstUnit(r.pieces[0][0]) == FirstUnit(list[0]))
    decreases Total(list), bits
  {
    hide DataLength, EstimateEntry, EntryBits, LengthOfCode, Room, GoodEntry, Walk, Total;
    if list == [] {
      WalkEnd(current, bits, version, level);
    } else {
      var e, more := list[0], list[1..];
      var n := LengthOfCode(e.mode, version, Room(version, level) - bits);
      FirstUnitGood(e);
      if bits + EstimateEntry(e, version) <= Room(version, level) {
        WalkAccept(current, list, bits, version, level);
        WalkBegins(current + [e], more, bits + |EntryBits(e, version)|, version, level);
      } else if n == 0 {
        WalkHandOver(current, list, bits, version, level);
      } else if |e.data| <= n {
        WalkStuck(current, list, bits, version, level);
      } else if e.mode == Structure {
        WalkTorn(current, list, bits, version, level);
      } else {
        WalkCut(current, list, bits, version, level, n);
        FirstUnitGood(Entry(e.mode, e.data[..n]));
      }
    }
  }

  lemma BehindFull(piece: seq<Entry>, more: Split, whole: seq<Entry>, rest: seq<Entry>, version: nat, level: Level)
    requires more.Pieces? && 1 <= |more.pieces| && more.pieces[0] != [] && Full(piece, more.pieces[0][0], whole, version, level)
    requires AllFull(more.pieces, rest, version, level) && forall e :: e in rest ==> e in whole
    ensures AllFull(Behind(piece, more).pieces, whole, version, level)
  {
    hide TooMuch;
    var r := Behind(piece, more).pieces;
    forall k | 0 < k < |r| ensures r[k] != [] && Full(r[k - 1], r[k][0], whole, version, level) {
      if k > 1 {
        assert r[k - 1] == more.pieces[k - 2] && r[k] == more.pieces[k - 1];
        assert Full(more.pieces[k - 2], more.pieces[k - 1][0], rest, version, level);
      }
    }
  }

  lemma FullMore(r: Split, some: seq<Entry>, whole: seq<Entry>, version: nat, level: Level)
    requires r.Pieces? ==> AllFull(r.pieces, some, version, level)
    requires forall e :: e in some ==> e in whole
    ensures r.Pieces? ==> AllFull(r.pieces, whole, version, level)
  {
    hide TooMuch;
  }

  lemma OneSymbol(piece: seq<Entry>, whole: seq<Entry>, version: nat, level: Level)
    ensures AllFull([piece] + [], whole, version, level)
  {
    hide Full;
  }

  /** One entry more. */
  lemma Appended(piece: seq<Entry>, e: Entry, version: nat, level: Level)
    requires Good(piece) && GoodEntry(e) && Room(version, level) < |StreamBits(piece, version)| + |EntryBits(e, version)|
    ensures TooMuch(piece + [e], version, level)
  {
    hide EntryBits, GoodEntry, Room;
    StreamJoin(piece, [e], version);
    assert StreamBits([e], version) == EntryBits(e, version) + [];
  }

  lemma HandOverFull(current: seq<Entry>, next: Entry, e: Entry, whole: seq<Entry>, version: nat, level: Level)
    requires PieceFits(current, version, level) && GoodEntry(e) && 1 <= version <= VERSION_MAX && e in whole
    requires |StreamBits(current, version)| <= Room(version, level)
    requires LengthOfCode(e.mode, version, Room(version, level) - |StreamBits(current, version)|) == 0
    requires FrontOf(next, e) && FirstUnit(next) == FirstUnit(e)
    ensures Full(current, next, whole, version, level)
  {
    hide EntryBits, GoodEntry, Room, LengthOfCode, FrontOf, FirstUnit, StreamBits, TooMuch;
    NothingFits(e, |StreamBits(current, version)|, version, level);
    Appended(current, FirstUnit(e), version, level);
  }

  lemma CutFull(current: seq<Entry>, e: Entry, n: nat, next: Entry, whole: seq<Entry>, version: nat, level: Level)
    requires PieceFits(current, version, level) && GoodEntry(e) && 1 <= version <= VERSION_MAX && e.mode != Structure
    requires |StreamBits(current, version)| <= Room(version, level)
    requires n == LengthOfCode(e.mode, version, Room(version, level) - |StreamBits(current, version)|) && 0 < n < |e.data|
    requires GoodEntry(Entry(e.mode, e.data[..n])) && GoodEntry(Entry(e.mode, e.data[n..]))
    requires next.mode == e.mode && FirstUnit(next) == FirstUnit(Entry(e.mode, e.data[n..]))
    ensures Full(current + [Entry(e.mode, e.data[..n])], next, whole, version, level)
  {
    hide EntryBits, GoodEntry, Room, LengthOfCode, StreamBits, TooMuch;
    var bits, u := |StreamBits(current, version)|, Unit(e.mode);
    var a, b := Entry(e.mode, e.data[..n]), Entry(e.mode, e.data[n..]);
    FirstUnitGood(b);
    QrStruct.KanjiEven(b);
    var m := n + u;
    var long := Entry(e.mode, e.data[..m]);
    if m < |e.data| {
      LengthOfCodeBelow(e.mode, version, Room(version, level) - bits);
      SliceChecks(e, m);
    } else {
      assert e.data[..m] == e.data;
    }
    assert FirstUnit(next).data == b.data[..u] == long.data[n..] && long.data[..n] == a.data;
    assert a.data + b.data[..u] == long.data;
    UnitMore(long, bits, version, level);
    UnitApart(long, n, bits, version, level);
    Appended(current, long, version, level);
    assert Lengthened(current + [a], FirstUnit(next)) == current + [long];
    StreamJoin(current, [a], version);
    OneEntryBits(a, version);
    Appended(current + [a], FirstUnit(next), version, level);
  }

  lemma OneEntryBits(e: Entry, version: nat)
    requires GoodEntry(e)
    ensures StreamBits([e], version) == EntryBits(e, version)
  {
    hide EntryBits, GoodEntry;
    assert StreamBits([e], version) == EntryBits(e, version) + [];
  }

  /** Every symbol but the last is full. */
  lemma {:induction false} PiecesFull(current: seq<Entry>, list: seq<Entry>, bits: nat, version: nat, level: Level)
    requires Good(list) && 1 <= version <= VERSION_MAX && bits <= Room(version, level)
    requires PieceFits(current, version, level) && bits == |StreamBits(current, version)|
    requires list != []
    ensures var r := Walk(current, list, bits, version, level);
      r.Pieces? ==> AllFull(r.pieces, if current == [] then list[1..] else list, version, level)
    decreases Total(list), bits
  {
    hide DataLength, EstimateEntry, EntryBits, LengthOfCode, Room, PieceFits, StreamBits, GoodEntry, Walk, Total, MaximumWords, AllFull, Full;
    var e, more := list[0], list[1..];
    var whole := if current == [] then more else list;
    var n := LengthOfCode(e.mode, version, Room(version, level) - bits);
    EmptyFits(version, level);
    if bits + EstimateEntry(e, version) <= Room(version, level) {
      WalkAccept(current, list, bits, version, level);
      Accepted(e, bits, version, level);
      PieceGrows(current, e, version, level);
      var used := bits + |EntryBits(e, version)|;
      if more == [] {
        WalkEnd(current + [e], used, version, level);
        OneSymbol(current + [e], whole, version, level);
      } else {
        PiecesFull(current + [e], more, used, version, level);
        FullMore(Walk(current + [e], more, used, version, level), more, whole, version, level);
      }
    } else if n == 0 {
      WalkHandOver(current, list, bits, version, level);
      var tail := Walk([], list, 0, version, level);
      PiecesFull([], list, 0, version, level);
      WalkBegins([], list, 0, version, level);
      if tail.Pieces? {
        HandOverFull(current, tail.pieces[0][0], e, whole, version, level);
        BehindFull(current, tail, whole, more, version, level);
      }
    } else if |e.data| <= n {
      WalkStuck(current, list, bits, version, level);
    } else if e.mode == Structure {
      WalkTorn(current, list, bits, version, level);
    } else {
      WalkCut(current, list, bits, version, level, n);
      var cut := current + [Entry(e.mode, e.data[..n])];
      var tail := Walk([], CutTail(list, n), 0, version, level);
      PiecesFull([], CutTail(list, n), 0, version, level);
      WalkBegins([], CutTail(list, n), 0, version, level);
      if tail.Pieces? {
        CutFull(current, e, n, tail.pieces[0][0], whole, version, level);
        assert CutTail(list, n)[1..] == more;
        BehindFull(cut, tail, whole, more, version, level);
      }
    }
  }

  /** So a series is never longer for want of filling. */
  lemma SplitIsFull(entries: seq<Entry>, version: nat, level: Level)
    requires Good(entries) && entries != [] && 1 <= version <= VERSION_MAX && SplitOf(entries, version, level).Pieces?
    ensures AllFull(SplitOf(entries, version, level).pieces, entries[1..], version, level)
  {
    hide Walk, Room, EntryBits, GoodEntry, AllFull;
    RoomPositive(version, level);
    EmptyFits(version, level);
    PiecesFull([], entries, 0, version, level);
  }
}
